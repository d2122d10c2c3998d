/**
 * The terminal as the detection routines see it, with no real device, clock
 * or kernel: a `Tty` value that every system call takes and gives back.
 *
 * The state the programs change is the line discipline (`attrs`) and the
 * file-status flags (`flags`). Everything the terminal and the kernel decide
 * is scripted: which `tcgetattr`, `tcsetattr` and `fcntl` calls fail
 * (`faults`), what each `select` reports (`waits`), and what the terminal
 * sends (`inputs`). `errno` is the C global; `log` records every change made
 * to the device, every write to it and every time budget passed to select.
 */
module Device {
  import opened Common

  /** The error numbers that reach the code (EWOULDBLOCK is EAGAIN on Linux). */
  datatype Errno = EAGAIN | EINTR | EIO | EBADF | ENOTTY

  /** Size of the control-character array of `struct termios` on Linux. */
  const NCCS: nat := 32
  /** Indices of the timer and minimum-count slots in `c_cc`. */
  const VTIME: nat := 5
  const VMIN: nat := 6
  /** Local-mode bits. */
  const ICANON: bv32 := 0x2
  const ECHO: bv32 := 0x8
  /** File-status flag for non-blocking reads. */
  const O_NONBLOCK: bv32 := 0x800

  /** The flags with non-blocking mode added (`| O_NONBLOCK`, `flag.insert(OFlag::O_NONBLOCK)`). */
  function WithNonblock(flags: bv32): bv32
  {
    flags | O_NONBLOCK
  }

  type ControlChars = cc: seq<byte> | |cc| == NCCS witness Zeros(NCCS)

  /** `struct termios`: the four mode words and the control characters. */
  datatype Termios = Termios(iflag: bv32, oflag: bv32, cflag: bv32, lflag: bv32, cc: ControlChars)

  /**
   * The raw copy: canonical input and echo switched off in `c_lflag`, reads
   * return at once with whatever has arrived (`VMIN` 0) or after a tenth of
   * a second (`VTIME` 1). The same three assignments appear in both C
   * programs and in set_termios_raw_mode.
   */
  function MakeRaw(t: Termios): (r: Termios)
    ensures r.lflag & (ICANON | ECHO) == 0
    ensures r.lflag & !(ICANON | ECHO) == t.lflag & !(ICANON | ECHO)
    ensures r.cc[VMIN] == 0 && r.cc[VTIME] == 1
    ensures forall i | 0 <= i < NCCS && i != VMIN && i != VTIME :: r.cc[i] == t.cc[i]
    ensures r.iflag == t.iflag && r.oflag == t.oflag && r.cflag == t.cflag
  {
    t.(lflag := t.lflag & !(ICANON | ECHO), cc := t.cc[VMIN := 0][VTIME := 1])
  }

  /** The raw copy of the saved attributes, built field by field as all three programs build it. */
  method RawCopy(oldTerm: Termios) returns (newTerm: Termios)
    ensures newTerm == MakeRaw(oldTerm)
  {
    newTerm := oldTerm;
    newTerm := newTerm.(lflag := newTerm.lflag & !(ICANON | ECHO));
    newTerm := newTerm.(cc := newTerm.cc[VMIN := 0]);
    newTerm := newTerm.(cc := newTerm.cc[VTIME := 1]);
  }

  /** Which calls the device refuses; a refused call fails every time it is made. */
  datatype Faults = Faults(getAttr: bool, setAttr: bool, getFlags: bool, setFlags: bool)

  /** What one `select` reports: readable, timed out, or failed with an error. */
  datatype Wait = Ready | Expired | WaitFailed(code: Errno)

  /** What the terminal delivers to one `read`: bytes (none means end of file), or an error. */
  datatype Input = Data(bytes: seq<byte>) | ReadFails(code: Errno)

  /** A change to the device, a write to it, or a wait on it. */
  datatype Event = AttrsSet(attrs: Termios) | FlagsSet(flags: bv32) | Wrote(bytes: seq<byte>) | Waited(ms: nat)

  datatype Tty = Tty(
    attrs: Termios,
    flags: bv32,
    faults: Faults,
    waits: seq<Wait>,
    inputs: seq<Input>,
    errno: Errno,
    log: seq<Event>)

  /** What a detection routine reports, the reply bytes it accumulated, and the device afterwards. */
  datatype Probe = Probe(supported: bool, received: seq<byte>, tty: Tty)

  /** A terminal that refuses nothing, with the given script, nothing logged yet and cooked attributes all zero. */
  function Scripted(waits: seq<Wait>, inputs: seq<Input>): (t: Tty)
    ensures t.faults == Faults(false, false, false, false)
    ensures t.waits == waits && t.inputs == inputs && t.log == []
  {
    Tty(Termios(0, 0, 0, 0, Zeros(NCCS)), 0, Faults(false, false, false, false), waits, inputs, EIO, [])
  }

  /** The outcome of one `read`: the bytes read (none at end of file), or the error. */
  datatype ReadResult = Got(bytes: seq<byte>) | Failed(code: Errno)

  /** Everything the terminal has yet to deliver, in order. */
  function Pending(inputs: seq<Input>): seq<byte>
  {
    if |inputs| == 0 then []
    else (if inputs[0].Data? then inputs[0].bytes else []) + Pending(inputs[1..])
  }

  /** A measure that every read delivering bytes makes smaller. */
  function Weight(inputs: seq<Input>): nat
  {
    if |inputs| == 0 then 0
    else (if inputs[0].Data? then |inputs[0].bytes| + 1 else 1) + Weight(inputs[1..])
  }

  /** Everything written to the terminal, in order. */
  function Written(log: seq<Event>): seq<byte>
  {
    if |log| == 0 then []
    else (if log[0].Wrote? then log[0].bytes else []) + Written(log[1..])
  }

  /** The budgets passed to select, in order. */
  function Budgets(log: seq<Event>): seq<nat>
  {
    if |log| == 0 then []
    else (if log[0].Waited? then [log[0].ms] else []) + Budgets(log[1..])
  }

  lemma {:induction false} WrittenAppend(a: seq<Event>, b: seq<Event>)
    ensures Written(a + b) == Written(a) + Written(b)
    decreases |a|
  {
    if |a| > 0 {
      WrittenAppend(a[1..], b);
      assert (a + b)[1..] == a[1..] + b;
    } else {
      assert a + b == b;
    }
  }

  lemma {:induction false} BudgetsAppend(a: seq<Event>, b: seq<Event>)
    ensures Budgets(a + b) == Budgets(a) + Budgets(b)
    decreases |a|
  {
    if |a| > 0 {
      BudgetsAppend(a[1..], b);
      assert (a + b)[1..] == a[1..] + b;
    } else {
      assert a + b == b;
    }
  }

  /** One more event adds its bytes, if it is a write, to what was written. */
  lemma WrittenAfter(log: seq<Event>, e: Event)
    ensures Written(log + [e]) == Written(log) + (if e.Wrote? then e.bytes else [])
  {
    WrittenAppend(log, [e]);
    assert Written([e]) == (if e.Wrote? then e.bytes else []) + Written([]);
  }

  /** One more event adds its budget, if it is a wait, to the budgets. */
  lemma BudgetsAfter(log: seq<Event>, e: Event)
    ensures Budgets(log + [e]) == Budgets(log) + (if e.Waited? then [e.ms] else [])
  {
    BudgetsAppend(log, [e]);
    assert Budgets([e]) == (if e.Waited? then [e.ms] else []) + Budgets([]);
  }

  /** Budgets that go on from a first wait of `budget` with waits of 50 ms only. */
  lemma FollowingBudgets(before: seq<nat>, budget: nat, after: seq<nat>)
    requires |before| + 1 <= |after| && after[..|before| + 1] == before + [budget]
    requires |after| > |before| + 1 ==> after[|before| + 1] == 50
    requires forall i | |before| + 1 < i < |after| :: after[i] == 50
    ensures |before| < |after| && after[..|before|] == before && after[|before|] == budget
    ensures forall i | |before| < i < |after| :: after[i] == 50
  {
    assert after[|before|] == after[..|before| + 1][|before|];
    assert after[..|before|] == after[..|before| + 1][..|before|];
  }

  /** `tcgetattr`: the current attributes, or ENOTTY when the device refuses. */
  function TcGetAttr(t: Tty): (r: (Tty, Result<Termios, Errno>))
    ensures r.1.Ok? <==> !t.faults.getAttr
    ensures r.1.Ok? ==> r.0 == t && r.1.value == t.attrs
    ensures r.1.Err? ==> r.0 == t.(errno := r.1.error)
  {
    if t.faults.getAttr then (t.(errno := ENOTTY), Err(ENOTTY)) else (t, Ok(t.attrs))
  }

  /** `tcsetattr(TCSANOW)`: installs `a` at once, or fails with ENOTTY and changes nothing. */
  function TcSetAttr(t: Tty, a: Termios): (r: (Tty, bool))
    ensures r.1 <==> !t.faults.setAttr
    ensures r.1 ==> r.0 == t.(attrs := a, log := t.log + [AttrsSet(a)])
    ensures !r.1 ==> r.0 == t.(errno := ENOTTY)
  {
    if t.faults.setAttr then (t.(errno := ENOTTY), false)
    else (t.(attrs := a, log := t.log + [AttrsSet(a)]), true)
  }

  /** `fcntl(F_GETFL)`: the file-status flags, or EBADF. */
  function GetFl(t: Tty): (r: (Tty, Result<bv32, Errno>))
    ensures r.1.Ok? <==> !t.faults.getFlags
    ensures r.1.Ok? ==> r.0 == t && r.1.value == t.flags
    ensures r.1.Err? ==> r.0 == t.(errno := EBADF)
  {
    if t.faults.getFlags then (t.(errno := EBADF), Err(EBADF)) else (t, Ok(t.flags))
  }

  /** `fcntl(F_SETFL)`: installs `f`, or fails with EBADF and changes nothing. */
  function SetFl(t: Tty, f: bv32): (r: (Tty, bool))
    ensures r.1 <==> !t.faults.setFlags
    ensures r.1 ==> r.0 == t.(flags := f, log := t.log + [FlagsSet(f)])
    ensures !r.1 ==> r.0 == t.(errno := EBADF)
  {
    if t.faults.setFlags then (t.(errno := EBADF), false)
    else (t.(flags := f, log := t.log + [FlagsSet(f)]), true)
  }

  /** `write`: the bytes reach the terminal (write errors are not modelled). */
  function Write(t: Tty, bytes: seq<byte>): (r: Tty)
    ensures r == t.(log := t.log + [Wrote(bytes)])
    ensures Written(r.log) == Written(t.log) + bytes
  {
    WrittenAfter(t.log, Wrote(bytes));
    t.(log := t.log + [Wrote(bytes)])
  }

  /**
   * `select` on standard input with a budget of `ms` milliseconds: the next
   * scripted outcome, or a timeout once the script is exhausted. A failure
   * sets errno.
   */
  function Select(t: Tty, ms: nat): (r: (Tty, Wait))
    ensures r.0.attrs == t.attrs && r.0.flags == t.flags && r.0.faults == t.faults
    ensures r.0.inputs == t.inputs
    ensures r.0.log == t.log + [Waited(ms)]
    ensures |r.0.waits| <= |t.waits| && (r.1.Ready? ==> |r.0.waits| < |t.waits|)
    ensures r.1.WaitFailed? ==> r.0.errno == r.1.code
    ensures !r.1.WaitFailed? ==> r.0.errno == t.errno
  {
    if |t.waits| == 0 then (t.(log := t.log + [Waited(ms)]), Expired)
    else
      var w := t.waits[0];
      (t.(waits := t.waits[1..], log := t.log + [Waited(ms)],
          errno := if w.WaitFailed? then w.code else t.errno), w)
  }

  /**
   * `read` of at most `count` bytes in non-blocking mode: the head of the
   * script, cut to `count` bytes with the rest left pending; EAGAIN when
   * nothing is pending. A failure sets errno; success leaves it as it was.
   */
  function Read(t: Tty, count: nat): (r: (Tty, ReadResult))
    ensures r.0.attrs == t.attrs && r.0.flags == t.flags && r.0.faults == t.faults
    ensures r.0.waits == t.waits && r.0.log == t.log
    ensures r.1.Got? ==> |r.1.bytes| <= count && Pending(t.inputs) == r.1.bytes + Pending(r.0.inputs)
    ensures r.1.Got? ==> r.0.errno == t.errno
    ensures r.1.Got? && |r.1.bytes| > 0 ==> Weight(r.0.inputs) < Weight(t.inputs)
    ensures r.1.Failed? ==> r.0.errno == r.1.code && Pending(r.0.inputs) == Pending(t.inputs)
    ensures Weight(r.0.inputs) <= Weight(t.inputs)
  {
    if |t.inputs| == 0 then (t.(errno := EAGAIN), Failed(EAGAIN))
    else
      match t.inputs[0]
      case ReadFails(e) =>
        (t.(inputs := t.inputs[1..], errno := e), Failed(e))
      case Data(bs) =>
        if |bs| <= count then (t.(inputs := t.inputs[1..]), Got(bs))
        else
          var rest := [Data(bs[count..])] + t.inputs[1..];
          assert rest[1..] == t.inputs[1..];
          assert bs == bs[..count] + bs[count..];
          (t.(inputs := rest), Got(bs[..count]))
  }

  /**
   * `read` into `buf[start..start + count]`: returns the number of bytes
   * stored, or -1 on failure, and stores nothing else.
   */
  method ReadInto(t: Tty, buf: array<byte>, start: nat, count: nat) returns (t': Tty, n: int)
    requires start + count <= buf.Length
    modifies buf
    ensures -1 <= n <= count
    ensures (t', if n < 0 then Failed(t'.errno) else Got(buf[start..start + n])) == Read(t, count)
    ensures buf[..start] == old(buf[..start]) && buf[start + (if n < 0 then 0 else n)..] == old(buf[start + (if n < 0 then 0 else n)..])
  {
    var r;
    t', r := Read(t, count).0, Read(t, count).1;
    if r.Failed? {
      n := -1;
    } else {
      var bytes := r.bytes;
      n := |bytes|;
      forall k | start <= k < start + n {
        buf[k] := bytes[k - start];
      }
      assert buf[start..start + n] == bytes;
    }
  }

  /** Reads of `count` bytes until one returns no bytes or fails: the drain loops. */
  function Drain(t: Tty, count: nat): (r: Tty)
    ensures r.attrs == t.attrs && r.flags == t.flags && r.faults == t.faults
    ensures r.waits == t.waits && r.log == t.log
    decreases Weight(t.inputs)
  {
    var (t1, res) := Read(t, count);
    if res.Got? && |res.bytes| > 0 then Drain(t1, count) else t1
  }

  /** The terminal has only bytes left to send: no end of file and no error among them. */
  predicate OnlyData(inputs: seq<Input>)
  {
    forall i | 0 <= i < |inputs| :: inputs[i].Data? && |inputs[i].bytes| > 0
  }

  /** A read leaves only bytes behind when only bytes were pending. */
  lemma ReadKeepsOnlyData(t: Tty, count: nat)
    requires OnlyData(t.inputs)
    ensures OnlyData(Read(t, count).0.inputs)
  {
    if |t.inputs| > 0 {
      var t1 := Read(t, count).0;
      var bs := t.inputs[0].bytes;
      if |bs| > count {
        assert t1.inputs == [Data(bs[count..])] + t.inputs[1..];
      } else {
        assert t1.inputs == t.inputs[1..];
      }
    }
  }

  /** No read will return 0 bytes: nothing pending is an end of file. */
  predicate NoEndOfFile(inputs: seq<Input>)
  {
    forall i | 0 <= i < |inputs| :: inputs[i] != Data([])
  }

  /** A read of at least one byte from input without an end of file brings bytes or fails, and leaves no end of file behind. */
  lemma ReadKeepsNoEndOfFile(t: Tty, count: nat)
    requires count > 0 && NoEndOfFile(t.inputs)
    ensures var (t1, r) := Read(t, count);
      NoEndOfFile(t1.inputs) && (r.Got? ==> |r.bytes| > 0)
  {
    if |t.inputs| > 0 && t.inputs[0].Data? {
      var bs := t.inputs[0].bytes;
      assert bs != [];
      if |bs| > count {
        assert Read(t, count).0.inputs == [Data(bs[count..])] + t.inputs[1..];
      }
    }
  }

  /** Input that holds only data, with no end of file or error among it, is drained completely. */
  lemma {:induction false} DrainEmpties(t: Tty, count: nat)
    requires count > 0
    requires OnlyData(t.inputs)
    ensures Drain(t, count).inputs == []
    decreases Weight(t.inputs)
  {
    if |t.inputs| > 0 {
      var (t1, res) := Read(t, count);
      ReadKeepsOnlyData(t, count);
      DrainEmpties(t1, count);
    }
  }

  /** A drain with nothing pending reads once, gets EAGAIN and stops. */
  lemma DrainOfSilentTerminal(t: Tty, count: nat)
    requires t.inputs == []
    ensures Drain(t, count) == t.(errno := EAGAIN)
  {
  }

  /** The drain loops: read into `buf` until a read returns no bytes or fails. */
  method DrainInput(t0: Tty, buf: array<byte>) returns (t: Tty)
    modifies buf
    ensures t == Drain(t0, buf.Length)
  {
    t := t0;
    while true
      invariant Drain(t, buf.Length) == Drain(t0, buf.Length)
      decreases Weight(t.inputs)
    {
      var n;
      t, n := ReadInto(t, buf, 0, buf.Length);
      if n <= 0 {
        return;
      }
    }
  }
}
