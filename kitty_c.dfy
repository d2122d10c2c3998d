/**
 * `detect_kitty_graphics_protocol` and `main` of kitty.c, the first of the
 * two C programs.
 *
 * It differs from smaller_kitty.c in five ways: the query goes out through
 * stdio without a NUL (35 bytes); each read asks for `256 - total` bytes
 * and the loop stops at 256; any read that fails or returns nothing ends
 * the loop, with no retry; the reply is recognised by `memmem` on the four
 * bytes `_Gi=`; and nothing is drained before the attributes and then the
 * flags are put back.
 */
module KittyC {
  import opened Common
  import opened Device
  import opened Marker
  import opened CSession

  const BufferSize: nat := 256

  /** The select/read loop from a state with `received` accumulated and a budget of `budget` ms. */
  function Loop(t: Tty, received: seq<byte>, budget: nat): Probe
    requires |received| < BufferSize
    decreases |t.waits|
  {
    var (t1, w) := Select(t, budget);
    if !w.Ready? then Probe(false, received, t1)
    else
      var (t2, r) := Read(t1, BufferSize - |received|);
      if r.Failed? || |r.bytes| == 0 then Probe(false, received, t2)
      else
        var total := received + r.bytes;
        if ContainsReply(total) then Probe(true, total, t2)
        else if |total| >= BufferSize then Probe(false, total, t2)
        else Loop(t2, total, 50)
  }

  /** The whole routine on the device state `t0`. */
  function Detect(t0: Tty): Probe
  {
    var (t1, saved) := TcGetAttr(t0);
    if saved.Err? then Probe(false, [], t1)
    else
      var (t2, rawSet) := TcSetAttr(t1, MakeRaw(saved.value));
      if !rawSet then Probe(false, [], t2) else RawSession(t2, saved.value)
  }

  /** The routine once raw mode is in place. */
  function RawSession(t: Tty, saved: Termios): Probe
  {
    var (t1, got) := GetFl(t);
    var flags: bv32 := if got.Ok? then got.value else 0xFFFF_FFFF;
    var t2 := SetFl(t1, WithNonblock(flags)).0;
    Exchange(Write(t2, Query), saved, flags)
  }

  /** The routine once the query is out: the loop, then the attributes and then the flags put back. */
  function Exchange(t: Tty, saved: Termios, flags: bv32): Probe
  {
    var p := Loop(t, [], 500);
    Probe(p.supported, p.received, Restore(p.tty, saved, flags))
  }

  /** `detect_kitty_graphics_protocol()` on the device state `t0`. */
  method DetectKittyGraphicsProtocol(t0: Tty) returns (supportsKitty: bool, t: Tty)
    ensures supportsKitty == Detect(t0).supported && t == Detect(t0).tty
  {
    var (tGot, saved) := TcGetAttr(t0);
    t := tGot;
    if saved.Err? {
      return false, t;
    }
    var oldTerm := saved.value;
    var newTerm := RawCopy(oldTerm);
    var (tSet, rawSet) := TcSetAttr(t, newTerm);
    t := tSet;
    if !rawSet {
      return false, t;
    }
    supportsKitty, t := QueryTerminal(t, oldTerm);
  }

  /** The routine from raw mode on. */
  method QueryTerminal(t0: Tty, oldTerm: Termios) returns (supportsKitty: bool, t: Tty)
    ensures supportsKitty == RawSession(t0, oldTerm).supported && t == RawSession(t0, oldTerm).tty
  {
    var (tFl, got) := GetFl(t0);
    t := tFl;
    var flags: bv32 := if got.Ok? then got.value else 0xFFFF_FFFF;
    t := SetFl(t, WithNonblock(flags)).0;
    t := Write(t, Query);
    supportsKitty, t := AwaitReply(t);
    t := TcSetAttr(t, oldTerm).0;
    t := SetFl(t, flags).0;
  }

  /**
   * One turn of the loop: the select, the read into what is left of the
   * buffer, the search for the reply, the check for a full buffer. `stop`
   * says the loop ends here.
   */
  method Turn(t0: Tty, buf: array<byte>, totalRead: nat, timeout: nat)
    returns (t: Tty, newTotal: nat, found: bool, stop: bool)
    requires buf.Length == BufferSize && totalRead < BufferSize
    modifies buf
    ensures stop ==>
      newTotal <= buf.Length && Loop(t0, old(buf[..totalRead]), timeout) == Probe(found, buf[..newTotal], t)
    ensures !stop ==>
      !found && totalRead < newTotal < BufferSize && |t.waits| < |t0.waits| &&
      Loop(t0, old(buf[..totalRead]), timeout) == Loop(t, buf[..newTotal], 50)
  {
    ghost var received := buf[..totalRead];
    var (tSel, result) := Select(t0, timeout);
    t := tSel;
    if !result.Ready? {
      return t, totalRead, false, true;
    }
    var bytesRead;
    t, bytesRead := ReadInto(t, buf, totalRead, BufferSize - totalRead);
    if bytesRead <= 0 {
      return t, totalRead, false, true;
    }
    newTotal := totalRead + bytesRead;
    assert buf[..newTotal] == received + buf[totalRead..newTotal];
    found := ContainsReply(buf[..newTotal]);
    stop := found || newTotal >= BufferSize;
  }

  /** The select/read loop, reading into a 256-byte buffer. */
  method AwaitReply(t0: Tty) returns (supportsKitty: bool, t: Tty)
    ensures supportsKitty == Loop(t0, [], 500).supported && t == Loop(t0, [], 500).tty
  {
    var buf := new byte[BufferSize];
    t := t0;
    supportsKitty := false;
    var totalRead := 0;
    ghost var outcome := Loop(t0, [], 500);
    var timeout := 500;
    while true
      invariant 0 <= totalRead < BufferSize
      invariant !supportsKitty
      invariant Loop(t, buf[..totalRead], timeout) == outcome
      decreases |t.waits|
    {
      var stop;
      t, totalRead, supportsKitty, stop := Turn(t, buf, totalRead, timeout);
      if stop {
        break;
      }
      timeout := 50;
    }
  }

  /** The two lines `main` prints. */
  const Supported: string := "Terminal supports Kitty graphics protocol!\n"
  const Unsupported: string := "Terminal does not support Kitty graphics protocol.\n"

  /** How `main` ends: its exit status, what it printed, and the device. */
  datatype Exit = Exit(status: int, stdout: string, tty: Tty)

  /** `main`: detect, print one of the two lines, return 0. */
  function Program(t0: Tty): Exit
  {
    var p := Detect(t0);
    Exit(0, if p.supported then Supported else Unsupported, p.tty)
  }

  /**
   * The loop touches neither the attributes, the flags nor what was
   * written; what it receives and what is still pending are, together,
   * what was pending, and it never holds more than 256 bytes.
   */
  lemma {:induction false} LoopConserves(t: Tty, received: seq<byte>, budget: nat)
    requires |received| < BufferSize
    ensures var p := Loop(t, received, budget);
      |received| <= |p.received| <= BufferSize &&
      received + Pending(t.inputs) == p.received + Pending(p.tty.inputs) &&
      p.tty.attrs == t.attrs && p.tty.flags == t.flags && p.tty.faults == t.faults &&
      Written(p.tty.log) == Written(t.log)
    decreases |t.waits|
  {
    var (t1, w) := Select(t, budget);
    WrittenAfter(t.log, Waited(budget));
    if w.Ready? {
      var (t2, r) := Read(t1, BufferSize - |received|);
      if r.Got? && |r.bytes| > 0 {
        var total := received + r.bytes;
        assert received + Pending(t.inputs) == total + Pending(t2.inputs);
        if !ContainsReply(total) && |total| < BufferSize {
          LoopConserves(t2, total, 50);
        }
      }
    }
  }

  /** The loop reports support exactly when `_Gi=` occurs in what it received. */
  lemma {:induction false} LoopReportsReply(t: Tty, received: seq<byte>, budget: nat)
    requires |received| < BufferSize && !ContainsReply(received)
    ensures Loop(t, received, budget).supported <==> ContainsReply(Loop(t, received, budget).received)
    decreases |t.waits|
  {
    var (t1, w) := Select(t, budget);
    if w.Ready? {
      var (t2, r) := Read(t1, BufferSize - |received|);
      if r.Got? && |r.bytes| > 0 {
        var total := received + r.bytes;
        if !ContainsReply(total) && |total| < BufferSize {
          LoopReportsReply(t2, total, 50);
        }
      }
    }
  }

  /** The loop waits once per turn: `budget` on the first select, 50 ms on every later one. */
  lemma {:induction false} LoopBudgets(t: Tty, received: seq<byte>, budget: nat)
    requires |received| < BufferSize
    ensures var before := Budgets(t.log);
      var after := Budgets(Loop(t, received, budget).tty.log);
      |after| > |before| && after[..|before|] == before && after[|before|] == budget &&
      forall i | |before| < i < |after| :: after[i] == 50
    decreases |t.waits|
  {
    var before := Budgets(t.log);
    var (t1, w) := Select(t, budget);
    BudgetsAfter(t.log, Waited(budget));
    assert Budgets(t1.log) == before + [budget];
    assert (before + [budget])[..|before|] == before;
    if w.Ready? {
      var (t2, r) := Read(t1, BufferSize - |received|);
      if r.Got? && |r.bytes| > 0 {
        var total := received + r.bytes;
        if !ContainsReply(total) && |total| < BufferSize {
          assert Loop(t, received, budget) == Loop(t2, total, 50);
          assert Budgets(t2.log) == before + [budget];
          LoopBudgets(t2, total, 50);
          FollowingBudgets(before, budget, Budgets(Loop(t2, total, 50).tty.log));
        }
      }
    }
  }

  /** The first select waits 500 ms and every later one 50 ms. */
  lemma DetectBudgets(t0: Tty)
    requires !t0.faults.getAttr && !t0.faults.setAttr
    ensures var before := Budgets(t0.log);
      var after := Budgets(Detect(t0).tty.log);
      |after| > |before| && after[..|before|] == before && after[|before|] == 500 &&
      forall i | |before| < i < |after| :: after[i] == 50
  {
    DetectIsExchange(t0);
    var q := Queried(t0, Query);
    QueriedLog(t0, Query);
    LoopBudgets(q, [], 500);
    LoopConserves(q, [], 500);
    RestoreLog(Loop(q, [], 500).tty, t0.attrs, SavedFlags(t0));
  }

  /** Past raw mode, the routine is the exchange on the queried state. */
  lemma DetectIsExchange(t0: Tty)
    requires !t0.faults.getAttr && !t0.faults.setAttr
    ensures Detect(t0) == Exchange(Queried(t0, Query), t0.attrs, SavedFlags(t0))
  {
    var t2 := TcSetAttr(t0, MakeRaw(t0.attrs)).0;
    assert Detect(t0) == RawSession(t2, t0.attrs);
  }

  /** Without readable, settable attributes the routine gives up at once, changing only errno. */
  lemma NoTerminalNoProbe(t0: Tty)
    requires t0.faults.getAttr || t0.faults.setAttr
    ensures Detect(t0) == Probe(false, [], t0.(errno := ENOTTY))
  {
  }

  /**
   * Support is reported exactly when `_Gi=` occurs in the bytes received;
   * those bytes are the start of what the terminal sent, at most 256 of them.
   */
  lemma DetectReportsReply(t0: Tty)
    ensures var p := Detect(t0);
      (p.supported <==> ContainsReply(p.received)) &&
      p.received <= Pending(t0.inputs) && |p.received| <= BufferSize
  {
    if !t0.faults.getAttr && !t0.faults.setAttr {
      DetectIsExchange(t0);
      var q := Queried(t0, Query);
      LoopReportsReply(q, [], 500);
      LoopConserves(q, [], 500);
      var p := Loop(q, [], 500);
      assert Pending(t0.inputs) == p.received + Pending(p.tty.inputs);
    }
  }

  /**
   * Once raw mode is in place the 35-byte query (no NUL) is the only thing
   * written, and the attributes and then the flags are put back.
   */
  lemma DetectWritesAndRestores(t0: Tty)
    requires !t0.faults.getAttr && !t0.faults.setAttr
    ensures var t := Detect(t0).tty;
      Written(t.log) == Written(t0.log) + Query && t.attrs == t0.attrs &&
      (!t0.faults.setFlags ==>
        t.flags == SavedFlags(t0) &&
        |t.log| >= 2 && t.log[|t.log| - 2..] == [AttrsSet(t0.attrs), FlagsSet(SavedFlags(t0))])
  {
    DetectIsExchange(t0);
    var q := Queried(t0, Query);
    QueriedLog(t0, Query);
    LoopConserves(q, [], 500);
    RestoreLog(Loop(q, [], 500).tty, t0.attrs, SavedFlags(t0));
  }

  /** A terminal that answers at once with the reply of a supporting terminal is detected. */
  lemma OkReplyDetected()
    ensures Detect(Scripted([Ready], [Data(OkReply)])).supported
  {
    var t0 := Scripted([Ready], [Data(OkReply)]);
    DetectIsExchange(t0);
    OkReplyRecognised();
    assert [] + OkReply == OkReply;
  }

  /**
   * A read that fails with EAGAIN ends the loop: the reply that follows is
   * never read, and support is denied.
   */
  lemma EagainEndsTheLoop()
    ensures !Detect(Scripted([Ready, Ready], [ReadFails(EAGAIN), Data(OkReply)])).supported
  {
    DetectIsExchange(Scripted([Ready, Ready], [ReadFails(EAGAIN), Data(OkReply)]));
  }

  /**
   * Nothing is drained: when the marker arrives in a first read, the rest
   * of the reply is still pending once the routine returns.
   */
  lemma RestOfReplyLeftPending()
    ensures var p := Detect(Scripted([Ready, Ready], [Data(OkReply[..6]), Data(OkReply[6..])]));
      p.supported && p.tty.inputs == [Data(OkReply[6..])]
  {
    var t0 := Scripted([Ready, Ready], [Data(OkReply[..6]), Data(OkReply[6..])]);
    DetectIsExchange(t0);
    assert ReplyAt(OkReply[..6], 1);
    assert [] + OkReply[..6] == OkReply[..6];
  }

  /** `main` always returns 0 and prints the first line exactly when support was detected. */
  lemma ProgramReports(t0: Tty)
    ensures Program(t0).status == 0
    ensures Program(t0).stdout == Supported <==> Detect(t0).supported
    ensures Program(t0).tty == Detect(t0).tty
  {
    assert Supported[9] != Unsupported[9];
  }
}
