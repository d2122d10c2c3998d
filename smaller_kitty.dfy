/**
 * `detect_kitty_graphics_protocol` of smaller_kitty.c.
 *
 * The routine saves the line discipline and installs the raw copy, makes
 * standard input non-blocking, writes the query (with its terminating NUL:
 * 36 bytes), and then reads the reply into a 256-byte buffer: each select
 * waits 500 ms the first time and 50 ms after a read that delivered bytes,
 * each read asks for `255 - total` bytes, a read that fails or returns
 * nothing is retried while errno is EAGAIN, and the loop stops on a marker,
 * on 255 bytes, on a select that does not report input, or on any other
 * read outcome. It then drains the input and restores the attributes and
 * then the flags.
 *
 * `Loop` and `Detect` state the routine on values; the method is the
 * routine itself, proved equal to `Detect` with the scan as written.
 * `LoopEofEnds` is the loop that ends on end of file instead of testing
 * the errno an earlier read left behind.
 */
module SmallerKitty {
  import opened Common
  import opened Device
  import opened Marker
  import opened CSession

  /** The buffer is 256 bytes and the loop keeps the last one free. */
  const BufferSize: nat := 256
  const Limit: nat := 255

  /** The select/read loop from a state with `received` accumulated and a budget of `budget` ms. */
  function Loop(t: Tty, received: seq<byte>, budget: nat, scan: Scan): Probe
    requires |received| < Limit
    decreases |t.waits|
  {
    var (t1, w) := Select(t, budget);
    if !w.Ready? then Probe(false, received, t1)
    else
      var (t2, r) := Read(t1, Limit - |received|);
      if r.Failed? || |r.bytes| == 0 then
        if t2.errno == EAGAIN then Loop(t2, received, budget, scan) else Probe(false, received, t2)
      else
        var total := received + r.bytes;
        if Sees(scan, total) then Probe(true, total, t2)
        else if |total| >= Limit then Probe(false, total, t2)
        else Loop(t2, total, 50, scan)
  }

  /** The bytes written: the 35-byte query and the NUL that ends the C literal. */
  const QueryWithNul: seq<byte> := Query + [0]

  /** The whole routine on the device state `t0`. */
  function Detect(t0: Tty, scan: Scan): Probe
  {
    var (t1, saved) := TcGetAttr(t0);
    if saved.Err? then Probe(false, [], t1)
    else
      var (t2, rawSet) := TcSetAttr(t1, MakeRaw(saved.value));
      if !rawSet then Probe(false, [], t2) else RawSession(t2, saved.value, scan)
  }

  /**
   * The routine once raw mode is in place: the flags are read (all ones
   * when that fails), `O_NONBLOCK` is added, and the query is written.
   */
  function RawSession(t: Tty, saved: Termios, scan: Scan): Probe
  {
    var (t1, got) := GetFl(t);
    var flags: bv32 := if got.Ok? then got.value else 0xFFFF_FFFF;
    var t2 := SetFl(t1, WithNonblock(flags)).0;
    Exchange(Write(t2, QueryWithNul), saved, flags, scan)
  }

  /**
   * The routine once the query is out: the loop, the drain, and the
   * restoring of the attributes `saved` and then of the flags `flags`.
   */
  function Exchange(t: Tty, saved: Termios, flags: bv32, scan: Scan): Probe
  {
    var p := Loop(t, [], 500, scan);
    Probe(p.supported, p.received, Restore(Drain(p.tty, BufferSize), saved, flags))
  }

  /**
   * One turn of the loop: the select, the read into what is left of the
   * 255 bytes, the scan for `_Gi`, the check for a full buffer. `stop` says
   * the loop ends here; `retried` says the read would have blocked, and the
   * loop goes round again with the same budget.
   */
  method Turn(t0: Tty, buf: array<byte>, totalRead: nat, timeout: nat)
    returns (t: Tty, newTotal: nat, found: bool, stop: bool, retried: bool)
    requires buf.Length == BufferSize && totalRead < Limit
    modifies buf
    ensures stop ==>
      !retried && newTotal <= Limit &&
      Loop(t0, old(buf[..totalRead]), timeout, AsWritten) == Probe(found, buf[..newTotal], t)
    ensures !stop && retried ==>
      !found && newTotal == totalRead && |t.waits| < |t0.waits| &&
      Loop(t0, old(buf[..totalRead]), timeout, AsWritten) == Loop(t, buf[..totalRead], timeout, AsWritten)
    ensures !stop && !retried ==>
      !found && totalRead < newTotal < Limit && |t.waits| < |t0.waits| &&
      Loop(t0, old(buf[..totalRead]), timeout, AsWritten) == Loop(t, buf[..newTotal], 50, AsWritten)
  {
    ghost var received := buf[..totalRead];
    var (tSel, result) := Select(t0, timeout);
    t := tSel;
    if !result.Ready? {
      return t, totalRead, false, true, false;
    }
    var bytesRead;
    t, bytesRead := ReadInto(t, buf, totalRead, Limit - totalRead);
    if bytesRead <= 0 {
      if t.errno == EAGAIN {
        return t, totalRead, false, false, true;
      }
      return t, totalRead, false, true, false;
    }
    newTotal := totalRead + bytesRead;
    assert buf[..newTotal] == received + buf[totalRead..newTotal];
    found := ScanForMarker(buf, newTotal);
    stop := found || newTotal >= Limit;
    retried := false;
  }

  /**
   * The select/read loop of the routine, reading into `buf` from its start:
   * it reports what `Loop` reports from an empty reply and a 500 ms budget.
   */
  method AwaitReply(t0: Tty, buf: array<byte>) returns (supportsKitty: bool, t: Tty)
    requires buf.Length == BufferSize
    modifies buf
    ensures supportsKitty == Loop(t0, [], 500, AsWritten).supported
    ensures t == Loop(t0, [], 500, AsWritten).tty
  {
    t := t0;
    supportsKitty := false;
    var totalRead := 0;
    ghost var outcome := Loop(t0, [], 500, AsWritten);
    var timeout := 500;
    while true
      invariant 0 <= totalRead < Limit
      invariant !supportsKitty
      invariant Loop(t, buf[..totalRead], timeout, AsWritten) == outcome
      decreases |t.waits|
    {
      var stop, retried;
      t, totalRead, supportsKitty, stop, retried := Turn(t, buf, totalRead, timeout);
      if stop {
        break;
      }
      if !retried {
        timeout := 50;
      }
    }
  }

  /** `detect_kitty_graphics_protocol()` on the device state `t0`. */
  method DetectKittyGraphicsProtocol(t0: Tty) returns (supportsKitty: bool, t: Tty)
    ensures supportsKitty == Detect(t0, AsWritten).supported && t == Detect(t0, AsWritten).tty
  {
    var (tGot, saved) := TcGetAttr(t0);
    t := tGot;
    if saved.Err? {
      return false, t;
    }
    var oldTerm := saved.value;
    var newTerm := RawCopy(oldTerm);
    var (tSet, rawSet) := TcSetAttr(t, newTerm);
    t := tSet;
    if !rawSet {
      return false, t;
    }
    supportsKitty, t := QueryTerminal(t, oldTerm);
  }

  /** The routine from raw mode on: flags, the query, the reply loop and the restoring. */
  method QueryTerminal(t0: Tty, oldTerm: Termios) returns (supportsKitty: bool, t: Tty)
    ensures supportsKitty == RawSession(t0, oldTerm, AsWritten).supported
    ensures t == RawSession(t0, oldTerm, AsWritten).tty
  {
    var (tFl, got) := GetFl(t0);
    t := tFl;
    var flags: bv32 := if got.Ok? then got.value else 0xFFFF_FFFF;
    t := SetFl(t, WithNonblock(flags)).0;
    t := Write(t, QueryWithNul);
    supportsKitty, t := AwaitAndRestore(t, oldTerm, flags);
  }

  /** The reply loop, the drain, and the restoring of the attributes and then the flags. */
  method AwaitAndRestore(t0: Tty, oldTerm: Termios, flags: bv32) returns (supportsKitty: bool, t: Tty)
    ensures supportsKitty == Exchange(t0, oldTerm, flags, AsWritten).supported
    ensures t == Exchange(t0, oldTerm, flags, AsWritten).tty
  {
    var buf := new byte[BufferSize](_ => 0);
    supportsKitty, t := AwaitReply(t0, buf);
    t := DrainInput(t, buf);
    t := TcSetAttr(t, oldTerm).0;
    t := SetFl(t, flags).0;
  }

  /**
   * The loop touches neither the attributes, the flags nor what was
   * written; everything it receives comes from the terminal in order (what
   * it received and what is still pending are, together, what was pending),
   * and it never holds more than 255 bytes.
   */
  lemma {:induction false} LoopConserves(t: Tty, received: seq<byte>, budget: nat, scan: Scan)
    requires |received| < Limit
    ensures var p := Loop(t, received, budget, scan);
      |received| <= |p.received| <= Limit &&
      received + Pending(t.inputs) == p.received + Pending(p.tty.inputs) &&
      p.tty.attrs == t.attrs && p.tty.flags == t.flags && p.tty.faults == t.faults &&
      Written(p.tty.log) == Written(t.log)
    decreases |t.waits|
  {
    var (t1, w) := Select(t, budget);
    WrittenAfter(t.log, Waited(budget));
    if w.Ready? {
      var (t2, r) := Read(t1, Limit - |received|);
      var retried := r.Failed? || |r.bytes| == 0;
      var total := if retried then received else received + r.bytes;
      var next := if retried then budget else 50;
      assert received + Pending(t.inputs) == total + Pending(t2.inputs);
      assert t2.attrs == t.attrs && t2.flags == t.flags && t2.faults == t.faults;
      assert Written(t2.log) == Written(t.log);
      if (retried && t2.errno == EAGAIN) || (!retried && !Sees(scan, total) && |total| < Limit) {
        assert Loop(t, received, budget, scan) == Loop(t2, total, next, scan);
        LoopConserves(t2, total, next, scan);
      }
    }
  }

  /** The loop only adds to the log. */
  lemma {:induction false} LoopExtendsLog(t: Tty, received: seq<byte>, budget: nat, scan: Scan)
    requires |received| < Limit
    ensures var log := Loop(t, received, budget, scan).tty.log;
      |log| > |t.log| && log[..|t.log|] == t.log
    decreases |t.waits|
  {
    var (t1, w) := Select(t, budget);
    if w.Ready? {
      var (t2, r) := Read(t1, Limit - |received|);
      var retried := r.Failed? || |r.bytes| == 0;
      var total := if retried then received else received + r.bytes;
      var next := if retried then budget else 50;
      if (retried && t2.errno == EAGAIN) || (!retried && !Sees(scan, total) && |total| < Limit) {
        assert Loop(t, received, budget, scan) == Loop(t2, total, next, scan);
        LoopExtendsLog(t2, total, next, scan);
        var log := Loop(t2, total, next, scan).tty.log;
        assert log[..|t.log|] == log[..|t2.log|][..|t.log|];
      }
    }
  }

  /** The loop reports support exactly when the scan sees a marker in what it received. */
  lemma {:induction false} LoopReportsScan(t: Tty, received: seq<byte>, budget: nat, scan: Scan)
    requires |received| < Limit && !Sees(scan, received)
    ensures Loop(t, received, budget, scan).supported <==> Sees(scan, Loop(t, received, budget, scan).received)
    decreases |t.waits|
  {
    var (t1, w) := Select(t, budget);
    if w.Ready? {
      var (t2, r) := Read(t1, Limit - |received|);
      if r.Failed? || |r.bytes| == 0 {
        if t2.errno == EAGAIN {
          LoopReportsScan(t2, received, budget, scan);
        }
      } else {
        var total := received + r.bytes;
        if !Sees(scan, total) && |total| < Limit {
          LoopReportsScan(t2, total, 50, scan);
        }
      }
    }
  }

  /**
   * The first select waits `budget` ms; every later one waits the same or
   * 50 ms (the budget drops to 50 ms once bytes have arrived).
   */
  lemma {:induction false} LoopBudgets(t: Tty, received: seq<byte>, budget: nat, scan: Scan)
    requires |received| < Limit
    ensures var before := Budgets(t.log);
      var after := Budgets(Loop(t, received, budget, scan).tty.log);
      |after| > |before| && after[..|before|] == before && after[|before|] == budget &&
      forall i | |before| <= i < |after| :: after[i] == budget || after[i] == 50
    decreases |t.waits|
  {
    var (t1, w) := Select(t, budget);
    BudgetsAfter(t.log, Waited(budget));
    var before := Budgets(t.log);
    assert Budgets(t1.log) == before + [budget];
    if w.Ready? {
      var (t2, r) := Read(t1, Limit - |received|);
      var retried := r.Failed? || |r.bytes| == 0;
      var total := if retried then received else received + r.bytes;
      var next := if retried then budget else 50;
      if (retried && t2.errno == EAGAIN) || (!retried && !Sees(scan, total) && |total| < Limit) {
        assert Loop(t, received, budget, scan) == Loop(t2, total, next, scan);
        assert Budgets(t2.log) == before + [budget];
        LoopBudgets(t2, total, next, scan);
        ExtendedBudgets(before, budget, next, Budgets(Loop(t2, total, next, scan).tty.log));
      }
    }
  }

  /** Budgets that follow a first wait of `budget` and keep to `next` or 50 keep to `budget` or 50. */
  lemma ExtendedBudgets(before: seq<nat>, budget: nat, next: nat, after: seq<nat>)
    requires next == budget || next == 50
    requires |after| > |before| + 1 && after[..|before| + 1] == before + [budget]
    requires forall i | |before| + 1 <= i < |after| :: after[i] == next || after[i] == 50
    ensures |after| > |before| && after[..|before|] == before && after[|before|] == budget
    ensures forall i | |before| <= i < |after| :: after[i] == budget || after[i] == 50
  {
    assert after[|before|] == after[..|before| + 1][|before|];
    assert after[..|before|] == after[..|before| + 1][..|before|];
  }

  /** The loop leaves only bytes pending when only bytes were pending. */
  lemma {:induction false} LoopKeepsOnlyData(t: Tty, received: seq<byte>, budget: nat, scan: Scan)
    requires |received| < Limit && OnlyData(t.inputs)
    ensures OnlyData(Loop(t, received, budget, scan).tty.inputs)
    decreases |t.waits|
  {
    var (t1, w) := Select(t, budget);
    if w.Ready? {
      var (t2, r) := Read(t1, Limit - |received|);
      ReadKeepsOnlyData(t1, Limit - |received|);
      if r.Failed? || |r.bytes| == 0 {
        if t2.errno == EAGAIN {
          LoopKeepsOnlyData(t2, received, budget, scan);
        }
      } else {
        var total := received + r.bytes;
        if !Sees(scan, total) && |total| < Limit {
          LoopKeepsOnlyData(t2, total, 50, scan);
        }
      }
    }
  }

  /**
   * When the attributes cannot be read, or the raw copy cannot be
   * installed, the routine gives up at once: nothing is written, nothing
   * changes but errno, and support is denied.
   */
  lemma NoTerminalNoProbe(t0: Tty, scan: Scan)
    requires t0.faults.getAttr || t0.faults.setAttr
    ensures Detect(t0, scan) == Probe(false, [], t0.(errno := ENOTTY))
  {
  }

  /** Past raw mode, the routine is the exchange on the queried state. */
  lemma DetectIsExchange(t0: Tty, scan: Scan)
    requires !t0.faults.getAttr && !t0.faults.setAttr
    ensures Detect(t0, scan) == Exchange(Queried(t0, QueryWithNul), t0.attrs, SavedFlags(t0), scan)
  {
    var t2 := TcSetAttr(t0, MakeRaw(t0.attrs)).0;
    assert Detect(t0, scan) == RawSession(t2, t0.attrs, scan);
  }

  /**
   * Once raw mode is in place: the query (with its NUL) is written once
   * and nothing else is, the first change is the raw copy, and the last two
   * are the saved attributes and then the saved flags.
   */
  lemma DetectWritesAndRestores(t0: Tty, scan: Scan)
    requires !t0.faults.getAttr && !t0.faults.setAttr
    ensures var t := Detect(t0, scan).tty;
      Written(t.log) == Written(t0.log) + QueryWithNul &&
      |t.log| > |t0.log| + 1 && t.log[|t0.log|] == AttrsSet(MakeRaw(t0.attrs)) &&
      t.attrs == t0.attrs &&
      (!t0.faults.setFlags ==>
        t.flags == SavedFlags(t0) &&
        t.log[|t.log| - 2..] == [AttrsSet(t0.attrs), FlagsSet(SavedFlags(t0))]) &&
      (t0.faults.setFlags ==> t.flags == t0.flags && t.log[|t.log| - 1] == AttrsSet(t0.attrs))
  {
    DetectIsExchange(t0, scan);
    var q := Queried(t0, QueryWithNul);
    QueriedLog(t0, QueryWithNul);
    assert q.faults == t0.faults && (t0.faults.setFlags ==> q.flags == t0.flags);
    ExchangeLog(q, t0.attrs, SavedFlags(t0), scan);
    var t := Exchange(q, t0.attrs, SavedFlags(t0), scan).tty;
    assert t.log[|t0.log|] == t.log[..|q.log|][|t0.log|];
  }

  /**
   * The exchange only adds to the log, writes nothing, and ends with the
   * saved attributes and then, when they can be set, the saved flags.
   */
  lemma ExchangeLog(q: Tty, saved: Termios, flags: bv32, scan: Scan)
    requires !q.faults.setAttr
    ensures var t := Exchange(q, saved, flags, scan).tty;
      |t.log| > |q.log| && t.log[..|q.log|] == q.log &&
      Written(t.log) == Written(q.log) && t.attrs == saved &&
      (!q.faults.setFlags ==>
        t.flags == flags && |t.log| >= 2 && t.log[|t.log| - 2..] == [AttrsSet(saved), FlagsSet(flags)]) &&
      (q.faults.setFlags ==> t.flags == q.flags && t.log[|t.log| - 1] == AttrsSet(saved))
  {
    LoopConserves(q, [], 500, scan);
    LoopExtendsLog(q, [], 500, scan);
    var p := Loop(q, [], 500, scan);
    var drained := Drain(p.tty, BufferSize);
    assert drained.log == p.tty.log && drained.faults == q.faults && drained.flags == q.flags;
    RestoreTail(drained, saved, flags);
    var t := Restore(drained, saved, flags);
    assert t == Exchange(q, saved, flags, scan).tty;
    assert t.log[..|q.log|] == t.log[..|drained.log|][..|q.log|];
  }

  /**
   * Support is reported exactly when the scan sees a marker in the bytes
   * received; those bytes are the start of what the terminal sent, and
   * there are at most 255 of them.
   */
  lemma DetectReportsScan(t0: Tty, scan: Scan)
    ensures var p := Detect(t0, scan);
      (p.supported <==> Sees(scan, p.received)) &&
      p.received <= Pending(t0.inputs) && |p.received| <= Limit
  {
    if !t0.faults.getAttr && !t0.faults.setAttr {
      DetectIsExchange(t0, scan);
      var q := Queried(t0, QueryWithNul);
      LoopReportsScan(q, [], 500, scan);
      LoopConserves(q, [], 500, scan);
      var p := Loop(q, [], 500, scan);
      assert Pending(t0.inputs) == p.received + Pending(p.tty.inputs);
    }
  }

  /**
   * The drain consumes the rest of the reply: when the terminal sends
   * only bytes, nothing of them is left for the shell afterwards.
   */
  lemma DetectDrainsReply(t0: Tty, scan: Scan)
    requires !t0.faults.getAttr && !t0.faults.setAttr && OnlyData(t0.inputs)
    ensures Detect(t0, scan).tty.inputs == []
  {
    DetectIsExchange(t0, scan);
    var q := Queried(t0, QueryWithNul);
    LoopKeepsOnlyData(q, [], 500, scan);
    DrainEmpties(Loop(q, [], 500, scan).tty, BufferSize);
  }

  /** The first select waits 500 ms and every later one 500 or 50 ms. */
  lemma DetectBudgets(t0: Tty, scan: Scan)
    requires !t0.faults.getAttr && !t0.faults.setAttr
    ensures var before := Budgets(t0.log);
      var after := Budgets(Detect(t0, scan).tty.log);
      |after| > |before| && after[..|before|] == before && after[|before|] == 500 &&
      forall i | |before| <= i < |after| :: after[i] == 500 || after[i] == 50
  {
    DetectIsExchange(t0, scan);
    var q := Queried(t0, QueryWithNul);
    QueriedLog(t0, QueryWithNul);
    LoopBudgets(q, [], 500, scan);
    LoopConserves(q, [], 500, scan);
    var drained := Drain(Loop(q, [], 500, scan).tty, BufferSize);
    RestoreLog(drained, t0.attrs, SavedFlags(t0));
  }

  /**
   * A terminal whose first select reports input and whose first read
   * delivers a whole reply the scan recognises is reported as supporting
   * the protocol, with exactly that reply received.
   */
  lemma FirstReplyDetected(t0: Tty, reply: seq<byte>, scan: Scan)
    requires !t0.faults.getAttr && !t0.faults.setAttr
    requires |t0.waits| >= 1 && t0.waits[0].Ready?
    requires |t0.inputs| >= 1 && t0.inputs[0] == Data(reply)
    requires 0 < |reply| <= Limit && Sees(scan, reply)
    ensures Detect(t0, scan).supported && Detect(t0, scan).received == reply
  {
    DetectIsExchange(t0, scan);
    QueriedLog(t0, QueryWithNul);
    FirstReadDetected(Queried(t0, QueryWithNul), reply, 500, scan);
  }

  /** The loop, from nothing received, stops on a first read that delivers a reply the scan recognises. */
  lemma FirstReadDetected(t: Tty, reply: seq<byte>, budget: nat, scan: Scan)
    requires |t.waits| >= 1 && t.waits[0].Ready?
    requires |t.inputs| >= 1 && t.inputs[0] == Data(reply)
    requires 0 < |reply| <= Limit && Sees(scan, reply)
    ensures Loop(t, [], budget, scan).supported && Loop(t, [], budget, scan).received == reply
  {
    assert [] + reply == reply;
  }

  /** A Kitty-compatible terminal that answers at once is detected. */
  lemma OkReplyDetected()
    ensures Detect(Scripted([Ready], [Data(OkReply)]), AsWritten).supported
  {
    OkReplyRecognised();
    FirstReplyDetected(Scripted([Ready], [Data(OkReply)]), OkReply, AsWritten);
  }

  /** `ESC _ G i`: a reply cut off right after the marker. */
  const CutReply: seq<byte> := [0x1B, 0x5F, 0x47, 0x69]

  /**
   * As written, a reply that ends right after `_Gi` is not recognised
   * (the scan stops one position short); with the bound fixed it is.
   */
  lemma CutReplyMissed()
    ensures !Detect(Scripted([Ready], [Data(CutReply)]), AsWritten).supported
    ensures Detect(Scripted([Ready], [Data(CutReply)]), Fixed).supported
  {
    var t0 := Scripted([Ready], [Data(CutReply)]);
    assert MarkerAt(CutReply, 1);
    FirstReplyDetected(t0, CutReply, Fixed);
    DetectIsExchange(t0, AsWritten);
    assert !MarkerAt(CutReply, 0);
    assert [] + CutReply == CutReply;
    var q := Queried(t0, QueryWithNul);
    var t2 := Read(Select(q, 500).0, Limit).0;
    assert t2.waits == [];
    assert !Loop(t2, CutReply, 50, AsWritten).supported;
    assert Loop(q, [], 500, AsWritten) == Loop(t2, CutReply, 50, AsWritten);
  }

  /**
   * A read that fails with EAGAIN is retried with the same budget: the
   * reply that follows it is still detected.
   */
  lemma RetriedAfterEagain()
    ensures Detect(Scripted([Ready, Ready], [ReadFails(EAGAIN), Data(OkReply)]), AsWritten).supported
  {
    var t0 := Scripted([Ready, Ready], [ReadFails(EAGAIN), Data(OkReply)]);
    DetectIsExchange(t0, AsWritten);
    var q := Queried(t0, QueryWithNul);
    LoopRetries(q, [], 500, AsWritten);
    var t2 := Read(Select(q, 500).0, Limit).0;
    OkReplyRecognised();
    FirstReadDetected(t2, OkReply, 500, AsWritten);
  }

  /** A ready select followed by a read that fails with EAGAIN sends the loop round again, budget unchanged. */
  lemma LoopRetries(t: Tty, received: seq<byte>, budget: nat, scan: Scan)
    requires |received| < Limit
    requires |t.waits| >= 1 && t.waits[0].Ready?
    requires |t.inputs| >= 1 && t.inputs[0] == ReadFails(EAGAIN)
    ensures var t2 := Read(Select(t, budget).0, Limit - |received|).0;
      t2.waits == t.waits[1..] && t2.inputs == t.inputs[1..] &&
      Loop(t, received, budget, scan) == Loop(t2, received, budget, scan)
  {
  }

  /**
   * The loop with the retry test the code evidently means: only a read that
   * fails with EAGAIN is retried, and a read that returns 0 (end of file)
   * ends the loop whatever errno an earlier call left behind.
   */
  function LoopEofEnds(t: Tty, received: seq<byte>, budget: nat, scan: Scan): Probe
    requires |received| < Limit
    decreases |t.waits|
  {
    var (t1, w) := Select(t, budget);
    if !w.Ready? then Probe(false, received, t1)
    else
      var (t2, r) := Read(t1, Limit - |received|);
      if r.Failed? then
        if t2.errno == EAGAIN then LoopEofEnds(t2, received, budget, scan) else Probe(false, received, t2)
      else if |r.bytes| == 0 then Probe(false, received, t2)
      else
        var total := received + r.bytes;
        if Sees(scan, total) then Probe(true, total, t2)
        else if |total| >= Limit then Probe(false, total, t2)
        else LoopEofEnds(t2, total, 50, scan)
  }

  /**
   * As written: once errno holds EAGAIN, a terminal that has hung up (every
   * select reports input, every read returns 0) keeps the loop going round
   * with the same budget for as long as select answers, `k` times for any
   * `k`, without receiving anything.
   */
  lemma {:induction false} HungUpTerminalSpins(t: Tty, received: seq<byte>, budget: nat, scan: Scan, k: nat)
    requires |received| < Limit && t.errno == EAGAIN
    requires t.waits == seq(k, _ => Ready) && t.inputs == seq(k, _ => Data([]))
    ensures var p := Loop(t, received, budget, scan);
      !p.supported && p.received == received &&
      Budgets(p.tty.log) == Budgets(t.log) + seq(k + 1, _ => budget)
    decreases k
  {
    BudgetsAfter(t.log, Waited(budget));
    if k == 0 {
      assert seq(1, _ => budget) == [budget];
    } else {
      var (t1, w) := Select(t, budget);
      assert w == Ready && t1.waits == seq(k - 1, _ => Ready);
      var (t2, r) := Read(t1, Limit - |received|);
      assert t1.inputs[0] == Data([]);
      assert r == Got([]) && t2.inputs == seq(k - 1, _ => Data([])) && t2.errno == EAGAIN;
      assert Loop(t, received, budget, scan) == Loop(t2, received, budget, scan);
      HungUpTerminalSpins(t2, received, budget, scan, k - 1);
      assert [budget] + seq(k, _ => budget) == seq(k + 1, _ => budget);
    }
  }

  /** With the retry test fixed, a read that returns 0 ends the loop after that one select. */
  lemma HungUpTerminalEndsLoop(t: Tty, received: seq<byte>, budget: nat, scan: Scan)
    requires |received| < Limit
    requires |t.waits| >= 1 && t.waits[0].Ready? && |t.inputs| >= 1 && t.inputs[0] == Data([])
    ensures var p := LoopEofEnds(t, received, budget, scan);
      !p.supported && p.received == received && Budgets(p.tty.log) == Budgets(t.log) + [budget]
  {
    BudgetsAfter(t.log, Waited(budget));
  }

  /** The fix changes nothing for a terminal that never signals end of file. */
  lemma {:induction false} LoopEofEndsAgrees(t: Tty, received: seq<byte>, budget: nat, scan: Scan)
    requires |received| < Limit && NoEndOfFile(t.inputs)
    ensures LoopEofEnds(t, received, budget, scan) == Loop(t, received, budget, scan)
    decreases |t.waits|
  {
    var (t1, w) := Select(t, budget);
    if w.Ready? {
      var (t2, r) := Read(t1, Limit - |received|);
      ReadKeepsNoEndOfFile(t1, Limit - |received|);
      if r.Failed? {
        if t2.errno == EAGAIN {
          LoopEofEndsAgrees(t2, received, budget, scan);
        }
      } else {
        var total := received + r.bytes;
        if !Sees(scan, total) && |total| < Limit {
          LoopEofEndsAgrees(t2, total, 50, scan);
        }
      }
    }
  }
}
