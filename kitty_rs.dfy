/**
 * `insert_fd_into_set`, `read_with_timeout` and `is_kitty_protocol_supported`
 * of src/kitty.rs.
 *
 * The Rust routine differs from smaller_kitty.c in three ways that show: a
 * read that fails with EAGAIN ends the loop, like a timeout; the flags are
 * put back before the attributes; and each read goes into the slice
 * `buf[total_read..curr_len - total_read - 1]`, which loses two bytes for
 * every byte held: with 127 bytes held it is the single byte 127, and
 * from 128 bytes on its end lies before its start, so indexing panics. A
 * panic unwinds out of the routine: nothing is drained or restored.
 *
 * `Slice` chooses between the slice as written and the window the loop
 * evidently means, `buf[total_read..255]`.
 */
module KittyRs {
  import opened Common
  import opened Device
  import opened Marker
  import opened RawTerminal

  const BufferSize: nat := 256
  /** `stdin().as_raw_fd()`. */
  const StdinFd: int := 0

  /** `FdSet`: the descriptors a select watches. */
  class FdSet {
    var fds: set<int>

    constructor()
      ensures fds == {}
    {
      fds := {};
    }
  }

  /** `insert_fd_into_set`: a negative descriptor is refused; any other is added. */
  method InsertFdIntoSet(fdSet: FdSet, fd: int) returns (ok: bool)
    modifies fdSet
    ensures ok <==> fd >= 0
    ensures fdSet.fds == if fd >= 0 then old(fdSet.fds) + {fd} else old(fdSet.fds)
  {
    if fd < 0 {
      return false;
    }
    fdSet.fds := fdSet.fds + {fd};
    return true;
  }

  /**
   * `read_with_timeout` of at most `len` bytes, with the bytes read in
   * place of their count: `Err(EBADF)` without a select for a negative
   * descriptor; the select's error; `None` when the select times out or the
   * read would block; the read's error; or the bytes read.
   */
  function ReadOutcome(t: Tty, fd: int, len: nat, ms: nat): (out: (Tty, Result<Option<seq<byte>>, Errno>))
    ensures fd < 0 ==> out == (t, Err(EBADF))
    ensures out.0.attrs == t.attrs && out.0.flags == t.flags && out.0.faults == t.faults
    ensures fd >= 0 ==> out.0.log == t.log + [Waited(ms)]
    ensures out.1.Ok? && out.1.value.Some? ==>
      |out.1.value.value| <= len && Pending(t.inputs) == out.1.value.value + Pending(out.0.inputs) &&
      |out.0.waits| < |t.waits|
    ensures !(out.1.Ok? && out.1.value.Some?) ==> Pending(out.0.inputs) == Pending(t.inputs)
    ensures out.1.Err? && fd >= 0 ==> out.0.errno == out.1.error
  {
    if fd < 0 then (t, Err(EBADF))
    else
      var (t1, w) := Select(t, ms);
      match w
      case WaitFailed(e) => (t1, Err(e))
      case Expired => (t1, Ok(None))
      case Ready =>
        var (t2, r) := Read(t1, len);
        match r
        case Got(bytes) => (t2, Ok(Some(bytes)))
        case Failed(e) => if e == EAGAIN then (t2, Ok(None)) else (t2, Err(e))
  }

  /** `read_with_timeout` into `buf[start..start + len]`, returning the count read. */
  method ReadWithTimeout(t0: Tty, fd: int, buf: array<byte>, start: nat, len: nat, timeoutMs: nat)
    returns (t: Tty, r: Result<Option<nat>, Errno>)
    requires start + len <= buf.Length
    modifies buf
    ensures r.Ok? && r.value.Some? ==>
      r.value.value <= len && ReadOutcome(t0, fd, len, timeoutMs) == (t, Ok(Some(buf[start..start + r.value.value])))
    ensures !(r.Ok? && r.value.Some?) ==>
      ReadOutcome(t0, fd, len, timeoutMs) == (t, if r.Ok? then Ok(None) else Err(r.error))
    ensures var n := if r.Ok? && r.value.Some? then r.value.value else 0;
      buf[..start] == old(buf[..start]) && start + n <= buf.Length && buf[start + n..] == old(buf[start + n..])
  {
    t := t0;
    var readfds := new FdSet();
    var inserted := InsertFdIntoSet(readfds, fd);
    if !inserted {
      return t, Err(EBADF);
    }
    var (t1, w) := Select(t, timeoutMs);
    t := t1;
    if w.WaitFailed? {
      return t, Err(w.code);
    }
    if w.Expired? {
      return t, Ok(None);
    }
    var n;
    t, n := ReadInto(t, buf, start, len);
    if n >= 0 {
      return t, Ok(Some(n));
    }
    if t.errno == EAGAIN {
      return t, Ok(None);
    }
    return t, Err(t.errno);
  }

  /** Which read window the loop uses: the slice as written, or `buf[total_read..255]`. */
  datatype Slice = AsWrittenSlice | IntendedSlice

  /** `curr_len - total_read - 1`, the end of the slice as written. */
  function WindowEnd(total: nat): int
  {
    BufferSize - total - 1
  }

  /** Indexing `buf[total..end]` panics when `end < total`. */
  predicate SlicePanics(slice: Slice, total: nat)
  {
    slice.AsWrittenSlice? && WindowEnd(total) < total
  }

  /** The length of the read window, when it exists. */
  function WindowLength(slice: Slice, total: nat): (n: nat)
    requires total < BufferSize && !SlicePanics(slice, total)
    ensures slice.AsWrittenSlice? ==> n == BufferSize - 1 - 2 * total
    ensures slice.IntendedSlice? ==> total + n == BufferSize - 1
  {
    if slice.AsWrittenSlice? then WindowEnd(total) - total else BufferSize - 1 - total
  }

  /** How the loop or the routine ends: normally with a probe, or in a panic. */
  datatype Run = Run(probe: Probe, panicked: bool)

  /** The `'read_loop` from a state with `received` accumulated and a budget of `budget` ms. */
  function Loop(t: Tty, received: seq<byte>, budget: nat, slice: Slice): Run
    requires |received| < BufferSize - 1
    decreases |t.waits|
  {
    if SlicePanics(slice, |received|) then Run(Probe(false, received, t), true)
    else
      var (t1, r) := ReadOutcome(t, StdinFd, WindowLength(slice, |received|), budget);
      if r.Ok? && r.value.Some? && |r.value.value| > 0 then
        var total := received + r.value.value;
        if ScanFinds(total) then Run(Probe(true, total, t1), false)
        else if |total| >= BufferSize - 1 then Run(Probe(false, total, t1), false)
        else Loop(t1, total, 50, slice)
      else Run(Probe(false, received, t1), false)
  }

  /** A turn of the loop whose read brings `chunk`: the scan, the size check or the next turn. */
  lemma LoopTurn(t: Tty, received: seq<byte>, budget: nat, slice: Slice, t1: Tty, chunk: seq<byte>)
    requires |received| < BufferSize - 1 && !SlicePanics(slice, |received|) && |chunk| > 0
    requires ReadOutcome(t, StdinFd, WindowLength(slice, |received|), budget) == (t1, Ok(Some(chunk)))
    ensures var total := received + chunk;
      Loop(t, received, budget, slice) ==
        if ScanFinds(total) then Run(Probe(true, total, t1), false)
        else if |total| >= BufferSize - 1 then Run(Probe(false, total, t1), false)
        else Loop(t1, total, 50, slice)
  {
  }

  /** A turn of the loop whose read brings nothing, times out or fails ends it with what was received. */
  lemma LoopHalts(t: Tty, received: seq<byte>, budget: nat, slice: Slice, t1: Tty)
    requires |received| < BufferSize - 1 && !SlicePanics(slice, |received|)
    requires var (t2, r) := ReadOutcome(t, StdinFd, WindowLength(slice, |received|), budget);
      t2 == t1 && !(r.Ok? && r.value.Some? && |r.value.value| > 0)
    ensures Loop(t, received, budget, slice) == Run(Probe(false, received, t1), false)
  {
  }

  /** The whole routine on the device state `t0`. */
  function IsKitty(t0: Tty, slice: Slice): Run
  {
    var (t1, raw) := RawMode(t0);
    if raw.Err? then Run(Probe(false, [], t1), false)
    else
      var (t2, nonblocking) := Nonblocking(t1);
      if nonblocking.Err? then Run(Probe(false, [], RestoreTermios(t2, raw.value).0), false)
      else Exchange(Write(t2, Query), raw.value, nonblocking.value, slice)
  }

  /**
   * The routine once the query is out: the loop, and unless it panicked
   * the drain, the flags put back, then the attributes.
   */
  function Exchange(t: Tty, saved: Termios, flags: bv32, slice: Slice): Run
  {
    var run := Loop(t, [], 500, slice);
    if run.panicked then run
    else
      var t1 := RestoreFlags(Drain(run.probe.tty, BufferSize), flags).0;
      Run(Probe(run.probe.supported, run.probe.received, RestoreTermios(t1, saved).0), false)
  }

  /** `is_kitty_protocol_supported()` on the device state `t0`; `panicked` says the slice panicked. */
  method IsKittyProtocolSupported(t0: Tty) returns (supportsKitty: bool, t: Tty, panicked: bool)
    ensures supportsKitty == IsKitty(t0, AsWrittenSlice).probe.supported
    ensures t == IsKitty(t0, AsWrittenSlice).probe.tty
    ensures panicked == IsKitty(t0, AsWrittenSlice).panicked
  {
    panicked := false;
    var raw;
    t, raw := SetTermiosRawMode(t0);
    if raw.Err? {
      return false, t, false;
    }
    var originalTermios := raw.value;
    var nonblocking;
    t, nonblocking := SetNonblocking(t);
    if nonblocking.Err? {
      t := RestoreTermios(t, originalTermios).0;
      return false, t, false;
    }
    t := Write(t, Query);
    supportsKitty, t, panicked := AwaitAndRestore(t, originalTermios, nonblocking.value);
  }

  /** The read loop, then, unless it panicked, the drain and the restoring of the flags and the attributes. */
  method AwaitAndRestore(t0: Tty, originalTermios: Termios, originalFlags: bv32)
    returns (supportsKitty: bool, t: Tty, panicked: bool)
    ensures supportsKitty == Exchange(t0, originalTermios, originalFlags, AsWrittenSlice).probe.supported
    ensures t == Exchange(t0, originalTermios, originalFlags, AsWrittenSlice).probe.tty
    ensures panicked == Exchange(t0, originalTermios, originalFlags, AsWrittenSlice).panicked
  {
    var buf := new byte[BufferSize](_ => 0);
    supportsKitty, t, panicked := AwaitReply(t0, buf);
    if panicked {
      return;
    }
    var drainBuf := new byte[BufferSize](_ => 0);
    t := DrainInput(t, drainBuf);
    t := RestoreFlags(t, originalFlags).0;
    t := RestoreTermios(t, originalTermios).0;
  }

  /**
   * One `read_with_timeout` into the slice as written, `buf[totalRead..255 - totalRead]`:
   * the count read, 0 when the read brought nothing, timed out or failed.
   */
  method ReadTurn(t0: Tty, buf: array<byte>, totalRead: nat, timeoutMs: nat) returns (t: Tty, bytesRead: nat)
    requires buf.Length == BufferSize && totalRead < BufferSize - 1 && !SlicePanics(AsWrittenSlice, totalRead)
    modifies buf
    ensures totalRead + bytesRead <= buf.Length && buf[..totalRead] == old(buf[..totalRead])
    ensures bytesRead > 0 ==> |t.waits| < |t0.waits|
    ensures bytesRead == 0 ==> Loop(t0, old(buf[..totalRead]), timeoutMs, AsWrittenSlice) == Run(Probe(false, old(buf[..totalRead]), t), false)
    ensures bytesRead > 0 && ScanFinds(buf[..totalRead + bytesRead]) ==>
      Loop(t0, old(buf[..totalRead]), timeoutMs, AsWrittenSlice) == Run(Probe(true, buf[..totalRead + bytesRead], t), false)
    ensures bytesRead > 0 && !ScanFinds(buf[..totalRead + bytesRead]) && totalRead + bytesRead >= BufferSize - 1 ==>
      Loop(t0, old(buf[..totalRead]), timeoutMs, AsWrittenSlice) == Run(Probe(false, buf[..totalRead + bytesRead], t), false)
    ensures bytesRead > 0 && !ScanFinds(buf[..totalRead + bytesRead]) && totalRead + bytesRead < BufferSize - 1 ==>
      Loop(t0, old(buf[..totalRead]), timeoutMs, AsWrittenSlice) == Loop(t, buf[..totalRead + bytesRead], 50, AsWrittenSlice)
  {
    ghost var received := buf[..totalRead];
    var currLen := buf.Length;
    var window := currLen - totalRead - 1 - totalRead;
    assert window == WindowLength(AsWrittenSlice, totalRead);
    var r;
    t, r := ReadWithTimeout(t0, StdinFd, buf, totalRead, window, timeoutMs);
    if r.Err? || r.value.None? || r.value.value == 0 {
      LoopHalts(t0, received, timeoutMs, AsWrittenSlice, t);
      return t, 0;
    }
    bytesRead := r.value.value;
    assert buf[..totalRead + bytesRead] == buf[..totalRead] + buf[totalRead..totalRead + bytesRead];
    LoopTurn(t0, received, timeoutMs, AsWrittenSlice, t, buf[totalRead..totalRead + bytesRead]);
  }

  /**
   * One turn of the `'read_loop` once the slice exists: the read, the scan
   * for `_Gi`, the check for a full buffer. `stop` says the loop ends here.
   */
  method Turn(t0: Tty, buf: array<byte>, totalRead: nat, timeoutMs: nat)
    returns (t: Tty, newTotal: nat, found: bool, stop: bool)
    requires buf.Length == BufferSize && totalRead < BufferSize - 1 && !SlicePanics(AsWrittenSlice, totalRead)
    modifies buf
    ensures stop ==>
      newTotal <= buf.Length &&
      Loop(t0, old(buf[..totalRead]), timeoutMs, AsWrittenSlice) == Run(Probe(found, buf[..newTotal], t), false)
    ensures !stop ==>
      !found && totalRead < newTotal < BufferSize - 1 && |t.waits| < |t0.waits| &&
      Loop(t0, old(buf[..totalRead]), timeoutMs, AsWrittenSlice) == Loop(t, buf[..newTotal], 50, AsWrittenSlice)
  {
    var bytesRead;
    t, bytesRead := ReadTurn(t0, buf, totalRead, timeoutMs);
    if bytesRead == 0 {
      return t, totalRead, false, true;
    }
    newTotal := totalRead + bytesRead;
    found := ScanForMarker(buf, newTotal);
    stop := found || newTotal >= buf.Length - 1;
  }

  /** The `'read_loop`, reading into `buf`. */
  method AwaitReply(t0: Tty, buf: array<byte>) returns (supportsKitty: bool, t: Tty, panicked: bool)
    requires buf.Length == BufferSize
    modifies buf
    ensures supportsKitty == Loop(t0, [], 500, AsWrittenSlice).probe.supported
    ensures t == Loop(t0, [], 500, AsWrittenSlice).probe.tty
    ensures panicked == Loop(t0, [], 500, AsWrittenSlice).panicked
  {
    t := t0;
    supportsKitty, panicked := false, false;
    var totalRead := 0;
    var timeoutMs := 500;
    ghost var outcome := Loop(t0, [], 500, AsWrittenSlice);
    while true
      invariant 0 <= totalRead < BufferSize - 1
      invariant !supportsKitty && !panicked
      invariant Loop(t, buf[..totalRead], timeoutMs, AsWrittenSlice) == outcome
      decreases |t.waits|
    {
      var currLen := buf.Length;
      if currLen - totalRead - 1 < totalRead {
        panicked := true;
        break;
      }
      var stop;
      t, totalRead, supportsKitty, stop := Turn(t, buf, totalRead, timeoutMs);
      if stop {
        break;
      }
      timeoutMs := 50;
    }
  }

  /** The loop changes nothing but the input, the waits and the log, and writes nothing. */
  lemma {:induction false} LoopConserves(t: Tty, received: seq<byte>, budget: nat, slice: Slice)
    requires |received| < BufferSize - 1
    ensures var run := Loop(t, received, budget, slice);
      run.probe.tty.attrs == t.attrs && run.probe.tty.flags == t.flags && run.probe.tty.faults == t.faults &&
      Written(run.probe.tty.log) == Written(t.log)
    decreases |t.waits|
  {
    if !SlicePanics(slice, |received|) {
      var (t1, r) := ReadOutcome(t, StdinFd, WindowLength(slice, |received|), budget);
      WrittenAfter(t.log, Waited(budget));
      assert Written(t1.log) == Written(t.log);
      if r.Ok? && r.value.Some? && |r.value.value| > 0 {
        var total := received + r.value.value;
        LoopTurn(t, received, budget, slice, t1, r.value.value);
        if !ScanFinds(total) && |total| < BufferSize - 1 {
          LoopConserves(t1, total, 50, slice);
        } else {
          assert Loop(t, received, budget, slice).probe.tty == t1;
        }
      } else {
        LoopHalts(t, received, budget, slice, t1);
      }
    }
  }

  /**
   * The loop keeps at most 255 bytes, all read from the terminal in order:
   * what it holds and what is still pending are, together, what was pending.
   */
  lemma {:induction false} LoopReceives(t: Tty, received: seq<byte>, budget: nat, slice: Slice)
    requires |received| < BufferSize - 1
    ensures var run := Loop(t, received, budget, slice);
      |received| <= |run.probe.received| <= BufferSize - 1 &&
      received + Pending(t.inputs) == run.probe.received + Pending(run.probe.tty.inputs)
    decreases |t.waits|
  {
    if !SlicePanics(slice, |received|) {
      var (t1, r) := ReadOutcome(t, StdinFd, WindowLength(slice, |received|), budget);
      if r.Ok? && r.value.Some? && |r.value.value| > 0 {
        var chunk := r.value.value;
        var total := received + chunk;
        LoopTurn(t, received, budget, slice, t1, chunk);
        var run := Loop(t, received, budget, slice);
        if !ScanFinds(total) && |total| < BufferSize - 1 {
          LoopReceives(t1, total, 50, slice);
          Regrouped(received, chunk, Pending(t.inputs), Pending(t1.inputs), run.probe.received, Pending(run.probe.tty.inputs));
        } else {
          assert run.probe == Probe(ScanFinds(total), total, t1);
          Regrouped(received, chunk, Pending(t.inputs), Pending(t1.inputs), total, Pending(t1.inputs));
        }
      } else {
        LoopHalts(t, received, budget, slice, t1);
        assert Pending(t1.inputs) == Pending(t.inputs) by {
          if r.Ok? && r.value.Some? {
            assert r.value.value == [];
            assert [] + Pending(t1.inputs) == Pending(t1.inputs);
          }
        }
      }
    }
  }

  /** Bytes moved from what is pending to what is held leave the two together unchanged. */
  lemma Regrouped(held: seq<byte>, chunk: seq<byte>, pending: seq<byte>, rest: seq<byte>, held2: seq<byte>, rest2: seq<byte>)
    requires pending == chunk + rest && (held + chunk) + rest == held2 + rest2
    ensures held + pending == held2 + rest2
  {
  }

  /** Support is reported exactly when the scan finds `_Gi` in the bytes gathered. */
  lemma {:induction false} LoopReportsScan(t: Tty, received: seq<byte>, budget: nat, slice: Slice)
    requires |received| < BufferSize - 1 && !ScanFinds(received)
    ensures var run := Loop(t, received, budget, slice);
      run.probe.supported <==> ScanFinds(run.probe.received)
    decreases |t.waits|
  {
    if !SlicePanics(slice, |received|) {
      var (t1, r) := ReadOutcome(t, StdinFd, WindowLength(slice, |received|), budget);
      if r.Ok? && r.value.Some? && |r.value.value| > 0 {
        var total := received + r.value.value;
        if !ScanFinds(total) && |total| < BufferSize - 1 {
          LoopReportsScan(t1, total, 50, slice);
        }
      }
    }
  }

  /**
   * The loop panics only on the slice as written, once more than 127
   * bytes are gathered without a marker; the intended window never panics.
   */
  lemma {:induction false} LoopPanics(t: Tty, received: seq<byte>, budget: nat, slice: Slice)
    requires |received| < BufferSize - 1
    ensures var run := Loop(t, received, budget, slice);
      run.panicked ==>
        slice == AsWrittenSlice && BufferSize - 1 < 2 * |run.probe.received| && !run.probe.supported
    decreases |t.waits|
  {
    if !SlicePanics(slice, |received|) {
      var (t1, r) := ReadOutcome(t, StdinFd, WindowLength(slice, |received|), budget);
      if r.Ok? && r.value.Some? && |r.value.value| > 0 {
        var total := received + r.value.value;
        if !ScanFinds(total) && |total| < BufferSize - 1 {
          LoopPanics(t1, total, 50, slice);
        }
      }
    }
  }

  /**
   * With the slice as written the loop panics exactly when it ends holding
   * 128 to 254 bytes without a marker: every such run panics, and no other.
   */
  lemma {:induction false} LoopPanicsExactly(t: Tty, received: seq<byte>, budget: nat)
    requires |received| < BufferSize - 1
    ensures var run := Loop(t, received, budget, AsWrittenSlice);
      run.panicked <==> !run.probe.supported && 128 <= |run.probe.received| < BufferSize - 1
    decreases |t.waits|
  {
    if !SlicePanics(AsWrittenSlice, |received|) {
      var (t1, r) := ReadOutcome(t, StdinFd, WindowLength(AsWrittenSlice, |received|), budget);
      if r.Ok? && r.value.Some? && |r.value.value| > 0 {
        var total := received + r.value.value;
        LoopTurn(t, received, budget, AsWrittenSlice, t1, r.value.value);
        if !ScanFinds(total) && |total| < BufferSize - 1 {
          LoopPanicsExactly(t1, total, 50);
        }
      } else {
        LoopHalts(t, received, budget, AsWrittenSlice, t1);
      }
    }
  }

  /**
   * The loop waits once per turn: `budget` first, 50 ms after that; it does
   * not wait at all when it panics straight away.
   */
  lemma {:induction false} LoopBudgets(t: Tty, received: seq<byte>, budget: nat, slice: Slice)
    requires |received| < BufferSize - 1
    ensures var before := Budgets(t.log);
      var after := Budgets(Loop(t, received, budget, slice).probe.tty.log);
      |before| <= |after| && after[..|before|] == before &&
      (|after| == |before| <==> SlicePanics(slice, |received|)) &&
      (|after| > |before| ==> after[|before|] == budget) &&
      forall i | |before| < i < |after| :: after[i] == 50
    decreases |t.waits|
  {
    var before := Budgets(t.log);
    if SlicePanics(slice, |received|) {
      assert Loop(t, received, budget, slice).probe.tty == t;
    } else {
      var (t1, r) := ReadOutcome(t, StdinFd, WindowLength(slice, |received|), budget);
      BudgetsAfter(t.log, Waited(budget));
      var mid := Budgets(t1.log);
      assert mid == before + [budget];
      if r.Ok? && r.value.Some? && |r.value.value| > 0 {
        var total := received + r.value.value;
        LoopTurn(t, received, budget, slice, t1, r.value.value);
        if !ScanFinds(total) && |total| < BufferSize - 1 {
          LoopBudgets(t1, total, 50, slice);
          FollowingBudgets(before, budget, Budgets(Loop(t1, total, 50, slice).probe.tty.log));
        } else {
          assert Loop(t, received, budget, slice).probe.tty == t1;
          assert mid[..|before|] == before;
        }
      } else {
        LoopHalts(t, received, budget, slice, t1);
        assert mid[..|before|] == before;
      }
    }
  }

  /** The terminal as the loop finds it: raw, non-blocking, with the query written. */
  function Prepared(t0: Tty): (q: Tty)
    requires t0.faults == Faults(false, false, false, false)
    ensures q.inputs == t0.inputs && q.waits == t0.waits && q.faults == t0.faults
    ensures q.attrs == MakeRaw(t0.attrs) && q.flags == WithNonblock(t0.flags)
    ensures q.log == t0.log + [AttrsSet(MakeRaw(t0.attrs)), FlagsSet(WithNonblock(t0.flags)), Wrote(Query)]
  {
    Write(Nonblocking(RawMode(t0).0).0, Query)
  }

  /** Getting ready writes the query and waits for nothing. */
  lemma PreparedLog(t0: Tty)
    requires t0.faults == Faults(false, false, false, false)
    ensures Written(Prepared(t0).log) == Written(t0.log) + Query
    ensures Budgets(Prepared(t0).log) == Budgets(t0.log)
  {
    var changes := [AttrsSet(MakeRaw(t0.attrs)), FlagsSet(WithNonblock(t0.flags)), Wrote(Query)];
    WrittenAppend(t0.log, changes);
    BudgetsAppend(t0.log, changes);
    assert Written(changes) == Query && Budgets(changes) == [] by {
      assert changes == [changes[0]] + [changes[1]] + [changes[2]];
      WrittenAfter([changes[0]] + [changes[1]], changes[2]);
      WrittenAfter([changes[0]], changes[1]);
      WrittenAfter([], changes[0]);
      BudgetsAfter([changes[0]] + [changes[1]], changes[2]);
      BudgetsAfter([changes[0]], changes[1]);
      BudgetsAfter([], changes[0]);
    }
  }

  /** A terminal with no faults gets raw mode, non-blocking mode and the query, then the exchange. */
  lemma IsKittyIsExchange(t0: Tty, slice: Slice)
    requires t0.faults == Faults(false, false, false, false)
    ensures IsKitty(t0, slice) == Exchange(Prepared(t0), t0.attrs, t0.flags, slice)
  {
  }

  /** When raw mode cannot be set the routine gives up at once: no query, nothing else changed. */
  lemma RawModeFailureProbesNothing(t0: Tty, slice: Slice)
    requires t0.faults.getAttr || t0.faults.setAttr
    ensures IsKitty(t0, slice) == Run(Probe(false, [], t0.(errno := ENOTTY)), false)
  {
  }

  /**
   * When non-blocking mode cannot be set no query is sent; raw mode is
   * undone and the flags are left alone.
   */
  lemma NonblockingFailureRestoresAttributes(t0: Tty, slice: Slice)
    requires !t0.faults.getAttr && !t0.faults.setAttr && (t0.faults.getFlags || t0.faults.setFlags)
    ensures IsKitty(t0, slice) ==
      Run(Probe(false, [], t0.(errno := EBADF, log := t0.log + [AttrsSet(MakeRaw(t0.attrs)), AttrsSet(t0.attrs)])), false)
  {
    assert t0.log + [AttrsSet(MakeRaw(t0.attrs))] + [AttrsSet(t0.attrs)] ==
      t0.log + [AttrsSet(MakeRaw(t0.attrs)), AttrsSet(t0.attrs)];
  }

  /**
   * On a terminal with no faults the query is written once; a routine that
   * does not panic ends by putting back the flags, then the attributes;
   * one that panics leaves the terminal raw and non-blocking.
   */
  lemma IsKittyRestores(t0: Tty, slice: Slice)
    requires t0.faults == Faults(false, false, false, false)
    ensures var run := IsKitty(t0, slice);
      var log := run.probe.tty.log;
      Written(log) == Written(t0.log) + Query &&
      (!run.panicked ==>
        run.probe.tty.attrs == t0.attrs && run.probe.tty.flags == t0.flags &&
        |log| >= 2 && log[|log| - 2..] == [FlagsSet(t0.flags), AttrsSet(t0.attrs)]) &&
      (run.panicked ==>
        run.probe.tty.attrs == MakeRaw(t0.attrs) && run.probe.tty.flags == WithNonblock(t0.flags) && !run.probe.supported)
  {
    IsKittyIsExchange(t0, slice);
    var q := Prepared(t0);
    PreparedLog(t0);
    var run := Loop(q, [], 500, slice);
    LoopConserves(q, [], 500, slice);
    LoopPanics(q, [], 500, slice);
    if !run.panicked {
      var t1 := Drain(run.probe.tty, BufferSize);
      WrittenAfter(t1.log, FlagsSet(t0.flags));
      WrittenAfter(t1.log + [FlagsSet(t0.flags)], AttrsSet(t0.attrs));
      assert t1.log + [FlagsSet(t0.flags)] + [AttrsSet(t0.attrs)] == t1.log + [FlagsSet(t0.flags), AttrsSet(t0.attrs)];
    }
  }

  /**
   * On a terminal with no faults support is reported exactly when the scan
   * finds `_Gi` in the bytes gathered, which are the first bytes the
   * terminal sent, at most 255 of them.
   */
  lemma IsKittyReportsScan(t0: Tty, slice: Slice)
    requires t0.faults == Faults(false, false, false, false)
    ensures var run := IsKitty(t0, slice);
      (run.probe.supported <==> ScanFinds(run.probe.received)) &&
      run.probe.received <= Pending(t0.inputs) && |run.probe.received| <= BufferSize - 1
  {
    IsKittyIsExchange(t0, slice);
    var q := Prepared(t0);
    LoopReceives(q, [], 500, slice);
    LoopReportsScan(q, [], 500, slice);
    var run := Loop(q, [], 500, slice);
    assert Pending(t0.inputs) == run.probe.received + Pending(run.probe.tty.inputs);
  }

  /** On a terminal with no faults the first wait is 500 ms and every later one 50 ms. */
  lemma IsKittyBudgets(t0: Tty, slice: Slice)
    requires t0.faults == Faults(false, false, false, false)
    ensures var before := Budgets(t0.log);
      var after := Budgets(IsKitty(t0, slice).probe.tty.log);
      |after| > |before| && after[..|before|] == before && after[|before|] == 500 &&
      forall i | |before| < i < |after| :: after[i] == 50
  {
    IsKittyIsExchange(t0, slice);
    var q := Prepared(t0);
    PreparedLog(t0);
    var run := Loop(q, [], 500, slice);
    LoopBudgets(q, [], 500, slice);
    LoopConserves(q, [], 500, slice);
    if !run.panicked {
      var t1 := Drain(run.probe.tty, BufferSize);
      BudgetsAfter(t1.log, FlagsSet(t0.flags));
      BudgetsAfter(t1.log + [FlagsSet(t0.flags)], AttrsSet(t0.attrs));
      var t2 := RestoreFlags(t1, t0.flags).0;
      assert t2.log == t1.log + [FlagsSet(t0.flags)];
      assert RestoreTermios(t2, t0.attrs).0.log == t2.log + [AttrsSet(t0.attrs)];
      assert Budgets(IsKitty(t0, slice).probe.tty.log) == Budgets(run.probe.tty.log);
    }
  }

  /** With the intended window the routine never panics. */
  lemma IntendedNeverPanics(t0: Tty)
    ensures !IsKitty(t0, IntendedSlice).panicked
  {
    var (t1, raw) := RawMode(t0);
    if raw.Ok? {
      var (t2, nonblocking) := Nonblocking(t1);
      if nonblocking.Ok? {
        LoopPanics(Write(t2, Query), [], 500, IntendedSlice);
      }
    }
  }

  /**
   * On a terminal with no faults the routine as written panics exactly when
   * its loop gives up holding 128 to 254 bytes without a marker.
   */
  lemma IsKittyPanicsExactly(t0: Tty)
    requires t0.faults == Faults(false, false, false, false)
    ensures var run := IsKitty(t0, AsWrittenSlice);
      run.panicked <==> !run.probe.supported && 128 <= |run.probe.received| < BufferSize - 1
  {
    IsKittyIsExchange(t0, AsWrittenSlice);
    LoopPanicsExactly(Prepared(t0), [], 500);
  }

  /** A reply of 128 bytes without `_Gi`, sent in one piece. */
  const LongReply: seq<byte> := Zeros(128)

  /**
   * The slice as written panics after a first read of 128 bytes without a
   * marker, leaving the terminal raw; the intended window reads on and
   * restores it.
   */
  lemma LongReplyPanics()
    ensures IsKitty(Scripted([Ready], [Data(LongReply)]), AsWrittenSlice).panicked
    ensures var t0 := Scripted([Ready], [Data(LongReply)]);
      var run := IsKitty(t0, IntendedSlice);
      !run.panicked && !run.probe.supported && run.probe.tty.attrs == t0.attrs && run.probe.tty.flags == t0.flags
  {
    var t0 := Scripted([Ready], [Data(LongReply)]);
    IsKittyIsExchange(t0, AsWrittenSlice);
    IsKittyIsExchange(t0, IntendedSlice);
    IsKittyRestores(t0, IntendedSlice);
    IntendedNeverPanics(t0);
    assert !ScanFinds(LongReply) by {
      forall i | 0 <= i < |LongReply| - 3
        ensures !MarkerAt(LongReply, i)
      {
        assert LongReply[i] == 0;
      }
    }
    var q := Prepared(t0);
    var t1 := Read(Select(q, 500).0, BufferSize - 1).0;
    assert [] + LongReply == LongReply;
    assert Loop(q, [], 500, AsWrittenSlice) == Loop(t1, LongReply, 50, AsWrittenSlice);
    assert Loop(t1, LongReply, 50, AsWrittenSlice).panicked;
    assert Loop(q, [], 500, IntendedSlice) == Loop(t1, LongReply, 50, IntendedSlice);
    assert !Loop(t1, LongReply, 50, IntendedSlice).probe.supported;
  }

  /** The kitty reply, sent at once, is detected. */
  lemma OkReplyDetected(slice: Slice)
    ensures IsKitty(Scripted([Ready], [Data(OkReply)]), slice).probe.supported
  {
    var t0 := Scripted([Ready], [Data(OkReply)]);
    IsKittyIsExchange(t0, slice);
    OkReplyRecognised();
    assert [] + OkReply == OkReply;
  }

  /**
   * A read that fails with EAGAIN counts as a timeout: the loop ends and
   * the reply that follows it is not seen.
   */
  lemma EagainEndsTheLoop(slice: Slice)
    ensures !IsKitty(Scripted([Ready, Ready], [ReadFails(EAGAIN), Data(OkReply)]), slice).probe.supported
  {
    var t0 := Scripted([Ready, Ready], [ReadFails(EAGAIN), Data(OkReply)]);
    IsKittyIsExchange(t0, slice);
  }
}
