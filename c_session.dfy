/**
 * The steps the two C detection routines share: the flags saved from
 * F_GETFL (whose result neither program checks), entering raw mode and
 * writing the query, and putting the attributes and then the flags back.
 */
module CSession {
  import opened Common
  import opened Device

  /** The flags the routine saves: what F_GETFL returned, which is -1 (all ones) when it failed. */
  function SavedFlags(t0: Tty): (f: bv32)
    ensures !t0.faults.getFlags ==> f == t0.flags
    ensures t0.faults.getFlags ==> f == 0xFFFF_FFFF
  {
    if t0.faults.getFlags then 0xFFFF_FFFF else t0.flags
  }

  /** The device state once raw mode is in place and `query` is written. */
  function Queried(t0: Tty, query: seq<byte>): (r: Tty)
    requires !t0.faults.getAttr && !t0.faults.setAttr
    ensures r.attrs == MakeRaw(t0.attrs) && r.faults == t0.faults && r.waits == t0.waits && r.inputs == t0.inputs
    ensures r.flags == (if t0.faults.setFlags then t0.flags else WithNonblock(SavedFlags(t0)))
  {
    var t2 := TcSetAttr(t0, MakeRaw(t0.attrs)).0;
    Write(SetFl(GetFl(t2).0, WithNonblock(SavedFlags(t0))).0, query)
  }

  /** The attributes `saved` go back first, then the flags `flags`; neither result is checked. */
  function Restore(t: Tty, saved: Termios, flags: bv32): Tty
  {
    SetFl(TcSetAttr(t, saved).0, flags).0
  }

  /**
   * Restoring adds the two changes (the second only when the flags can be
   * set), writes nothing and waits for nothing.
   */
  lemma RestoreLog(t: Tty, saved: Termios, flags: bv32)
    requires !t.faults.setAttr
    ensures var r := Restore(t, saved, flags);
      r.attrs == saved &&
      r.log == t.log + [AttrsSet(saved)] + (if t.faults.setFlags then [] else [FlagsSet(flags)]) &&
      r.flags == (if t.faults.setFlags then t.flags else flags) &&
      Written(r.log) == Written(t.log) && Budgets(r.log) == Budgets(t.log)
  {
    var t1 := TcSetAttr(t, saved).0;
    WrittenAfter(t.log, AttrsSet(saved));
    BudgetsAfter(t.log, AttrsSet(saved));
    if !t.faults.setFlags {
      WrittenAfter(t1.log, FlagsSet(flags));
      BudgetsAfter(t1.log, FlagsSet(flags));
    }
  }

  /** What restoring leaves at the end of the log, and what it keeps of the log before it. */
  lemma RestoreTail(t: Tty, saved: Termios, flags: bv32)
    requires !t.faults.setAttr
    ensures var r := Restore(t, saved, flags);
      |r.log| > |t.log| && r.log[..|t.log|] == t.log &&
      Written(r.log) == Written(t.log) && r.attrs == saved &&
      (!t.faults.setFlags ==>
        r.flags == flags && |r.log| >= 2 && r.log[|r.log| - 2..] == [AttrsSet(saved), FlagsSet(flags)]) &&
      (t.faults.setFlags ==> r.flags == t.flags && r.log[|r.log| - 1] == AttrsSet(saved))
  {
    RestoreLog(t, saved, flags);
    var r := Restore(t, saved, flags);
    if !t.faults.setFlags {
      assert r.log == t.log + [AttrsSet(saved), FlagsSet(flags)];
    }
  }

  /** The changes made while entering raw mode: the raw copy, then the non-blocking flags when they can be set. */
  function EntryChanges(t0: Tty): seq<Event>
  {
    [AttrsSet(MakeRaw(t0.attrs))] + if t0.faults.setFlags then [] else [FlagsSet(WithNonblock(SavedFlags(t0)))]
  }

  /** Entering raw mode and sending the query appends the entry changes and the one write. */
  lemma QueriedAppends(t0: Tty, query: seq<byte>)
    requires !t0.faults.getAttr && !t0.faults.setAttr
    ensures Queried(t0, query).log == t0.log + EntryChanges(t0) + [Wrote(query)]
  {
    var raw := TcSetAttr(t0, MakeRaw(t0.attrs)).0;
    assert raw.log == t0.log + [AttrsSet(MakeRaw(t0.attrs))];
    var read := GetFl(raw).0;
    assert read.log == raw.log && read.faults == t0.faults;
    var nonblocking := SetFl(read, WithNonblock(SavedFlags(t0))).0;
    var added := if t0.faults.setFlags then [] else [FlagsSet(WithNonblock(SavedFlags(t0)))];
    assert nonblocking.log == raw.log + added;
    assert raw.log + added == t0.log + EntryChanges(t0);
    assert Queried(t0, query) == Write(nonblocking, query);
  }

  /**
   * Entering raw mode and sending the query: the raw copy is the first
   * change, the query is the only thing written, and no
   * select has waited yet.
   */
  lemma QueriedLog(t0: Tty, query: seq<byte>)
    requires !t0.faults.getAttr && !t0.faults.setAttr
    ensures var q := Queried(t0, query);
      |q.log| > |t0.log| && q.log[|t0.log|] == AttrsSet(MakeRaw(t0.attrs)) &&
      Written(q.log) == Written(t0.log) + query && Budgets(q.log) == Budgets(t0.log)
  {
    QueriedAppends(t0, query);
    var changes := EntryChanges(t0);
    assert Written(changes) == [] && Budgets(changes) == [] by {
      var raw := AttrsSet(MakeRaw(t0.attrs));
      WrittenAfter([], raw);
      BudgetsAfter([], raw);
      assert [] + [raw] == [raw];
      if !t0.faults.setFlags {
        WrittenAfter([raw], FlagsSet(WithNonblock(SavedFlags(t0))));
        BudgetsAfter([raw], FlagsSet(WithNonblock(SavedFlags(t0))));
      }
    }
    WrittenAppend(t0.log, changes);
    BudgetsAppend(t0.log, changes);
    WrittenAfter(t0.log + changes, Wrote(query));
    BudgetsAfter(t0.log + changes, Wrote(query));
  }
}
