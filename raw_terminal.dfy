/**
 * src/termios.rs: raw mode, non-blocking mode and their undoing, over the
 * device state.
 *
 * Each operation is a function from the device state to the new state and
 * a `Result`, as the Rust functions return one; `set_termios_raw_mode` and
 * `set_nonblocking` are also methods that build the new value step by step
 * as the source does. The messages printed on failure are not modelled.
 */
module RawTerminal {
  import opened Common
  import opened Device

  /** `TerminalError`: which of the two attribute calls failed. */
  datatype TerminalError = TCGettAttr | TCSetAttr

  /** `impl Display for TerminalError`. */
  function Display(e: TerminalError): string
  {
    match e
    case TCSetAttr => "Unable to set attributes"
    case TCGettAttr => "Unable to get current attributes"
  }

  /** The two messages tell the errors apart. */
  lemma DisplayDistinguishes(a: TerminalError, b: TerminalError)
    ensures Display(a) == Display(b) <==> a == b
  {
    if a != b {
      assert Display(a)[10] != Display(b)[10];
    }
  }

  /**
   * `set_termios_raw_mode`: read the attributes, install the raw copy,
   * return the original. Nothing is set when the attributes cannot be
   * read; they stay as they were when the raw copy cannot be installed;
   * otherwise the raw copy is in place and the untouched original returned.
   */
  function RawMode(t: Tty): (out: (Tty, Result<Termios, TerminalError>))
    ensures t.faults.getAttr ==> out == (t.(errno := ENOTTY), Err(TCGettAttr))
    ensures !t.faults.getAttr && t.faults.setAttr ==> out == (t.(errno := ENOTTY), Err(TCSetAttr))
    ensures !t.faults.getAttr && !t.faults.setAttr ==>
      out == (t.(attrs := MakeRaw(t.attrs), log := t.log + [AttrsSet(MakeRaw(t.attrs))]), Ok(t.attrs))
  {
    var (t1, got) := TcGetAttr(t);
    if got.Err? then (t1, Err(TCGettAttr))
    else
      var (t2, installed) := TcSetAttr(t1, MakeRaw(got.value));
      if !installed then (t2, Err(TCSetAttr)) else (t2, Ok(got.value))
  }

  /** `set_termios_raw_mode`, the raw copy cloned and changed field by field. */
  method SetTermiosRawMode(t0: Tty) returns (t: Tty, r: Result<Termios, TerminalError>)
    ensures (t, r) == RawMode(t0)
  {
    var (t1, got) := TcGetAttr(t0);
    t := t1;
    if got.Err? {
      return t, Err(TCGettAttr);
    }
    var termios := got.value;
    var rawTerm := RawCopy(termios);
    var (t2, installed) := TcSetAttr(t, rawTerm);
    t := t2;
    if !installed {
      return t, Err(TCSetAttr);
    }
    return t, Ok(termios);
  }

  /** `restore_termios`: install exactly the given attributes. */
  function RestoreTermios(t: Tty, saved: Termios): (out: (Tty, Result<(), TerminalError>))
    ensures out.1.Ok? <==> !t.faults.setAttr
    ensures out.1.Ok? ==> out.0 == t.(attrs := saved, log := t.log + [AttrsSet(saved)])
    ensures out.1.Err? ==> out.1.error == TCSetAttr && out.0.attrs == t.attrs
  {
    var (t1, installed) := TcSetAttr(t, saved);
    (t1, if installed then Ok(()) else Err(TCSetAttr))
  }

  /**
   * Raw mode undone with the value it returned gives back the device as
   * it was; only the log of changes has grown.
   */
  lemma RawModeUndone(t: Tty)
    requires RawMode(t).1.Ok?
    ensures var (t1, r) := RawMode(t);
      var (t2, back) := RestoreTermios(t1, r.value);
      back == Ok(()) && t2.(log := t.log) == t &&
      t2.log == t.log + [AttrsSet(MakeRaw(t.attrs)), AttrsSet(t.attrs)]
  {
  }

  /**
   * `set_nonblocking`: read the flags, install them with `O_NONBLOCK` added,
   * return the ones read. It fails, changing only errno, when the flags
   * cannot be read or cannot be set.
   */
  function Nonblocking(t: Tty): (out: (Tty, Result<bv32, Errno>))
    ensures t.faults.getFlags || t.faults.setFlags <==> out.1.Err?
    ensures out.1.Err? ==> out == (t.(errno := EBADF), Err(EBADF))
    ensures out.1.Ok? ==>
      out == (t.(flags := WithNonblock(t.flags), log := t.log + [FlagsSet(WithNonblock(t.flags))]), Ok(t.flags))
  {
    var (t1, got) := GetFl(t);
    if got.Err? then (t1, Err(got.error))
    else
      var (t2, installed) := SetFl(t1, WithNonblock(got.value));
      if !installed then (t2, Err(t2.errno)) else (t2, Ok(got.value))
  }

  /** `set_nonblocking`, with `flag.insert(O_NONBLOCK)` on a copy of the flags read. */
  method SetNonblocking(t0: Tty) returns (t: Tty, r: Result<bv32, Errno>)
    ensures (t, r) == Nonblocking(t0)
  {
    var (t1, got) := GetFl(t0);
    t := t1;
    if got.Err? {
      return t, Err(got.error);
    }
    var flag := got.value;
    var originalFlags := flag;
    flag := WithNonblock(flag);
    var (t2, installed) := SetFl(t, flag);
    t := t2;
    if !installed {
      return t, Err(t.errno);
    }
    return t, Ok(originalFlags);
  }

  /** Inserting `O_NONBLOCK` sets that one bit and leaves every other bit as it was. */
  lemma InsertSetsOnlyNonblock(f: bv32)
    ensures WithNonblock(f) & O_NONBLOCK == O_NONBLOCK
    ensures WithNonblock(f) & !O_NONBLOCK == f & !O_NONBLOCK
  {
  }

  /** `restore_flags`: install exactly the given flags. */
  function RestoreFlags(t: Tty, flags: bv32): (out: (Tty, Result<(), Errno>))
    ensures out.1.Ok? <==> !t.faults.setFlags
    ensures out.1.Ok? ==> out.0 == t.(flags := flags, log := t.log + [FlagsSet(flags)])
    ensures out.1.Err? ==> out.0.flags == t.flags
  {
    var (t1, installed) := SetFl(t, flags);
    (t1, if installed then Ok(()) else Err(t1.errno))
  }

  /** Non-blocking mode undone with the value it returned gives back the device as it was. */
  lemma NonblockingUndone(t: Tty)
    requires Nonblocking(t).1.Ok?
    ensures var (t1, r) := Nonblocking(t);
      var (t2, back) := RestoreFlags(t1, r.value);
      back == Ok(()) && t2.(log := t.log) == t &&
      t2.log == t.log + [FlagsSet(WithNonblock(t.flags)), FlagsSet(t.flags)]
  {
  }
}
