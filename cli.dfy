/**
 * The command line of src/main.rs: `CLI::parse` over the argument list,
 * and `run` and `main` as one function from the arguments and the terminal
 * to how the program ends.
 */
module Cli {
  import opened Common
  import opened Device
  import KittyRs

  /** `CLI`: the files to show and whether ASCII output was asked for. */
  datatype CLI = CLI(files: seq<string>, ascii: bool)

  const NotEnoughArguments: string := "Not enough arguments"
  const AsciiFlag: string := "--ascii"

  /** `arg.starts_with("--")`. */
  predicate IsFlag(arg: string)
  {
    |arg| >= 2 && arg[0] == '-' && arg[1] == '-'
  }

  /** The `filter` step: the arguments that are not flags, in order. */
  function Files(args: seq<string>): (files: seq<string>)
    ensures |files| <= |args|
    ensures forall f :: f in files <==> f in args && !IsFlag(f)
  {
    if args == [] then []
    else if IsFlag(args[0]) then Files(args[1..])
    else [args[0]] + Files(args[1..])
  }

  /** Filtering a concatenation filters each part: the files keep the order they were given in. */
  lemma {:induction false} FilesAppend(a: seq<string>, b: seq<string>)
    ensures Files(a + b) == Files(a) + Files(b)
    decreases |a|
  {
    if a == [] {
      assert a + b == b;
    } else {
      var head := if IsFlag(a[0]) then [] else [a[0]];
      calc {
        Files(a + b);
        { assert a + b == [a[0]] + (a[1..] + b); }
        Files([a[0]] + (a[1..] + b));
        { FilesCons(a[0], a[1..] + b); }
        head + Files(a[1..] + b);
        { FilesAppend(a[1..], b); }
        head + (Files(a[1..]) + Files(b));
        (head + Files(a[1..])) + Files(b);
        { FilesCons(a[0], a[1..]); assert [a[0]] + a[1..] == a; }
        Files(a) + Files(b);
      }
    }
  }

  /** Filtering an argument list that starts with `arg`. */
  lemma FilesCons(arg: string, rest: seq<string>)
    ensures Files([arg] + rest) == (if IsFlag(arg) then [] else [arg]) + Files(rest)
  {
    var args := [arg] + rest;
    assert args[0] == arg && args[1..] == rest;
  }

  /** Arguments none of which is a flag are all files. */
  lemma {:induction false} FilesKeepsNonFlags(args: seq<string>)
    requires forall i | 0 <= i < |args| :: !IsFlag(args[i])
    ensures Files(args) == args
    decreases |args|
  {
    if args != [] {
      FilesKeepsNonFlags(args[1..]);
    }
  }

  /**
   * `CLI::parse`: an error when there are fewer than two arguments or no
   * file after the program name; otherwise the files, and `ascii` when any
   * argument, the program name included, is `--ascii`.
   */
  function Parse(args: seq<string>): (r: Result<CLI, string>)
    ensures r.Err? ==> r.error == NotEnoughArguments
    ensures r.Ok? <==> exists i | 1 <= i < |args| :: !IsFlag(args[i])
    ensures r.Ok? ==> (r.value.ascii <==> AsciiFlag in args)
    ensures r.Ok? ==> forall f :: f in r.value.files <==> f in args[1..] && !IsFlag(f)
  {
    if |args| < 2 then Err(NotEnoughArguments)
    else
      var files := Files(args[1..]);
      if |files| == 0 then
        assert forall i | 1 <= i < |args| :: IsFlag(args[i]) by {
          forall i | 1 <= i < |args|
            ensures IsFlag(args[i])
          {
            assert args[i] == args[1..][i - 1];
          }
        }
        Err(NotEnoughArguments)
      else
        assert files[0] in args[1..];
        Ok(CLI(files, AsciiFlag in args))
  }

  /** How the program ends: `Err` from `run`, a panic, or `Ok(())` after the count is printed. */
  datatype Outcome = Errored(message: string) | Panicked | Finished(supported: bool, fileCount: nat)

  /**
   * `run` on the terminal `t0`: a parse error before the terminal is
   * touched; `unreachable!` for `--ascii`, also before; otherwise the probe,
   * whose panic ends the program, and the count of files.
   */
  function Run(args: seq<string>, t0: Tty): (out: (Outcome, Tty))
    ensures Parse(args).Err? ==> out == (Errored(NotEnoughArguments), t0)
    ensures Parse(args).Ok? && Parse(args).value.ascii ==> out == (Panicked, t0)
    ensures Parse(args).Ok? && !Parse(args).value.ascii ==>
      out.1 == KittyRs.IsKitty(t0, KittyRs.AsWrittenSlice).probe.tty &&
      (out.0.Panicked? <==> KittyRs.IsKitty(t0, KittyRs.AsWrittenSlice).panicked) &&
      (out.0.Finished? ==> out.0.fileCount == |Parse(args).value.files| > 0)
  {
    match Parse(args)
    case Err(e) => (Errored(e), t0)
    case Ok(cli) =>
      if cli.ascii then (Panicked, t0)
      else
        var run := KittyRs.IsKitty(t0, KittyRs.AsWrittenSlice);
        if run.panicked then (Panicked, run.probe.tty)
        else (Finished(run.probe.supported, |cli.files|), run.probe.tty)
  }

  /** `main`: status 1 after an error, 101 after a panic, 0 otherwise. */
  function ExitStatus(o: Outcome): int
  {
    match o
    case Errored(_) => 1
    case Panicked => 101
    case Finished(_, _) => 0
  }

  /**
   * The program fails with status 1 exactly when no file was named, and
   * then leaves the terminal alone; a terminal without the protocol still
   * ends with status 0.
   */
  lemma ExitStatuses(args: seq<string>, t0: Tty)
    ensures var (o, t) := Run(args, t0);
      (ExitStatus(o) == 1 <==> forall i | 1 <= i < |args| :: IsFlag(args[i])) &&
      (ExitStatus(o) == 1 ==> t == t0) &&
      (ExitStatus(o) == 0 <==> Parse(args).Ok? && !Parse(args).value.ascii && !KittyRs.IsKitty(t0, KittyRs.AsWrittenSlice).panicked)
  {
  }

  /** `--ascii` with a file panics before the terminal is touched, wherever the flag stands. */
  lemma AsciiPanics(args: seq<string>, t0: Tty)
    requires AsciiFlag in args && exists i | 1 <= i < |args| :: !IsFlag(args[i])
    ensures Run(args, t0) == (Panicked, t0)
  {
  }

  /** Two files after the program name, with a flag between them, are both kept, in order. */
  lemma FlagsBetweenFilesDropped()
    ensures Parse(["cati", "a.png", "--verbose", "b.png"]) == Ok(CLI(["a.png", "b.png"], false))
  {
    var args := ["cati", "a.png", "--verbose", "b.png"];
    assert !IsFlag("a.png") && IsFlag("--verbose") && !IsFlag("b.png");
    assert args[1..][1..] == ["--verbose", "b.png"] && args[1..][1..][1..] == ["b.png"];
    assert Files(["b.png"]) == ["b.png"];
    assert Files(args[1..]) == ["a.png", "b.png"];
    assert !(AsciiFlag in args) by {
      assert |AsciiFlag| == 7;
    }
  }
}
