/** The command-line loop of image-to-binary.py (lines 50-74): it pops the arguments
    one at a time, lets options update the `no_alpha` and `raw` switches, and converts
    each file argument with the switches as they are at that point. */
module Options {

  /** The switches the loop keeps. */
  datatype Flags = Flags(noAlpha: bool, raw: bool)

  /** Lines 53-54: `--raw --no-alpha` until an option says otherwise. */
  const Defaults := Flags(true, true)

  /** What an argument is, by its spelling. */
  datatype Kind = Alpha | NoAlpha | Bmp | Raw | Help | UnknownOption | File

  /** Lines 58-73: a leading '-' makes an option; anything else names a file. */
  function KindOf(arg: string): Kind
  {
    if |arg| > 0 && arg[0] == '-' then
      if arg == "-a" || arg == "--alpha" then Alpha
      else if arg == "-n" || arg == "--no-alpha" then NoAlpha
      else if arg == "-b" || arg == "--bmp" then Bmp
      else if arg == "-r" || arg == "--raw" then Raw
      else if arg == "-h" || arg == "--help" then Help
      else UnknownOption
    else File
  }

  /** Whether the argument sets one of the switches. */
  predicate IsSwitch(k: Kind)
  {
    k == Alpha || k == NoAlpha || k == Bmp || k == Raw
  }

  /** The switches after one argument (only the four switch options change them). */
  function Apply(f: Flags, k: Kind): Flags
  {
    match k
    case Alpha => f.(noAlpha := false)
    case NoAlpha => f.(noAlpha := true)
    case Bmp => f.(raw := false)
    case Raw => f.(raw := true)
    case _ => f
  }

  /** The switches after the arguments `args`, taken left to right from `f`. */
  function FlagsAfter(args: seq<string>, f: Flags): Flags
  {
    if args == [] then f else FlagsAfter(args[1..], Apply(f, KindOf(args[0])))
  }

  /** What the loop does, in order. */
  datatype Action =
    | NothingToDo                      // line 51: no argument at all
    | Convert(file: string, flags: Flags)  // lines 74-130 with the current switches
    | Warn(arg: string)                // lines 71-72: unknown option, switches untouched
    | ShowHelp                         // lines 68-69: help, then `sys.exit(0)`

  /** The actions for the remaining arguments `args` when the switches are `f`.
      `raises(file, flags)` says whether converting that file raises an exception that
      nothing catches (`rindex` at line 81, `read` at line 117): the run ends there. */
  function Actions(args: seq<string>, f: Flags, raises: (string, Flags) -> bool): seq<Action>
  {
    if args == [] then []
    else
      var k := KindOf(args[0]);
      if k == Help then [ShowHelp]
      else if k == UnknownOption then [Warn(args[0])] + Actions(args[1..], f, raises)
      else if k == File then
        [Convert(args[0], f)] + (if raises(args[0], f) then [] else Actions(args[1..], f, raises))
      else Actions(args[1..], Apply(f, k), raises)
  }

  /** The whole run on the arguments after the program name. */
  function Run(args: seq<string>, raises: (string, Flags) -> bool): seq<Action>
  {
    if args == [] then [NothingToDo] else Actions(args, Defaults, raises)
  }

  /** The arguments `p`, taken from switches `f`, are all handled and the loop goes on
      after them: none is a help option and no conversion among them raises. */
  predicate RunsThrough(p: seq<string>, f: Flags, raises: (string, Flags) -> bool)
  {
    p == [] ||
    (KindOf(p[0]) != Help && (KindOf(p[0]) == File ==> !raises(p[0], f)) &&
     RunsThrough(p[1..], Apply(f, KindOf(p[0])), raises))
  }

  /** Lines 50-74: pop the arguments and update the switches in place; a conversion
      that raises ends the loop. */
  method ParseArguments(argv: seq<string>, raises: (string, Flags) -> bool)
    returns (actions: seq<Action>)
    ensures actions == Run(argv, raises)
  {
    if |argv| == 0 {
      return [NothingToDo];
    }
    var noAlpha := true;
    var raw := true;
    var rest := argv;
    actions := [];
    while |rest| > 0
      invariant actions + Actions(rest, Flags(noAlpha, raw), raises) == Actions(argv, Defaults, raises)
    {
      ghost var done, flags := actions, Flags(noAlpha, raw);
      ActionsStep(rest, flags, raises);
      var arg := rest[0];
      rest := rest[1..];
      if |arg| > 0 && arg[0] == '-' {
        if arg == "-a" || arg == "--alpha" {
          noAlpha := false;
        } else if arg == "-n" || arg == "--no-alpha" {
          noAlpha := true;
        } else if arg == "-b" || arg == "--bmp" {
          raw := false;
        } else if arg == "-r" || arg == "--raw" {
          raw := true;
        } else if arg == "-h" || arg == "--help" {
          actions := actions + [ShowHelp];
          return;
        } else {
          actions := actions + [Warn(arg)];
          assert done + ([Warn(arg)] + Actions(rest, flags, raises)) == actions + Actions(rest, flags, raises);
        }
      } else {
        actions := actions + [Convert(arg, Flags(noAlpha, raw))];
        if raises(arg, Flags(noAlpha, raw)) {
          return;
        }
        assert done + ([Convert(arg, flags)] + Actions(rest, flags, raises)) == actions + Actions(rest, flags, raises);
      }
    }
  }

  /** One step of the loop: what the first argument does to the actions. */
  lemma ActionsStep(args: seq<string>, f: Flags, raises: (string, Flags) -> bool)
    requires args != []
    ensures var arg, rest, A := args[0], args[1..], Actions(args, f, raises);
      if |arg| > 0 && arg[0] == '-' then
        if arg == "-a" || arg == "--alpha" then A == Actions(rest, f.(noAlpha := false), raises)
        else if arg == "-n" || arg == "--no-alpha" then A == Actions(rest, f.(noAlpha := true), raises)
        else if arg == "-b" || arg == "--bmp" then A == Actions(rest, f.(raw := false), raises)
        else if arg == "-r" || arg == "--raw" then A == Actions(rest, f.(raw := true), raises)
        else if arg == "-h" || arg == "--help" then A == [ShowHelp]
        else A == [Warn(arg)] + Actions(rest, f, raises)
      else if raises(arg, f) then A == [Convert(arg, f)]
      else A == [Convert(arg, f)] + Actions(rest, f, raises)
  {
  }

  /** When the loop runs through the arguments `p`, they contribute their own actions and
      hand their switches on to whatever follows. */
  lemma {:induction false} ActionsSplit(p: seq<string>, q: seq<string>, f: Flags,
                                        raises: (string, Flags) -> bool)
    requires RunsThrough(p, f, raises)
    ensures Actions(p + q, f, raises) == Actions(p, f, raises) + Actions(q, FlagsAfter(p, f), raises)
  {
    if p != [] {
      assert (p + q)[0] == p[0] && (p + q)[1..] == p[1..] + q;
      ActionsSplit(p[1..], q, Apply(f, KindOf(p[0])), raises);
    } else {
      assert p + q == q;
    }
  }

  /** A file argument that the loop reaches is converted with exactly the switches set by
      the arguments before it, and nothing else happens at its position. */
  lemma FileUsesPrecedingFlags(args: seq<string>, k: nat, raises: (string, Flags) -> bool)
    requires k < |args| && KindOf(args[k]) == File
    requires RunsThrough(args[..k], Defaults, raises)
    ensures var f := FlagsAfter(args[..k], Defaults);
      Run(args, raises) == Actions(args[..k], Defaults, raises) + [Convert(args[k], f)]
        + (if raises(args[k], f) then [] else Actions(args[k + 1..], f, raises))
  {
    assert args == args[..k] + args[k..];
    ActionsSplit(args[..k], args[k..], Defaults, raises);
  }

  /** Arguments that set no switch leave the switches as they were; so a file with no
      switch before it is converted with the defaults `--raw --no-alpha`. */
  lemma {:induction false} FlagsAfterNoSwitch(p: seq<string>, f: Flags)
    requires forall i :: 0 <= i < |p| ==> !IsSwitch(KindOf(p[i]))
    ensures FlagsAfter(p, f) == f
  {
    if p != [] {
      FlagsAfterNoSwitch(p[1..], f);
    }
  }

  /** The switches after `p + q` are those after `q` started from those after `p`. */
  lemma {:induction false} FlagsAfterAppend(p: seq<string>, q: seq<string>, f: Flags)
    ensures FlagsAfter(p + q, f) == FlagsAfter(q, FlagsAfter(p, f))
  {
    if p != [] {
      assert (p + q)[0] == p[0] && (p + q)[1..] == p[1..] + q;
      FlagsAfterAppend(p[1..], q, Apply(f, KindOf(p[0])));
    } else {
      assert p + q == q;
    }
  }

  /** The alpha switch is decided by the last `-a`/`-n`: nothing after it changes it. */
  lemma {:induction false} LastAlphaOptionWins(p: seq<string>, a: string, q: seq<string>, f: Flags)
    requires KindOf(a) == Alpha || KindOf(a) == NoAlpha
    requires forall i :: 0 <= i < |q| ==> KindOf(q[i]) != Alpha && KindOf(q[i]) != NoAlpha
    ensures FlagsAfter(p + [a] + q, f).noAlpha == (KindOf(a) == NoAlpha)
  {
    FlagsAfterAppend(p + [a], q, f);
    FlagsAfterAppend(p, [a], f);
    KeepsAlpha(q, FlagsAfter(p + [a], f));
  }

  /** The output switch is decided by the last `-b`/`-r`: nothing after it changes it. */
  lemma {:induction false} LastRawOptionWins(p: seq<string>, a: string, q: seq<string>, f: Flags)
    requires KindOf(a) == Bmp || KindOf(a) == Raw
    requires forall i :: 0 <= i < |q| ==> KindOf(q[i]) != Bmp && KindOf(q[i]) != Raw
    ensures FlagsAfter(p + [a], f).raw == (KindOf(a) == Raw)
    ensures FlagsAfter(p + [a] + q, f).raw == (KindOf(a) == Raw)
  {
    FlagsAfterAppend(p + [a], q, f);
    FlagsAfterAppend(p, [a], f);
    KeepsRaw(q, FlagsAfter(p + [a], f));
  }

  lemma {:induction false} KeepsAlpha(q: seq<string>, f: Flags)
    requires forall i :: 0 <= i < |q| ==> KindOf(q[i]) != Alpha && KindOf(q[i]) != NoAlpha
    ensures FlagsAfter(q, f).noAlpha == f.noAlpha
  {
    if q != [] {
      KeepsAlpha(q[1..], Apply(f, KindOf(q[0])));
    }
  }

  lemma {:induction false} KeepsRaw(q: seq<string>, f: Flags)
    requires forall i :: 0 <= i < |q| ==> KindOf(q[i]) != Bmp && KindOf(q[i]) != Raw
    ensures FlagsAfter(q, f).raw == f.raw
  {
    if q != [] {
      KeepsRaw(q[1..], Apply(f, KindOf(q[0])));
    }
  }

  /** An unknown option only draws a warning: the switches are as if it were absent. */
  lemma UnknownOptionKeepsFlags(p: seq<string>, u: string, q: seq<string>, f: Flags)
    requires KindOf(u) == UnknownOption
    ensures FlagsAfter(p + [u] + q, f) == FlagsAfter(p + q, f)
  {
    FlagsAfterAppend(p + [u], q, f);
    FlagsAfterAppend(p, [u], f);
    FlagsAfterAppend(p, q, f);
  }

  /** Help ends the run: no argument after it is ever handled; when the loop reaches it,
      help is the last action. */
  lemma {:induction false} HelpStops(p: seq<string>, h: string, q: seq<string>, f: Flags,
                                     raises: (string, Flags) -> bool)
    requires KindOf(h) == Help
    ensures Actions(p + [h] + q, f, raises) == Actions(p + [h], f, raises)
    ensures RunsThrough(p, f, raises) ==> Actions(p + [h], f, raises) == Actions(p, f, raises) + [ShowHelp]
  {
    if p == [] {
      assert (p + [h] + q)[0] == h && (p + [h])[0] == h;
    } else {
      assert (p + [h] + q)[0] == p[0] && (p + [h])[0] == p[0];
      assert (p + [h] + q)[1..] == p[1..] + [h] + q;
      assert (p + [h])[1..] == p[1..] + [h];
      HelpStops(p[1..], h, q, Apply(f, KindOf(p[0])), raises);
    }
  }

  /** A conversion that raises ends the run: no argument after it is ever handled, and
      when the loop reaches it, its Convert action is the last. */
  lemma {:induction false} RaiseStops(p: seq<string>, a: string, q: seq<string>, f: Flags,
                                      raises: (string, Flags) -> bool)
    requires KindOf(a) == File && raises(a, FlagsAfter(p, f))
    ensures Actions(p + [a] + q, f, raises) == Actions(p + [a], f, raises)
    ensures RunsThrough(p, f, raises) ==>
      Actions(p + [a], f, raises) == Actions(p, f, raises) + [Convert(a, FlagsAfter(p, f))]
  {
    if p == [] {
      assert (p + [a] + q)[0] == a && (p + [a])[0] == a;
    } else {
      assert (p + [a] + q)[0] == p[0] && (p + [a])[0] == p[0];
      assert (p + [a] + q)[1..] == p[1..] + [a] + q;
      assert (p + [a])[1..] == p[1..] + [a];
      RaiseStops(p[1..], a, q, Apply(f, KindOf(p[0])), raises);
    }
  }
}
