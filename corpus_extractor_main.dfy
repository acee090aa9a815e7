/** The command line of the corpus extractor, the compiler driver that
    collects the unsafe-code corpus: `--color` options are dropped, the
    sysroot is appended and three compiler flags are put after the program
    name. */
module CorpusExtractorMain {
  import opened Wrappers

  /** Argument `i` survives the filter: it is not `--color` and it is not
      the value of a `--color` just before it. */
  predicate Kept(args: seq<string>, i: nat)
    requires i < |args|
  {
    args[i] != "--color" && (i == 0 || args[i - 1] != "--color")
  }

  /** The arguments that survive the filter, in order. */
  function ColorFiltered(args: seq<string>): seq<string>
  {
    if args == [] then []
    else
      var init := args[..|args| - 1];
      assert forall i :: 0 <= i < |init| ==> init[i] == args[i];
      ColorFiltered(init) + (if Kept(args, |args| - 1) then [args[|args| - 1]] else [])
  }

  /** The filter closure over `env::args()`, with its `is_color_arg` flag
      remembering whether the previous argument was `--color`. */
  method FilterColor(args: seq<string>) returns (r: seq<string>)
    ensures r == ColorFiltered(args)
  {
    var isColorArg := false;
    r := [];
    var i := 0;
    while i < |args|
      invariant i <= |args|
      invariant isColorArg == (i > 0 && args[i - 1] == "--color")
      invariant r == ColorFiltered(args[..i])
    {
      var keep;
      if args[i] == "--color" {
        isColorArg := true;
        keep := false;
      } else if isColorArg {
        isColorArg := false;
        keep := false;
      } else {
        keep := true;
      }
      assert args[..i + 1][..i] == args[..i];
      assert keep == Kept(args[..i + 1], i);
      if keep {
        r := r + [args[i]];
      }
      i := i + 1;
    }
    assert args[..i] == args;
  }

  /** The survivors are exactly the kept arguments: `--color` and the
      argument after each `--color` are gone, everything else stays. */
  lemma {:induction false} ColorFilteredMembers(args: seq<string>)
    ensures |ColorFiltered(args)| <= |args|
    ensures forall x :: x in ColorFiltered(args) <==> exists i: nat :: i < |args| && Kept(args, i) && args[i] == x
  {
    if args != [] {
      var init := args[..|args| - 1];
      ColorFilteredMembers(init);
      assert forall i :: 0 <= i < |init| ==> init[i] == args[i];
      assert forall i: nat :: i < |init| ==> (Kept(init, i) <==> Kept(args, i));
      forall x | x in ColorFiltered(args)
        ensures exists i: nat :: i < |args| && Kept(args, i) && args[i] == x
      {
        if x in ColorFiltered(init) {
          var i: nat :| i < |init| && Kept(init, i) && init[i] == x;
          assert Kept(args, i) && args[i] == x;
        } else {
          assert Kept(args, |args| - 1) && args[|args| - 1] == x;
        }
      }
      forall x | exists i: nat :: i < |args| && Kept(args, i) && args[i] == x
        ensures x in ColorFiltered(args)
      {
        var i: nat :| i < |args| && Kept(args, i) && args[i] == x;
        if i < |init| {
          assert Kept(init, i) && init[i] == x;
        }
      }
    }
  }

  /** No `--color` survives, and arguments without any `--color` pass
      through unchanged. */
  lemma {:induction false} ColorFilteredIdentity(args: seq<string>)
    ensures "--color" !in ColorFiltered(args)
    ensures "--color" !in args ==> ColorFiltered(args) == args
  {
    ColorFilteredMembers(args);
    if args != [] && "--color" !in args {
      var init := args[..|args| - 1];
      ColorFilteredIdentity(init);
      assert "--color" !in init;
      assert Kept(args, |args| - 1);
      assert args == init + [args[|args| - 1]];
    }
  }

  /** The flags every compilation gets: keep MIR for all items, do not
      optimise it, and keep debug assertions. */
  const ExtraFlags: seq<string> := ["-Zalways-encode-mir", "-Zmir-opt-level=0", "-Cdebug-assertions=on"]

  /** The arguments handed to the compiler, or the panic message when
      SYSROOT is unset. */
  function CompilerArgsOf(argv: seq<string>, sysroot: Option<string>): Result<seq<string>, string>
  {
    match sysroot
    case None => Err("Please specify the SYSROOT env variable.")
    case Some(s) =>
      var args := ColorFiltered(argv) + ["--sysroot", s];
      Ok(args[..1] + ExtraFlags + args[1..])
  }

  /** `main` up to the call of the compiler: two pushes and a splice at
      position 1 on the filtered arguments. */
  method CompilerArgs(argv: seq<string>, sysroot: Option<string>) returns (r: Result<seq<string>, string>)
    ensures r == CompilerArgsOf(argv, sysroot)
  {
    var args := FilterColor(argv);
    ghost var kept := args;
    args := args + ["--sysroot"];
    if sysroot.None? {
      return Err("Please specify the SYSROOT env variable.");
    }
    args := args + [sysroot.value];
    assert args == kept + ["--sysroot", sysroot.value];
    args := args[..1] + ExtraFlags + args[1..];
    return Ok(args);
  }

  /** The program name stays first, the three flags follow it, the other
      surviving arguments follow them in order, and `--sysroot` with its
      value comes last. */
  lemma CompilerArgsShape(argv: seq<string>, s: string)
    requires ColorFiltered(argv) != []
    ensures var kept := ColorFiltered(argv);
      CompilerArgsOf(argv, Some(s)) == Ok([kept[0]] + ExtraFlags + kept[1..] + ["--sysroot", s])
  {
    var kept := ColorFiltered(argv);
    var args := kept + ["--sysroot", s];
    assert args[..1] == [kept[0]];
    assert args[1..] == kept[1..] + ["--sysroot", s];
    assert [kept[0]] + ExtraFlags + (kept[1..] + ["--sysroot", s])
      == [kept[0]] + ExtraFlags + kept[1..] + ["--sysroot", s];
  }

  /** Five arguments are added to the survivors of the filter, whatever
      they are. */
  lemma CompilerArgsLength(argv: seq<string>, s: string)
    ensures CompilerArgsOf(argv, Some(s)).Ok?
    ensures |CompilerArgsOf(argv, Some(s)).value| == |ColorFiltered(argv)| + 5
  {
  }
}
