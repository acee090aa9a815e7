/** The command line of the rustql extractor, a compiler driver that Cargo
    runs in place of `rustc`: finding an option's value, choosing the
    sysroot, dropping the `rustc` argument a compiler wrapper receives, and
    appending `--sysroot` when the caller gave none. */
module RustqlExtractor {
  import opened Wrappers

  /** `arg.splitn(2, '=')`: the text before the first `=`, and the text
      after it when there is an `=`. */
  function SplitAtEquals(arg: string): (r: (string, Option<string>))
    ensures r.1.None? ==> r.0 == arg && '=' !in arg
    ensures r.1.Some? ==> arg == r.0 + "=" + r.1.value && '=' !in r.0
  {
    if arg == [] then ("", None)
    else if arg[0] == '=' then ("", Some(arg[1..]))
    else
      var kv := SplitAtEquals(arg[1..]);
      assert arg == [arg[0]] + arg[1..];
      ([arg[0]] + kv.0, kv.1)
  }

  /** `arg_value`: the value of the first occurrence of option `findArg`
      that `pred` accepts, written `findArg=value` or `findArg value`. The
      separate value is taken from the arguments even when `pred` rejects
      it, so it is never itself read as an option. */
  function ArgValueOf(args: seq<string>, findArg: string, pred: string -> bool): Option<string>
    decreases |args|
  {
    if args == [] then None
    else
      var kv := SplitAtEquals(args[0]);
      if kv.0 != findArg then ArgValueOf(args[1..], findArg, pred)
      else if kv.1.Some? then
        if pred(kv.1.value) then kv.1 else ArgValueOf(args[1..], findArg, pred)
      else if |args| >= 2 then
        if pred(args[1]) then Some(args[1]) else ArgValueOf(args[2..], findArg, pred)
      else None
  }

  /** The loop of `arg_value`, pulling arguments from one iterator. */
  method ArgValue(args: seq<string>, findArg: string, pred: string -> bool) returns (r: Option<string>)
    ensures r == ArgValueOf(args, findArg, pred)
  {
    var i := 0;
    while i < |args|
      invariant i <= |args|
      invariant ArgValueOf(args[i..], findArg, pred) == ArgValueOf(args, findArg, pred)
    {
      var rest := args[i..];
      assert rest[0] == args[i] && rest[1..] == args[i + 1..];
      var kv := SplitAtEquals(args[i]);
      i := i + 1;
      if kv.0 != findArg {
        continue;
      }
      var value := kv.1;
      if value.None? && i < |args| {
        assert rest[1] == args[i] && rest[2..] == args[i + 1..];
        value := Some(args[i]);
        i := i + 1;
      }
      if value.Some? && pred(value.value) {
        return value;
      }
    }
    return None;
  }

  /** An argument that names option `findArg`, with or without `=value`. */
  predicate NamesOption(arg: string, findArg: string)
  {
    SplitAtEquals(arg).0 == findArg
  }

  /** Argument `i` gives option `findArg` the value `v`, either in the same
      argument or as the next one. */
  predicate GivesValue(args: seq<string>, i: nat, findArg: string, v: string)
    requires i < |args|
  {
    args[i] == findArg + "=" + v || (args[i] == findArg && i + 1 < |args| && args[i + 1] == v)
  }

  /** A found value passes `pred` and was written after some occurrence of
      the option. */
  lemma {:induction false} ArgValueFound(args: seq<string>, findArg: string, pred: string -> bool)
    requires ArgValueOf(args, findArg, pred).Some?
    ensures pred(ArgValueOf(args, findArg, pred).value)
    ensures exists i: nat :: i < |args| && GivesValue(args, i, findArg, ArgValueOf(args, findArg, pred).value)
    decreases |args|
  {
    var v := ArgValueOf(args, findArg, pred).value;
    var kv := SplitAtEquals(args[0]);
    if kv.0 != findArg || (kv.1.Some? && !pred(kv.1.value)) {
      ArgValueFound(args[1..], findArg, pred);
      var i: nat :| i < |args[1..]| && GivesValue(args[1..], i, findArg, v);
      assert args[1..][i] == args[i + 1];
      assert i + 1 < |args[1..]| ==> args[1..][i + 1] == args[i + 2];
      assert GivesValue(args, i + 1, findArg, v);
    } else if kv.1.Some? {
      assert GivesValue(args, 0, findArg, v);
    } else if !pred(args[1]) {
      ArgValueFound(args[2..], findArg, pred);
      var i: nat :| i < |args[2..]| && GivesValue(args[2..], i, findArg, v);
      assert args[2..][i] == args[i + 2];
      assert i + 1 < |args[2..]| ==> args[2..][i + 1] == args[i + 3];
      assert GivesValue(args, i + 2, findArg, v);
    } else {
      assert GivesValue(args, 0, findArg, v);
    }
  }

  /** Without any argument naming the option there is no value. */
  lemma {:induction false} ArgValueAbsent(args: seq<string>, findArg: string, pred: string -> bool)
    requires forall i :: 0 <= i < |args| ==> !NamesOption(args[i], findArg)
    ensures ArgValueOf(args, findArg, pred) == None
    decreases |args|
  {
    if args != [] {
      assert !NamesOption(args[0], findArg);
      assert forall i :: 0 <= i < |args[1..]| ==> args[1..][i] == args[i + 1];
      ArgValueAbsent(args[1..], findArg, pred);
    }
  }

  /** The first argument `findArg=value` wins when `pred` accepts its value. */
  lemma ArgValueFirst(args: seq<string>, findArg: string, pred: string -> bool, v: string)
    requires |args| > 0 && args[0] == findArg + "=" + v && '=' !in findArg && pred(v)
    ensures ArgValueOf(args, findArg, pred) == Some(v)
  {
    SplitAtEqualsOf(findArg, v);
  }

  /** The split finds the key again when the key holds no `=`. */
  lemma {:induction false} SplitAtEqualsOf(k: string, v: string)
    requires '=' !in k
    ensures SplitAtEquals(k + "=" + v) == (k, Some(v))
  {
    var s := k + "=" + v;
    if k == [] {
      assert s[1..] == v;
    } else {
      assert s[0] == k[0] && s[1..] == k[1..] + "=" + v;
      SplitAtEqualsOf(k[1..], v);
      assert k == [k[0]] + k[1..];
    }
  }

  /** An option given as `--sysroot a` whose value `pred` rejects swallows
      its value: the following `--sysroot=b` is read as a value, not as an
      option, so nothing is found even though `pred` accepts `b`. */
  lemma ArgValueConsumes(pred: string -> bool)
    requires !pred("--sysroot=b") && pred("b")
    ensures ArgValueOf(["--sysroot", "--sysroot=b"], "--sysroot", pred) == None
  {
    var args := ["--sysroot", "--sysroot=b"];
    assert SplitAtEquals("--sysroot").0 == "--sysroot";
    assert args[2..] == [];
  }

  /** The accept-anything predicate the driver passes for `--sysroot`. */
  function AnyValue(s: string): bool
  {
    true
  }

  /** `PathBuf::push` on Unix: an absolute part replaces the path, an empty
      path takes the part as it is, and otherwise a `/` is put between them
      unless the path already ends in one. */
  function Push(path: string, part: string): (r: string)
    ensures |part| > 0 && part[0] == '/' ==> r == part
    ensures (|part| == 0 || part[0] != '/') ==>
      (|path| + |part| <= |r| && r[..|path|] == path && r[|r| - |part|..] == part)
  {
    if |part| > 0 && part[0] == '/' then part
    else if path == [] || path[|path| - 1] == '/' then path + part
    else path + "/" + part
  }

  /** Where a sysroot can come from besides the command line. Variables
      that are unset, and a `rustc` that cannot be run or prints no UTF-8,
      are `None`. */
  datatype Environment = Environment(
    sysroot: Option<string>,              // SYSROOT when the driver runs
    rustupHome: Option<string>,           // RUSTUP_HOME when it was built
    multirustHome: Option<string>,        // MULTIRUST_HOME when it was built
    rustupToolchain: Option<string>,      // RUSTUP_TOOLCHAIN when it was built
    multirustToolchain: Option<string>,   // MULTIRUST_TOOLCHAIN when it was built
    rustcSysroot: Option<string>,         // the trimmed output of `rustc sysroot`
    builtSysroot: Option<string>)         // SYSROOT when it was built

  function OrElse(a: Option<string>, b: Option<string>): Option<string>
  {
    if a.Some? then a else b
  }

  /** `home/toolchains/toolchain` when both a home and a toolchain are known. */
  function ToolchainSysroot(env: Environment): (r: Option<string>)
    ensures r.Some? <==>
      (OrElse(env.rustupHome, env.multirustHome).Some? && OrElse(env.rustupToolchain, env.multirustToolchain).Some?)
  {
    var home := OrElse(env.rustupHome, env.multirustHome);
    var toolchain := OrElse(env.rustupToolchain, env.multirustToolchain);
    if home.Some? && toolchain.Some? then
      Some(Push(Push(home.value, "toolchains"), toolchain.value))
    else None
  }

  /** The sysroot, looked up from the most specific source to the least:
      the command line, SYSROOT, the rustup or multirust toolchain, `rustc`,
      and SYSROOT as it was when the driver was built. */
  function FindSysroot(sysRootArg: Option<string>, env: Environment): Option<string>
  {
    OrElse(sysRootArg, OrElse(env.sysroot, OrElse(ToolchainSysroot(env),
      OrElse(env.rustcSysroot, env.builtSysroot))))
  }

  /** The sysroot comes from the first source that has one. */
  lemma FindSysrootOrder(sysRootArg: Option<string>, env: Environment)
    ensures sysRootArg.Some? ==> FindSysroot(sysRootArg, env) == sysRootArg
    ensures sysRootArg.None? && env.sysroot.Some? ==> FindSysroot(sysRootArg, env) == env.sysroot
    ensures FindSysroot(sysRootArg, env).None? <==>
      sysRootArg.None? && env.sysroot.None? && ToolchainSysroot(env).None?
      && env.rustcSysroot.None? && env.builtSysroot.None?
  {
  }

  /** The position of the last `c` in `s`, if any. */
  function LastIndexOf(s: string, c: char): (r: Option<nat>)
    ensures r.None? ==> c !in s
    ensures r.Some? ==> r.value < |s| && s[r.value] == c && c !in s[r.value + 1..]
  {
    if s == [] then None
    else if s[|s| - 1] == c then Some(|s| - 1)
    else
      var r := LastIndexOf(s[..|s| - 1], c);
      assert s == s[..|s| - 1] + [s[|s| - 1]];
      if r.Some? then
        assert s[r.value + 1..] == s[..|s| - 1][r.value + 1..] + [s[|s| - 1]];
        r
      else r
  }

  /** `Path::file_name` on Unix: the last component, skipping empty and `.`
      components; `None` when that component is `..` or there is none. */
  function FileName(path: string): (r: Option<string>)
    ensures r.Some? ==> '/' !in r.value && r.value != "" && r.value != "." && r.value != ".."
    decreases |path|
  {
    match LastIndexOf(path, '/')
    case None =>
      if path == "" || path == "." || path == ".." then None else Some(path)
    case Some(i) =>
      var last := path[i + 1..];
      if last == "" || last == "." then FileName(path[..i])
      else if last == ".." then None
      else Some(last)
  }

  /** `Path::file_stem`: the file name before its last `.`, unless that `.`
      is its first character. */
  function FileStem(path: string): (r: Option<string>)
    ensures r.Some? ==>
      (FileName(path).Some? && |r.value| <= |FileName(path).value| && r.value == FileName(path).value[..|r.value|])
  {
    match FileName(path)
    case None => None
    case Some(name) =>
      match LastIndexOf(name, '.')
      case None => Some(name)
      case Some(i) => if i == 0 then Some(name) else Some(name[..i])
  }

  /** A path whose file name is `rustc`, in any directory, has stem `rustc`. */
  lemma FileStemRustc(dir: string)
    ensures FileStem(dir + "/rustc") == Some("rustc")
    ensures FileStem("rustc") == Some("rustc")
  {
    var p := dir + "/rustc";
    assert p[|dir|] == '/' && p[|dir| + 1..] == "rustc";
    assert '/' !in "rustc" && '.' !in "rustc";
  }

  /** Cargo run with `RUSTC_WRAPPER` passes `rustc` as the first argument;
      it is dropped because the compiler is called as a library. */
  function DropRustc(args: seq<string>): (r: seq<string>)
    ensures |args| > 1 && FileStem(args[1]) == Some("rustc") ==> r == args[..1] + args[2..]
    ensures !(|args| > 1 && FileStem(args[1]) == Some("rustc")) ==> r == args
  {
    if |args| > 1 && FileStem(args[1]) == Some("rustc") then args[..1] + args[2..] else args
  }

  /** What the driver does with its command line. */
  datatype Launch =
    | PrintVersion
    | RunCompiler(args: seq<string>)
    | NoSysroot

  /** `main` up to the call of the compiler. */
  function LaunchOf(origArgs: seq<string>, env: Environment): Launch
  {
    if "--version" in origArgs || "-V" in origArgs then PrintVersion
    else
      var sysRootArg := ArgValueOf(origArgs, "--sysroot", AnyValue);
      match FindSysroot(sysRootArg, env)
      case None => NoSysroot
      case Some(sysRoot) =>
        var args := DropRustc(origArgs);
        RunCompiler(if sysRootArg.Some? then args else args + ["--sysroot", sysRoot])
  }

  /** `main`: removes the `rustc` argument in place and appends the sysroot. */
  method Launcher(origArgs: seq<string>, env: Environment) returns (r: Launch)
    ensures r == LaunchOf(origArgs, env)
  {
    if "--version" in origArgs || "-V" in origArgs {
      return PrintVersion;
    }
    var args := origArgs;
    var sysRootArg := ArgValue(args, "--sysroot", AnyValue);
    var sysRoot := FindSysroot(sysRootArg, env);
    if sysRoot.None? {
      return NoSysroot;
    }
    if |args| > 1 && FileStem(args[1]) == Some("rustc") {
      args := args[..1] + args[2..];
    }
    if sysRootArg.None? {
      args := args + ["--sysroot", sysRoot.value];
    }
    return RunCompiler(args);
  }

  /** A caller that gives `--sysroot` has it passed on untouched and nothing
      appended; a caller that does not gets the found sysroot appended, or
      the driver stops when none is found. */
  lemma LaunchSysroot(origArgs: seq<string>, env: Environment)
    requires "--version" !in origArgs && "-V" !in origArgs
    ensures ArgValueOf(origArgs, "--sysroot", AnyValue).Some? ==>
      LaunchOf(origArgs, env) == RunCompiler(DropRustc(origArgs))
    ensures (forall i :: 0 <= i < |origArgs| ==> !NamesOption(origArgs[i], "--sysroot")) ==>
      (LaunchOf(origArgs, env).NoSysroot? <==> FindSysroot(None, env).None?)
      && (FindSysroot(None, env).Some? ==>
        LaunchOf(origArgs, env) == RunCompiler(DropRustc(origArgs) + ["--sysroot", FindSysroot(None, env).value]))
  {
    if forall i :: 0 <= i < |origArgs| ==> !NamesOption(origArgs[i], "--sysroot") {
      ArgValueAbsent(origArgs, "--sysroot", AnyValue);
    }
  }
}
