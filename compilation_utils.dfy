/** `check_compilation`: classifies the log of every package of the corpus
    that did not compile, by the first telling line of its log, and counts
    the failure reasons. The file system is given as values: a package
    directory says whether it holds a `success` file and, when it holds a
    `logs` file, that file's lines. */
module CompilationUtils {
  import opened Text

  /** What one log line tells. */
  datatype CheckResult = Error(reason: string) | InternalCompilerError | Ok

  const COMPILATION_FAILED: string := "Compilation failed: "
  const UNKNOWN_FAILURE: string := "unknown compilation failure"

  // ---------------------------------------------------------------------
  // `check_line`: an if-chain of substring tests, written as two tables
  // of tests tried in the chain's order.

  /** A test matches a line holding every one of its needles (or, for an
      `any` test, one of them). */
  datatype Test = Test(needles: seq<string>, any: bool, result: CheckResult)

  predicate Matches(t: Test, line: string)
  {
    if t.any then exists k :: 0 <= k < |t.needles| && Contains(line, t.needles[k])
    else forall k :: 0 <= k < |t.needles| ==> Contains(line, t.needles[k])
  }

  /** The result of the first matching test, or `default`. */
  function FirstMatch(tests: seq<Test>, line: string, default: CheckResult): CheckResult
  {
    if tests == [] then default
    else if Matches(tests[0], line) then tests[0].result
    else FirstMatch(tests[1..], line, default)
  }

  function One(needle: string, reason: string): Test
  {
    Test([needle], false, Error(reason))
  }

  /** The reasons of a "Compilation failed: " line. */
  const FAILED_TESTS: seq<Test> := [
    One("\"fetch\" \"--locked\" \"--manifest-path\" \"Cargo.toml\"` failed", "failed to fetch dependencies"),
    One("\"generate-lockfile\" \"--manifest-path\" \"Cargo.toml\"` failed", "failed to generate lockfile"),
    One("the crate depends on yanked dependencies", "crate depends on yanked dependencies"),
    One("invalid Cargo.toml syntax", "invalid Cargo.toml syntax"),
    One("missing Cargo.toml", "missing Cargo.toml"),
    One("unable to download", "unable to download package"),
    One("Client Error: 403 Forbidden", "unable to download package (403)"),
    One("Connection reset by peer (os error 104", "connection error: reset by peer")
  ]

  /** The tests of every other line; the internal compiler error markers
      come last. */
  const LINE_TESTS: seq<Test> := [
    Test(["error: aborting due to", "previous errors"], false, Error("compilation error")),
    One("error: aborting due to previous error", "compilation error"),
    One("error: failed to run custom build command for", "failed custom build command"),
    One("error: unknown crate type: `dynlib`", "unknown crate type"),
    One("(signal: 9, SIGKILL: kill)", "compilation killed"),
    One("error: multiple packages link to native library", "multiple package links"),
    One("failed to read directory", "failed to read directory"),
    One("too much data in the log, truncating it", "truncated logs"),
    One("error: failed to download", "failed to download"),
    One("error[E0557]: feature has been removed", "uses removed features"),
    One("thread 'rustc' has overflowed its stack", "rustc stack overflow"),
    Test(["error: internal compiler error", "thread 'rustc' panicked at", "corpus_extractor"], true,
         InternalCompilerError)
  ]

  /** The result is the default or the result of a matching test. */
  lemma {:induction false} FirstMatchResult(tests: seq<Test>, line: string, default: CheckResult)
    ensures FirstMatch(tests, line, default) == default ||
      exists i :: 0 <= i < |tests| && Matches(tests[i], line) && tests[i].result == FirstMatch(tests, line, default)
    ensures (forall i :: 0 <= i < |tests| ==> !Matches(tests[i], line)) ==> FirstMatch(tests, line, default) == default
  {
    if tests != [] && !Matches(tests[0], line) {
      FirstMatchResult(tests[1..], line, default);
      if exists i :: 0 <= i < |tests[1..]| && Matches(tests[1..][i], line) &&
                     tests[1..][i].result == FirstMatch(tests, line, default) {
        var i :| 0 <= i < |tests[1..]| && Matches(tests[1..][i], line) &&
                 tests[1..][i].result == FirstMatch(tests, line, default);
        assert tests[i + 1] == tests[1..][i];
      }
      if forall i :: 0 <= i < |tests| ==> !Matches(tests[i], line) {
        forall i | 0 <= i < |tests[1..]|
          ensures !Matches(tests[1..][i], line)
        {
          assert tests[1..][i] == tests[i + 1];
        }
      }
    }
  }

  /** The first matching test wins: when test `i` matches, the result is
      that of a matching test no later than `i` with no match before it. */
  lemma {:induction false} FirstMatchWins(tests: seq<Test>, line: string, default: CheckResult, i: nat)
    requires i < |tests| && Matches(tests[i], line)
    ensures exists j ::
              0 <= j <= i && Matches(tests[j], line) && tests[j].result == FirstMatch(tests, line, default) &&
              forall k :: 0 <= k < j ==> !Matches(tests[k], line)
  {
    if !Matches(tests[0], line) {
      assert tests[1..][i - 1] == tests[i];
      FirstMatchWins(tests[1..], line, default, i - 1);
      var j :| 0 <= j <= i - 1 && Matches(tests[1..][j], line) &&
        tests[1..][j].result == FirstMatch(tests, line, default) &&
        forall k :: 0 <= k < j ==> !Matches(tests[1..][k], line);
      assert tests[j + 1] == tests[1..][j];
      forall k | 0 <= k < j + 1
        ensures !Matches(tests[k], line)
      {
        if k > 0 {
          assert tests[k] == tests[1..][k - 1];
        }
      }
    }
  }

  /** `check_line`: a "Compilation failed: " line is an error with the
      reason of the first matching failure test, or "unknown compilation
      failure"; any other line takes the result of the first matching line
      test, or `Ok`. */
  function CheckLine(line: string): CheckResult
  {
    if StartsWith(line, COMPILATION_FAILED) then FirstMatch(FAILED_TESTS, line, Error(UNKNOWN_FAILURE))
    else FirstMatch(LINE_TESTS, line, Ok)
  }

  /** Every failure test gives an error; every line test but the last
      gives an error, and the last gives an internal compiler error. */
  lemma TableResults()
    ensures forall i :: 0 <= i < |FAILED_TESTS| ==> FAILED_TESTS[i].result.Error?
    ensures |LINE_TESTS| == 12 && LINE_TESTS[11].result == InternalCompilerError
    ensures forall i :: 0 <= i < 11 ==> LINE_TESTS[i].result.Error?
  {
  }

  /** The test that matches first decides the line. */
  lemma CheckLineFirstMatch(line: string, tests: seq<Test>, default: CheckResult, i: nat)
    requires (StartsWith(line, COMPILATION_FAILED) && tests == FAILED_TESTS && default == Error(UNKNOWN_FAILURE)) ||
             (!StartsWith(line, COMPILATION_FAILED) && tests == LINE_TESTS && default == Ok)
    requires i < |tests| && Matches(tests[i], line) && forall k :: 0 <= k < i ==> !Matches(tests[k], line)
    ensures CheckLine(line) == tests[i].result
  {
    FirstMatchWins(tests, line, default, i);
    var j :| 0 <= j <= i && Matches(tests[j], line) && tests[j].result == FirstMatch(tests, line, default) &&
             forall k :: 0 <= k < j ==> !Matches(tests[k], line);
    assert j == i;
  }

  /** A "Compilation failed: " line is always an error, with the unknown
      reason when no failure test matches. */
  lemma CompilationFailedIsError(line: string)
    requires StartsWith(line, COMPILATION_FAILED)
    ensures CheckLine(line).Error?
    ensures (forall i :: 0 <= i < |FAILED_TESTS| ==> !Matches(FAILED_TESTS[i], line)) ==>
      CheckLine(line) == Error(UNKNOWN_FAILURE)
  {
    FirstMatchResult(FAILED_TESTS, line, Error(UNKNOWN_FAILURE));
    TableResults();
  }

  /** An internal compiler error is reported only for a line that is not a
      "Compilation failed: " line and matches none of the error tests. */
  lemma InternalErrorOnlyAfterErrors(line: string)
    requires CheckLine(line) == InternalCompilerError
    ensures !StartsWith(line, COMPILATION_FAILED)
    ensures forall i :: 0 <= i < |LINE_TESTS| - 1 ==> !Matches(LINE_TESTS[i], line)
  {
    TableResults();
    if StartsWith(line, COMPILATION_FAILED) {
      CompilationFailedIsError(line);
    } else {
      forall i | 0 <= i < |LINE_TESTS| - 1
        ensures !Matches(LINE_TESTS[i], line)
      {
        if Matches(LINE_TESTS[i], line) {
          FirstMatchWins(LINE_TESTS, line, Ok, i);
        }
      }
    }
  }

  /** A line is `Ok` exactly when it is not a "Compilation failed: " line
      and no line test matches it. */
  lemma CheckLineOk(line: string)
    ensures CheckLine(line) == Ok <==>
      !StartsWith(line, COMPILATION_FAILED) && forall i :: 0 <= i < |LINE_TESTS| ==> !Matches(LINE_TESTS[i], line)
  {
    TableResults();
    if StartsWith(line, COMPILATION_FAILED) {
      CompilationFailedIsError(line);
    } else {
      FirstMatchResult(LINE_TESTS, line, Ok);
      forall i | 0 <= i < |LINE_TESTS|
        ensures CheckLine(line) == Ok ==> !Matches(LINE_TESTS[i], line)
      {
        if Matches(LINE_TESTS[i], line) {
          FirstMatchWins(LINE_TESTS, line, Ok, i);
        }
      }
    }
  }

  // ---------------------------------------------------------------------
  // Classifying a log and counting.

  /** The result of the first line that is not `Ok`, or `Ok`. */
  function FirstNonOk(lines: seq<string>): CheckResult
  {
    if lines == [] then Ok else if !CheckLine(lines[0]).Ok? then CheckLine(lines[0]) else FirstNonOk(lines[1..])
  }

  /** The first non-`Ok` line decides: every earlier line is `Ok`. */
  lemma {:induction false} FirstNonOkSpec(lines: seq<string>)
    ensures FirstNonOk(lines).Ok? <==> forall i :: 0 <= i < |lines| ==> CheckLine(lines[i]).Ok?
    ensures !FirstNonOk(lines).Ok? ==>
      exists i :: 0 <= i < |lines| && CheckLine(lines[i]) == FirstNonOk(lines) &&
        forall j :: 0 <= j < i ==> CheckLine(lines[j]).Ok?
  {
    if lines != [] {
      FirstNonOkSpec(lines[1..]);
      if CheckLine(lines[0]).Ok? {
        if !FirstNonOk(lines).Ok? {
          var i :| 0 <= i < |lines[1..]| && CheckLine(lines[1..][i]) == FirstNonOk(lines) &&
            forall j :: 0 <= j < i ==> CheckLine(lines[1..][j]).Ok?;
          assert lines[i + 1] == lines[1..][i];
          forall j | 0 <= j < i + 1
            ensures CheckLine(lines[j]).Ok?
          {
            if j > 0 {
              assert lines[j] == lines[1..][j - 1];
            }
          }
        } else {
          forall i | 0 <= i < |lines|
            ensures CheckLine(lines[i]).Ok?
          {
            if i > 0 {
              assert lines[i] == lines[1..][i - 1];
            }
          }
        }
      }
    }
  }

  /** The counters of `Failures`, as a value. */
  datatype FailureCounts = FailureCounts(reasons: map<string, nat>, internalErrors: seq<string>,
                                         unknownFailures: seq<string>)

  /** `update` on the counters: nothing for a missing log; otherwise the
      first non-`Ok` line of the log decides its one category. */
  function Updated(c: FailureCounts, logsFile: string, logs: seq<string>, exists_: bool): FailureCounts
  {
    if !exists_ then c
    else match FirstNonOk(logs)
      case Error(reason) =>
        c.(reasons := c.reasons[reason := (if reason in c.reasons then c.reasons[reason] else 0) + 1])
      case InternalCompilerError => c.(internalErrors := c.internalErrors + [logsFile])
      case Ok => c.(unknownFailures := c.unknownFailures + [logsFile])
  }

  class Failures {
    var failureReasons: map<string, nat>
    var internalErrors: seq<string>
    var unknownFailures: seq<string>

    function Counts(): FailureCounts
      reads this
    {
      FailureCounts(failureReasons, internalErrors, unknownFailures)
    }

    /** `Failures::new`: no reasons, no paths. */
    constructor()
      ensures Counts() == FailureCounts(map[], [], [])
    {
      failureReasons := map[];
      internalErrors := [];
      unknownFailures := [];
    }

    /** `update`: reads the log line by line and stops at the first line
        that is not `Ok`. */
    method Update(logsFile: string, logs: seq<string>, exists_: bool)
      modifies this
      ensures Counts() == Updated(old(Counts()), logsFile, logs, exists_)
    {
      if !exists_ {
        return;
      }
      var i := 0;
      while i < |logs|
        invariant i <= |logs|
        invariant FirstNonOk(logs) == FirstNonOk(logs[i..])
        invariant Counts() == old(Counts())
      {
        assert logs[i..][1..] == logs[i + 1..];
        match CheckLine(logs[i]) {
          case Error(reason) =>
            var count := if reason in failureReasons then failureReasons[reason] else 0;
            failureReasons := failureReasons[reason := count + 1];
            return;
          case InternalCompilerError =>
            internalErrors := internalErrors + [logsFile];
            return;
          case Ok =>
        }
        i := i + 1;
      }
      unknownFailures := unknownFailures + [logsFile];
    }
  }

  // ---------------------------------------------------------------------
  // `check_compilation`.

  /** A directory of the corpus: its name, whether it holds `success`, and
      the lines of its `logs` file when it holds one. */
  datatype PackageDir = PackageDir(name: string, hasSuccess: bool, hasLogs: bool, logs: seq<string>)

  const STDLIB: string := "stdlib"

  function LogsFile(p: PackageDir): string
  {
    p.name + "/logs"
  }

  /** The directories whose logs are read: not the standard library, and
      without a `success` file. */
  predicate Failed(p: PackageDir)
  {
    p.name != STDLIB && !p.hasSuccess
  }

  /** The counters after the directories in order. */
  function CountsOf(dirs: seq<PackageDir>): FailureCounts
  {
    if dirs == [] then FailureCounts(map[], [], [])
    else
      var last := dirs[|dirs| - 1];
      var c := CountsOf(dirs[..|dirs| - 1]);
      if Failed(last) then Updated(c, LogsFile(last), last.logs, last.hasLogs) else c
  }

  /** The failed directories, in order. */
  function FailedDirs(dirs: seq<PackageDir>): seq<string>
  {
    if dirs == [] then []
    else FailedDirs(dirs[..|dirs| - 1]) + if Failed(dirs[|dirs| - 1]) then [dirs[|dirs| - 1].name] else []
  }

  /** `check_compilation`: returns the counters (the report prints them)
      and the directories it deletes when asked to. */
  method CheckCompilation(dirs: seq<PackageDir>, deleteFailures: bool) returns (f: Failures, deleted: seq<string>)
    ensures f.Counts() == CountsOf(dirs)
    ensures deleted == if deleteFailures then FailedDirs(dirs) else []
  {
    f := new Failures();
    deleted := [];
    var i := 0;
    while i < |dirs|
      invariant i <= |dirs|
      invariant f.Counts() == CountsOf(dirs[..i])
      invariant deleted == if deleteFailures then FailedDirs(dirs[..i]) else []
    {
      var p := dirs[i];
      assert dirs[..i + 1][..i] == dirs[..i];
      if p.name == STDLIB {
        i := i + 1;
        continue;
      }
      if !p.hasSuccess {
        f.Update(LogsFile(p), p.logs, p.hasLogs);
        if deleteFailures {
          deleted := deleted + [p.name];
        }
      }
      i := i + 1;
    }
    assert dirs[..i] == dirs;
  }

  /** The log paths of the failed directories with a log in a category. */
  function LogsIn(dirs: seq<PackageDir>, category: CheckResult): seq<string>
  {
    if dirs == [] then []
    else
      var last := dirs[|dirs| - 1];
      LogsIn(dirs[..|dirs| - 1], category) +
      if Failed(last) && last.hasLogs && FirstNonOk(last.logs) == category then [LogsFile(last)] else []
  }

  function CountIn(dirs: seq<PackageDir>, category: CheckResult): nat
  {
    |LogsIn(dirs, category)|
  }

  /** Every failed directory with a log lands in exactly one category: the
      internal errors and unknown failures are the logs so classified, in
      order, and each reason counts the logs whose first telling line gives
      that reason. The standard library and compiled packages are never
      counted. */
  lemma {:induction false} CountsOfSpec(dirs: seq<PackageDir>, reason: string)
    ensures CountsOf(dirs).internalErrors == LogsIn(dirs, InternalCompilerError)
    ensures CountsOf(dirs).unknownFailures == LogsIn(dirs, Ok)
    ensures (if reason in CountsOf(dirs).reasons then CountsOf(dirs).reasons[reason] else 0) ==
      CountIn(dirs, Error(reason))
  {
    if dirs != [] {
      var init := dirs[..|dirs| - 1];
      var last := dirs[|dirs| - 1];
      CountsOfSpec(init, reason);
      if !(Failed(last) && last.hasLogs) {
        assert LogsIn(dirs, InternalCompilerError) == LogsIn(init, InternalCompilerError) + [];
        assert LogsIn(dirs, Ok) == LogsIn(init, Ok) + [];
        assert LogsIn(dirs, Error(reason)) == LogsIn(init, Error(reason)) + [];
      } else {
        var k := FirstNonOk(last.logs);
        if k != InternalCompilerError {
          assert LogsIn(dirs, InternalCompilerError) == LogsIn(init, InternalCompilerError) + [];
        }
        if k != Ok {
          assert LogsIn(dirs, Ok) == LogsIn(init, Ok) + [];
        }
        if k != Error(reason) {
          assert LogsIn(dirs, Error(reason)) == LogsIn(init, Error(reason)) + [];
        }
      }
    }
  }

  /** A package whose directory holds `success`, and the standard library,
      change nothing; a failed package without a log changes nothing. */
  lemma CountsOfSkips(dirs: seq<PackageDir>, p: PackageDir)
    requires !Failed(p) || !p.hasLogs
    ensures CountsOf(dirs + [p]) == CountsOf(dirs)
  {
    assert (dirs + [p])[..|dirs + [p]| - 1] == dirs;
  }
}
