/** Selection of the builds to analyse. Build scripts are set aside; a
    build whose output file was recorded in its own package directory is
    selected, one per (package, crate, crate types); and packages of the
    original list that were only compiled as dependencies contribute their
    first candidate build per key. The `files.json` listing, the crates
    list and the interned strings are inputs. */
module PrepareBuilds {
  import opened Wrappers
  import opened Text
  import opened QueryUtils

  /** A build with its interned ids already resolved to strings. */
  datatype BuildRecord = BuildRecord(build: nat, package: string, version: string, krate: string, crateHash: nat, edition: string)

  /** A selected or candidate build with its rendered crate types. */
  datatype BuildRow = BuildRow(record: BuildRecord, crateTypes: string)

  /** What a build is deduplicated by: package, crate and crate types. */
  type Key = (string, string, string)

  /** The query's inputs: the `build_crate_types` relation, the recorded
      (package directory, file) pairs and the original (name, version) list. */
  datatype Env = Env(crateTypes: seq<(nat, string)>, files: set<(string, string)>, crates: seq<(string, string)>)

  function Original(env: Env): set<(string, string)>
  {
    set c | c in env.crates
  }

  function Names(env: Env): set<string>
  {
    set c | c in env.crates :: c.0
  }

  predicate IsBuildScript(b: BuildRecord)
  {
    StartsWith(b.krate, "build_script_")
  }

  function Seconds(pairs: seq<(nat, string)>): seq<string>
  {
    if pairs == [] then [] else [pairs[0].1] + Seconds(pairs[1..])
  }

  /** The build's crate types, sorted and joined with ", ". */
  function CrateTypesText(rel: seq<(nat, string)>, build: nat): string
  {
    Join(SortStrings(Seconds(KeyFilter(rel, (p: (nat, string)) => p.0, build))), ", ")
  }

  /** `<package>-<version>` and `<crate>_<hash>.bincode`. */
  function FileOf(b: BuildRecord): (string, string)
  {
    (b.package + "-" + b.version, b.krate + "_" + Hex(b.crateHash) + ".bincode")
  }

  function RowOf(env: Env, b: BuildRecord): BuildRow
  {
    BuildRow(b, CrateTypesText(env.crateTypes, b.build))
  }

  function RowKey(r: BuildRow): Key
  {
    (r.record.package, r.record.krate, r.crateTypes)
  }

  function KeyOf(env: Env, b: BuildRecord): Key
  {
    RowKey(RowOf(env, b))
  }

  /** A build taken in the first pass: not a build script, and its file was
      recorded in its own package directory. */
  predicate Eligible(env: Env, b: BuildRecord)
  {
    !IsBuildScript(b) && FileOf(b) in env.files
  }

  /** Duplicates that are expected and not counted as drops. */
  predicate Excused(r: BuildRow)
  {
    r.crateTypes == "proc-macro" || (r.record.package == "charmhelpers" && r.record.version == "0.1.3")
  }

  // ---------------------------------------------------------------------
  // The first pass as a fold over the builds.

  datatype Pass1 = Pass1(scripts: seq<BuildRecord>, selected: seq<BuildRow>, candidates: seq<BuildRow>,
                         included: set<Key>, chosen: map<string, bool>, drops: nat)

  function Start1(env: Env): Pass1
  {
    Pass1([], [], [], {}, map p | p in Names(env) :: false, 0)
  }

  function Step1(env: Env, st: Pass1, b: BuildRecord): Result<Pass1, string>
  {
    if IsBuildScript(b) then Ok(st.(scripts := st.scripts + [b]))
    else
      var row := RowOf(env, b);
      if FileOf(b) !in env.files then Ok(st.(candidates := st.candidates + [row]))
      else if b.package !in st.chosen then Err("called `Option::unwrap()` on a `None` value")
      else if (b.package, b.version) !in Original(env) then Err("Including unexpected package version")
      else if RowKey(row) in st.included then Ok(st.(drops := st.drops + if Excused(row) then 0 else 1))
      else Ok(st.(included := st.included + {RowKey(row)}, selected := st.selected + [row],
                  chosen := st.chosen[b.package := true]))
  }

  function Pass1Of(env: Env, bs: seq<BuildRecord>): Result<Pass1, string>
  {
    if bs == [] then Ok(Start1(env))
    else
      match Pass1Of(env, bs[..|bs| - 1])
      case Err(e) => Err(e)
      case Ok(st) => Step1(env, st, bs[|bs| - 1])
  }

  // ---------------------------------------------------------------------
  // The second pass over the candidates.

  datatype Pass2 = Pass2(selected: seq<BuildRow>, included: set<Key>, taken: set<Key>)

  function Step2(env: Env, st: Pass2, row: BuildRow): Pass2
  {
    if (row.record.package, row.record.version) !in Original(env) then st
    else if RowKey(row) in st.taken then st
    else if RowKey(row) !in st.included then
      Pass2(st.selected + [row], st.included + {RowKey(row)}, st.taken + {RowKey(row)})
    else st
  }

  function Pass2Of(env: Env, st: Pass2, rows: seq<BuildRow>): Pass2
  {
    if rows == [] then st else Step2(env, Pass2Of(env, st, rows[..|rows| - 1]), rows[|rows| - 1])
  }

  /** What the query stores and reports. */
  datatype Outcome = Outcome(selected: seq<BuildRow>, scripts: seq<BuildRecord>, chosenCount: nat, notChosenCount: nat)

  function CountChosen(chosen: map<string, bool>, value: bool): nat
  {
    |set p | p in chosen && chosen[p] == value|
  }

  /** The whole query: the first pass, the duplicate check, the second pass
      and the package counts. */
  function QuerySpec(env: Env, builds: seq<BuildRecord>): Result<Outcome, string>
  {
    match Pass1Of(env, builds)
    case Err(e) => Err(e)
    case Ok(p1) =>
      if p1.drops != 0 then Err("There were duplicates!")
      else
        var p2 := Pass2Of(env, Pass2(p1.selected, p1.included, {}), p1.candidates);
        Ok(Outcome(p2.selected, p1.scripts, CountChosen(p1.chosen, true), CountChosen(p1.chosen, false)))
  }

  /** `query`, as the source runs it: a loop over the builds, a check, a
      loop over the candidates and a loop over the packages. */
  method Query(env: Env, builds: seq<BuildRecord>) returns (r: Result<Outcome, string>)
    ensures r == QuerySpec(env, builds)
  {
    var p1 := FirstPass(env, builds);
    if p1.Err? {
      return Err(p1.error);
    }
    if p1.value.drops != 0 {
      return Err("There were duplicates!");
    }
    var p2 := SecondPass(env, p1.value.selected, p1.value.included, p1.value.candidates);
    var chosenCount, notChosenCount := CountPackages(p1.value.chosen);
    r := Ok(Outcome(p2.selected, p1.value.scripts, chosenCount, notChosenCount));
  }

  /** The loop over all builds. */
  method FirstPass(env: Env, builds: seq<BuildRecord>) returns (r: Result<Pass1, string>)
    ensures r == Pass1Of(env, builds)
  {
    var scripts: seq<BuildRecord> := [];
    var selected: seq<BuildRow> := [];
    var candidates: seq<BuildRow> := [];
    var included: set<Key> := {};
    var chosen: map<string, bool> := map p | p in Names(env) :: false;
    var drops := 0;
    var i := 0;
    while i < |builds|
      invariant 0 <= i <= |builds|
      invariant Pass1Of(env, builds[..i]) == Ok(Pass1(scripts, selected, candidates, included, chosen, drops))
    {
      var b := builds[i];
      assert builds[..i + 1][..i] == builds[..i];
      if IsBuildScript(b) {
        scripts := scripts + [b];
      } else {
        var row := RowOf(env, b);
        if FileOf(b) in env.files {
          if b.package !in chosen {
            FirstPassStops(env, builds, i + 1);
            assert builds[..|builds|] == builds;
            return Err("called `Option::unwrap()` on a `None` value");
          }
          if (b.package, b.version) !in Original(env) {
            FirstPassStops(env, builds, i + 1);
            assert builds[..|builds|] == builds;
            return Err("Including unexpected package version");
          }
          if RowKey(row) !in included {
            included := included + {RowKey(row)};
            selected := selected + [row];
            chosen := chosen[b.package := true];
          } else if !Excused(row) {
            drops := drops + 1;
          }
        } else {
          candidates := candidates + [row];
        }
      }
      i := i + 1;
    }
    assert builds[..i] == builds;
    r := Ok(Pass1(scripts, selected, candidates, included, chosen, drops));
  }

  /** The loop over the candidates, with the `taken_candidates` set. */
  method SecondPass(env: Env, selected0: seq<BuildRow>, included0: set<Key>, candidates: seq<BuildRow>) returns (r: Pass2)
    ensures r == Pass2Of(env, Pass2(selected0, included0, {}), candidates)
  {
    var selected, included := selected0, included0;
    var taken: set<Key> := {};
    var j := 0;
    while j < |candidates|
      invariant 0 <= j <= |candidates|
      invariant Pass2Of(env, Pass2(selected0, included0, {}), candidates[..j]) == Pass2(selected, included, taken)
    {
      var row := candidates[j];
      assert candidates[..j + 1][..j] == candidates[..j];
      if (row.record.package, row.record.version) in Original(env) && RowKey(row) !in taken && RowKey(row) !in included {
        included := included + {RowKey(row)};
        taken := taken + {RowKey(row)};
        selected := selected + [row];
      }
      j := j + 1;
    }
    assert candidates[..j] == candidates;
    r := Pass2(selected, included, taken);
  }

  /** The final loop over the packages' flags. */
  method CountPackages(chosen: map<string, bool>) returns (yes: nat, no: nat)
    ensures yes == CountChosen(chosen, true) && no == CountChosen(chosen, false)
  {
    yes, no := 0, 0;
    var remaining := chosen.Keys;
    while remaining != {}
      invariant remaining <= chosen.Keys
      invariant yes == |set p | p in chosen && p !in remaining && chosen[p]|
      invariant no == |set p | p in chosen && p !in remaining && !chosen[p]|
      decreases |remaining|
    {
      var p :| p in remaining;
      var doneYes := set q | q in chosen && q !in remaining && chosen[q];
      var doneNo := set q | q in chosen && q !in remaining && !chosen[q];
      if chosen[p] {
        assert (set q | q in chosen && q !in remaining - {p} && chosen[q]) == doneYes + {p};
        assert (set q | q in chosen && q !in remaining - {p} && !chosen[q]) == doneNo;
        yes := yes + 1;
      } else {
        assert (set q | q in chosen && q !in remaining - {p} && chosen[q]) == doneYes;
        assert (set q | q in chosen && q !in remaining - {p} && !chosen[q]) == doneNo + {p};
        no := no + 1;
      }
      remaining := remaining - {p};
    }
    assert (set q | q in chosen && q !in remaining && chosen[q]) == (set q | q in chosen && chosen[q] == true);
    assert (set q | q in chosen && q !in remaining && !chosen[q]) == (set q | q in chosen && chosen[q] == false);
  }

  /** Once the first pass fails it stays failed. */
  lemma {:induction false} FirstPassStops(env: Env, bs: seq<BuildRecord>, n: nat)
    requires 0 < n <= |bs| && Pass1Of(env, bs[..n]).Err?
    ensures Pass1Of(env, bs) == Pass1Of(env, bs[..n])
    decreases |bs| - n
  {
    if n < |bs| {
      assert bs[..n + 1][..n] == bs[..n];
      FirstPassStops(env, bs, n + 1);
    } else {
      assert bs[..n] == bs;
    }
  }

  // ---------------------------------------------------------------------
  // Reference definitions of what the first pass computes.

  /** The build scripts, in input order. */
  function ScriptsOf(bs: seq<BuildRecord>): seq<BuildRecord>
  {
    if bs == [] then [] else ScriptsOf(bs[..|bs| - 1]) + if IsBuildScript(bs[|bs| - 1]) then [bs[|bs| - 1]] else []
  }

  /** The rows of the builds that are neither build scripts nor recorded. */
  function CandidatesOf(env: Env, bs: seq<BuildRecord>): seq<BuildRow>
  {
    if bs == [] then []
    else
      var b := bs[|bs| - 1];
      CandidatesOf(env, bs[..|bs| - 1]) + if !IsBuildScript(b) && FileOf(b) !in env.files then [RowOf(env, b)] else []
  }

  /** Build `j` is eligible and no earlier eligible build has its key. */
  predicate IsFirstOfKey(env: Env, bs: seq<BuildRecord>, j: nat)
    requires j < |bs|
  {
    Eligible(env, bs[j]) &&
    forall i :: 0 <= i < j ==> !(Eligible(env, bs[i]) && KeyOf(env, bs[i]) == KeyOf(env, bs[j]))
  }

  /** The rows of the builds that come first with their key. */
  function FirstOfKeys(env: Env, bs: seq<BuildRecord>): seq<BuildRow>
  {
    if bs == [] then []
    else FirstOfKeys(env, bs[..|bs| - 1]) + if IsFirstOfKey(env, bs, |bs| - 1) then [RowOf(env, bs[|bs| - 1])] else []
  }

  function EligibleKeys(env: Env, bs: seq<BuildRecord>): set<Key>
  {
    set i | 0 <= i < |bs| && Eligible(env, bs[i]) :: KeyOf(env, bs[i])
  }

  function RowKeys(rows: seq<BuildRow>): set<Key>
  {
    set r | r in rows :: RowKey(r)
  }

  predicate DistinctKeys(rows: seq<BuildRow>)
  {
    forall a, b :: 0 <= a < b < |rows| ==> RowKey(rows[a]) != RowKey(rows[b])
  }

  lemma IsFirstOfKeyPrefix(env: Env, bs: seq<BuildRecord>, k: nat, j: nat)
    requires j < k <= |bs|
    ensures IsFirstOfKey(env, bs, j) == IsFirstOfKey(env, bs[..k], j)
  {
    assert forall i :: 0 <= i <= j ==> bs[..k][i] == bs[i];
  }

  lemma EligibleKeysSnoc(env: Env, bs: seq<BuildRecord>)
    requires bs != []
    ensures EligibleKeys(env, bs) ==
      EligibleKeys(env, bs[..|bs| - 1]) + if Eligible(env, bs[|bs| - 1]) then {KeyOf(env, bs[|bs| - 1])} else {}
  {
    var init := bs[..|bs| - 1];
    forall key | key in EligibleKeys(env, bs)
      ensures key in EligibleKeys(env, init) + if Eligible(env, bs[|bs| - 1]) then {KeyOf(env, bs[|bs| - 1])} else {}
    {
      var i :| 0 <= i < |bs| && Eligible(env, bs[i]) && KeyOf(env, bs[i]) == key;
      if i < |init| {
        assert init[i] == bs[i];
      }
    }
    forall key | key in EligibleKeys(env, init)
      ensures key in EligibleKeys(env, bs)
    {
      var i :| 0 <= i < |init| && Eligible(env, init[i]) && KeyOf(env, init[i]) == key;
      assert bs[i] == init[i];
    }
  }

  /** Whether the last build comes first with its key is decided by the
      keys of the eligible builds before it. */
  lemma IsFirstOfKeyLast(env: Env, bs: seq<BuildRecord>)
    requires bs != []
    ensures IsFirstOfKey(env, bs, |bs| - 1) <==>
      Eligible(env, bs[|bs| - 1]) && KeyOf(env, bs[|bs| - 1]) !in EligibleKeys(env, bs[..|bs| - 1])
  {
    var init := bs[..|bs| - 1];
    var b := bs[|bs| - 1];
    if Eligible(env, b) && KeyOf(env, b) in EligibleKeys(env, init) {
      var i :| 0 <= i < |init| && Eligible(env, init[i]) && KeyOf(env, init[i]) == KeyOf(env, b);
      assert bs[i] == init[i];
    }
    if Eligible(env, b) && !IsFirstOfKey(env, bs, |bs| - 1) {
      var i :| 0 <= i < |bs| - 1 && Eligible(env, bs[i]) && KeyOf(env, bs[i]) == KeyOf(env, b);
      assert init[i] == bs[i];
    }
  }

  /** A package is flagged exactly when one of the rows names it. */
  ghost predicate ChosenMatches(chosen: map<string, bool>, selected: seq<BuildRow>)
  {
    forall p :: p in chosen ==> (chosen[p] <==> exists k :: 0 <= k < |selected| && selected[k].record.package == p)
  }

  lemma ChosenStep(chosen: map<string, bool>, selected: seq<BuildRow>, row: BuildRow)
    requires ChosenMatches(chosen, selected)
    ensures ChosenMatches(chosen[row.record.package := true], selected + [row])
  {
    var all := selected + [row];
    var flags := chosen[row.record.package := true];
    forall p | p in flags
      ensures flags[p] <==> exists k :: 0 <= k < |all| && all[k].record.package == p
    {
      if p == row.record.package {
        assert all[|selected|] == row;
      } else {
        if exists k :: 0 <= k < |selected| && selected[k].record.package == p {
          var k :| 0 <= k < |selected| && selected[k].record.package == p;
          assert all[k] == selected[k];
        }
        if exists k :: 0 <= k < |all| && all[k].record.package == p {
          var k :| 0 <= k < |all| && all[k].record.package == p;
          assert k < |selected| && selected[k] == all[k];
        }
      }
    }
  }

  /** The first pass keeps the package flags of the original list, and a
      package is flagged exactly when one of its builds was selected. */
  lemma {:induction false} FirstPassChosen(env: Env, bs: seq<BuildRecord>)
    requires Pass1Of(env, bs).Ok?
    ensures Pass1Of(env, bs).value.chosen.Keys == Names(env)
    ensures ChosenMatches(Pass1Of(env, bs).value.chosen, Pass1Of(env, bs).value.selected)
  {
    if bs != [] {
      var init := bs[..|bs| - 1];
      var b := bs[|bs| - 1];
      FirstPassChosen(env, init);
      var prev := Pass1Of(env, init).value;
      var st := Pass1Of(env, bs).value;
      if st.selected != prev.selected {
        assert st.selected == prev.selected + [RowOf(env, b)];
        assert st.chosen == prev.chosen[b.package := true];
        ChosenStep(prev.chosen, prev.selected, RowOf(env, b));
      }
    }
  }

  /** One step fails exactly when the build is recorded but its package
      version is not in the original list. */
  lemma StepFails(env: Env, st: Pass1, b: BuildRecord)
    requires st.chosen.Keys == Names(env)
    ensures Step1(env, st, b).Err? <==> Eligible(env, b) && (b.package, b.version) !in Original(env)
  {
    if (b.package, b.version) in Original(env) {
      assert b.package in Names(env);
    }
  }

  /** The first pass fails exactly when a recorded build's package version
      is not in the original list (the source's `unwrap` and assertion). */
  lemma {:induction false} FirstPassFails(env: Env, bs: seq<BuildRecord>)
    ensures Pass1Of(env, bs).Err? <==>
      exists j :: 0 <= j < |bs| && Eligible(env, bs[j]) && (bs[j].package, bs[j].version) !in Original(env)
  {
    if bs != [] {
      var init := bs[..|bs| - 1];
      var b := bs[|bs| - 1];
      FirstPassFails(env, init);
      if Pass1Of(env, init).Err? {
        var j :| 0 <= j < |init| && Eligible(env, init[j]) && (init[j].package, init[j].version) !in Original(env);
        assert bs[j] == init[j];
      } else {
        FirstPassChosen(env, init);
        StepFails(env, Pass1Of(env, init).value, b);
        if exists j :: 0 <= j < |bs| && Eligible(env, bs[j]) && (bs[j].package, bs[j].version) !in Original(env) {
          var j :| 0 <= j < |bs| && Eligible(env, bs[j]) && (bs[j].package, bs[j].version) !in Original(env);
          if j < |init| {
            assert init[j] == bs[j];
          }
        }
      }
    }
  }

  /** The build scripts are set aside, in order. */
  lemma {:induction false} FirstPassScripts(env: Env, bs: seq<BuildRecord>)
    requires Pass1Of(env, bs).Ok?
    ensures Pass1Of(env, bs).value.scripts == ScriptsOf(bs)
    ensures Pass1Of(env, bs).value.candidates == CandidatesOf(env, bs)
  {
    if bs != [] {
      FirstPassScripts(env, bs[..|bs| - 1]);
    }
  }

  /** The first pass selects, in input order, each eligible build that comes
      first with its key; the included keys are exactly the eligible builds'
      keys and no two selected rows share a key. */
  lemma {:induction false} FirstPassSelects(env: Env, bs: seq<BuildRecord>)
    requires Pass1Of(env, bs).Ok?
    ensures Pass1Of(env, bs).value.selected == FirstOfKeys(env, bs)
    ensures Pass1Of(env, bs).value.included == EligibleKeys(env, bs) == RowKeys(FirstOfKeys(env, bs))
    ensures DistinctKeys(FirstOfKeys(env, bs))
  {
    if bs != [] {
      var init := bs[..|bs| - 1];
      var b := bs[|bs| - 1];
      FirstPassSelects(env, init);
      EligibleKeysSnoc(env, bs);
      IsFirstOfKeyLast(env, bs);
      var rows := FirstOfKeys(env, init);
      if IsFirstOfKey(env, bs, |bs| - 1) {
        var all := rows + [RowOf(env, b)];
        assert RowKeys(all) == RowKeys(rows) + {KeyOf(env, b)};
        forall a, c | 0 <= a < c < |all|
          ensures RowKey(all[a]) != RowKey(all[c])
        {
          if c == |rows| {
            assert all[a] in rows;
          }
        }
      }
    }
  }

  /** Every eligible build that is not first with its key is an excused
      duplicate. */
  ghost predicate AllExcused(env: Env, bs: seq<BuildRecord>) {
    forall j :: 0 <= j < |bs| && Eligible(env, bs[j]) && !IsFirstOfKey(env, bs, j) ==> Excused(RowOf(env, bs[j]))
  }

  /** The last build is an eligible duplicate that is not excused. */
  predicate CountedLast(env: Env, bs: seq<BuildRecord>)
    requires bs != []
  {
    Eligible(env, bs[|bs| - 1]) && !IsFirstOfKey(env, bs, |bs| - 1) && !Excused(RowOf(env, bs[|bs| - 1]))
  }

  /** The duplicate count is zero exactly when every eligible build that is
      not first with its key is an excused duplicate. */
  lemma {:induction false} FirstPassDrops(env: Env, bs: seq<BuildRecord>)
    requires Pass1Of(env, bs).Ok?
    ensures Pass1Of(env, bs).value.drops == 0 <==>
      forall j :: 0 <= j < |bs| && Eligible(env, bs[j]) && !IsFirstOfKey(env, bs, j) ==> Excused(RowOf(env, bs[j]))
  {
    if bs != [] {
      FirstPassDrops(env, bs[..|bs| - 1]);
      DropsStep(env, bs);
      AllExcusedStep(env, bs);
    }
  }

  /** The first pass counts the last build as a drop exactly when it is an
      eligible duplicate that is not excused. */
  lemma DropsStep(env: Env, bs: seq<BuildRecord>)
    requires bs != [] && Pass1Of(env, bs).Ok?
    ensures Pass1Of(env, bs[..|bs| - 1]).Ok?
    ensures Pass1Of(env, bs).value.drops == Pass1Of(env, bs[..|bs| - 1]).value.drops + if CountedLast(env, bs) then 1 else 0
  {
    FirstPassSelects(env, bs[..|bs| - 1]);
    IsFirstOfKeyLast(env, bs);
  }

  lemma AllExcusedStep(env: Env, bs: seq<BuildRecord>)
    requires bs != []
    ensures AllExcused(env, bs) <==> AllExcused(env, bs[..|bs| - 1]) && !CountedLast(env, bs)
  {
    var n := |bs| - 1;
    var init := bs[..n];
    forall j | 0 <= j < n
      ensures IsFirstOfKey(env, bs, j) == IsFirstOfKey(env, init, j) && bs[j] == init[j]
    {
      IsFirstOfKeyPrefix(env, bs, n, j);
    }
  }

  // ---------------------------------------------------------------------
  // Reference definitions of what the second pass adds.

  predicate InOriginal(env: Env, r: BuildRow)
  {
    (r.record.package, r.record.version) in Original(env)
  }

  /** Candidate `j` is from the original list, its key was not included by
      the first pass, and no earlier such candidate has its key. */
  predicate IsNewCandidate(env: Env, included: set<Key>, rows: seq<BuildRow>, j: nat)
    requires j < |rows|
  {
    InOriginal(env, rows[j]) && RowKey(rows[j]) !in included &&
    forall i :: 0 <= i < j ==> !(InOriginal(env, rows[i]) && RowKey(rows[i]) == RowKey(rows[j]))
  }

  function NewCandidates(env: Env, included: set<Key>, rows: seq<BuildRow>): seq<BuildRow>
  {
    if rows == [] then []
    else NewCandidates(env, included, rows[..|rows| - 1]) + if IsNewCandidate(env, included, rows, |rows| - 1) then [rows[|rows| - 1]] else []
  }

  function OriginalKeys(env: Env, rows: seq<BuildRow>): set<Key>
  {
    set i | 0 <= i < |rows| && InOriginal(env, rows[i]) :: RowKey(rows[i])
  }

  lemma OriginalKeysSnoc(env: Env, rows: seq<BuildRow>)
    requires rows != []
    ensures OriginalKeys(env, rows) ==
      OriginalKeys(env, rows[..|rows| - 1]) + if InOriginal(env, rows[|rows| - 1]) then {RowKey(rows[|rows| - 1])} else {}
  {
    var init := rows[..|rows| - 1];
    forall key | key in OriginalKeys(env, rows)
      ensures key in OriginalKeys(env, init) + if InOriginal(env, rows[|rows| - 1]) then {RowKey(rows[|rows| - 1])} else {}
    {
      var i :| 0 <= i < |rows| && InOriginal(env, rows[i]) && RowKey(rows[i]) == key;
      if i < |init| {
        assert init[i] == rows[i];
      }
    }
    forall key | key in OriginalKeys(env, init)
      ensures key in OriginalKeys(env, rows)
    {
      var i :| 0 <= i < |init| && InOriginal(env, init[i]) && RowKey(init[i]) == key;
      assert rows[i] == init[i];
    }
  }

  lemma IsNewCandidateLast(env: Env, included: set<Key>, rows: seq<BuildRow>)
    requires rows != []
    ensures IsNewCandidate(env, included, rows, |rows| - 1) <==>
      InOriginal(env, rows[|rows| - 1]) && RowKey(rows[|rows| - 1]) !in included + OriginalKeys(env, rows[..|rows| - 1])
  {
    var init := rows[..|rows| - 1];
    var r := rows[|rows| - 1];
    if InOriginal(env, r) && RowKey(r) in OriginalKeys(env, init) {
      var i :| 0 <= i < |init| && InOriginal(env, init[i]) && RowKey(init[i]) == RowKey(r);
      assert rows[i] == init[i];
    }
    if InOriginal(env, r) && RowKey(r) !in included && !IsNewCandidate(env, included, rows, |rows| - 1) {
      var i :| 0 <= i < |rows| - 1 && InOriginal(env, rows[i]) && RowKey(rows[i]) == RowKey(r);
      assert init[i] == rows[i];
    }
  }

  /** The second pass appends, in candidate order, each candidate from the
      original list whose key is new; the `taken_candidates` test never
      decides anything because taken keys are always included keys. */
  lemma {:induction false} SecondPassSelects(env: Env, selected: seq<BuildRow>, included: set<Key>, rows: seq<BuildRow>)
    requires RowKeys(selected) == included
    ensures var p := Pass2Of(env, Pass2(selected, included, {}), rows);
      p.selected == selected + NewCandidates(env, included, rows) &&
      p.included == included + OriginalKeys(env, rows) == RowKeys(p.selected) &&
      p.taken <= p.included
  {
    if rows == [] {
      assert selected + [] == selected;
    } else {
      var init := rows[..|rows| - 1];
      var r := rows[|rows| - 1];
      SecondPassSelects(env, selected, included, init);
      OriginalKeysSnoc(env, rows);
      IsNewCandidateLast(env, included, rows);
      var prev := Pass2Of(env, Pass2(selected, included, {}), init);
      if IsNewCandidate(env, included, rows, |rows| - 1) {
        assert RowKeys(prev.selected + [r]) == RowKeys(prev.selected) + {RowKey(r)};
      }
    }
  }

  /** The rows the second pass adds have distinct keys, none of them among
      the keys already included. */
  lemma {:induction false} NewCandidatesDistinct(env: Env, included: set<Key>, rows: seq<BuildRow>)
    ensures DistinctKeys(NewCandidates(env, included, rows))
    ensures forall k :: 0 <= k < |NewCandidates(env, included, rows)| ==>
      RowKey(NewCandidates(env, included, rows)[k]) !in included &&
      RowKey(NewCandidates(env, included, rows)[k]) in OriginalKeys(env, rows)
  {
    if rows != [] {
      var init := rows[..|rows| - 1];
      var r := rows[|rows| - 1];
      NewCandidatesDistinct(env, included, init);
      OriginalKeysSnoc(env, rows);
      IsNewCandidateLast(env, included, rows);
      var prev := NewCandidates(env, included, init);
      if IsNewCandidate(env, included, rows, |rows| - 1) {
        var all := prev + [r];
        forall a, c | 0 <= a < c < |all|
          ensures RowKey(all[a]) != RowKey(all[c])
        {
          if c == |prev| {
            assert all[a] == prev[a];
          }
        }
      }
    }
  }

  lemma DistinctKeysAppend(a: seq<BuildRow>, b: seq<BuildRow>)
    requires DistinctKeys(a) && DistinctKeys(b)
    requires forall k :: 0 <= k < |b| ==> RowKey(b[k]) !in RowKeys(a)
    ensures DistinctKeys(a + b)
  {
    var all := a + b;
    forall i, j | 0 <= i < j < |all|
      ensures RowKey(all[i]) != RowKey(all[j])
    {
      if i < |a| && j >= |a| {
        assert all[i] in a;
        assert all[j] == b[j - |a|];
      } else if i >= |a| {
        assert all[i] == b[i - |a|] && all[j] == b[j - |a|];
      }
    }
  }

  lemma {:induction false} FirstOfKeysMember(env: Env, bs: seq<BuildRecord>, r: BuildRow)
    requires r in FirstOfKeys(env, bs)
    ensures exists j :: 0 <= j < |bs| && Eligible(env, bs[j]) && r == RowOf(env, bs[j])
  {
    var init := bs[..|bs| - 1];
    if r in FirstOfKeys(env, init) {
      FirstOfKeysMember(env, init, r);
      var j :| 0 <= j < |init| && Eligible(env, init[j]) && r == RowOf(env, init[j]);
      assert bs[j] == init[j];
    }
  }

  lemma {:induction false} CandidatesOfMember(env: Env, bs: seq<BuildRecord>, r: BuildRow)
    requires r in CandidatesOf(env, bs)
    ensures exists j :: 0 <= j < |bs| && !IsBuildScript(bs[j]) && r == RowOf(env, bs[j])
  {
    var init := bs[..|bs| - 1];
    if r in CandidatesOf(env, init) {
      CandidatesOfMember(env, init, r);
      var j :| 0 <= j < |init| && !IsBuildScript(init[j]) && r == RowOf(env, init[j]);
      assert bs[j] == init[j];
    }
  }

  lemma {:induction false} CandidatesOfHas(env: Env, bs: seq<BuildRecord>, j: nat)
    requires j < |bs| && !IsBuildScript(bs[j]) && FileOf(bs[j]) !in env.files
    ensures RowOf(env, bs[j]) in CandidatesOf(env, bs)
  {
    var init := bs[..|bs| - 1];
    if j < |init| {
      assert init[j] == bs[j];
      CandidatesOfHas(env, init, j);
    }
  }

  lemma {:induction false} NewCandidatesMember(env: Env, included: set<Key>, rows: seq<BuildRow>, r: BuildRow)
    requires r in NewCandidates(env, included, rows)
    ensures r in rows && InOriginal(env, r)
  {
    var init := rows[..|rows| - 1];
    if r in NewCandidates(env, included, init) {
      NewCandidatesMember(env, included, init, r);
    }
  }

  // ---------------------------------------------------------------------
  // What the whole query promises.

  /** The query fails exactly when a recorded build's package version is
      not in the original list, or when an eligible build duplicates an
      earlier one's key without being an expected duplicate. */
  lemma QueryFails(env: Env, builds: seq<BuildRecord>)
    ensures QuerySpec(env, builds).Err? <==>
      (exists j :: 0 <= j < |builds| && Eligible(env, builds[j]) && (builds[j].package, builds[j].version) !in Original(env)) ||
      (exists j :: 0 <= j < |builds| && Eligible(env, builds[j]) && !IsFirstOfKey(env, builds, j) && !Excused(RowOf(env, builds[j])))
  {
    FirstPassFails(env, builds);
    if Pass1Of(env, builds).Ok? {
      FirstPassDrops(env, builds);
    }
  }

  /** The selected builds are the first-pass picks followed by the new
      candidates, no two with the same (package, crate, crate types), and
      the build scripts are exactly the builds whose crate name starts
      with "build_script_". */
  lemma QuerySelects(env: Env, builds: seq<BuildRecord>)
    requires QuerySpec(env, builds).Ok?
    ensures QuerySpec(env, builds).value.selected ==
      FirstOfKeys(env, builds) + NewCandidates(env, EligibleKeys(env, builds), CandidatesOf(env, builds))
    ensures DistinctKeys(QuerySpec(env, builds).value.selected)
    ensures QuerySpec(env, builds).value.scripts == ScriptsOf(builds)
  {
    FirstPassSelects(env, builds);
    FirstPassScripts(env, builds);
    var included := EligibleKeys(env, builds);
    SecondPassSelects(env, FirstOfKeys(env, builds), included, CandidatesOf(env, builds));
    NewCandidatesDistinct(env, included, CandidatesOf(env, builds));
    DistinctKeysAppend(FirstOfKeys(env, builds), NewCandidates(env, included, CandidatesOf(env, builds)));
  }

  /** Every selected build is from the original list and is not a build
      script. */
  lemma QuerySelectsOriginals(env: Env, builds: seq<BuildRecord>, r: BuildRow)
    requires QuerySpec(env, builds).Ok? && r in QuerySpec(env, builds).value.selected
    ensures InOriginal(env, r) && !IsBuildScript(r.record)
  {
    QuerySelects(env, builds);
    FirstPassScripts(env, builds);
    FirstPassFails(env, builds);
    var firsts := FirstOfKeys(env, builds);
    var news := NewCandidates(env, EligibleKeys(env, builds), CandidatesOf(env, builds));
    if r in firsts {
      FirstOfKeysMember(env, builds, r);
    } else {
      assert r in news;
      NewCandidatesMember(env, EligibleKeys(env, builds), CandidatesOf(env, builds), r);
      CandidatesOfMember(env, builds, r);
    }
  }

  /** Every build of the original list that is not a build script is
      represented: some selected build has its key. */
  lemma QueryCovers(env: Env, builds: seq<BuildRecord>, j: nat)
    requires QuerySpec(env, builds).Ok? && j < |builds|
    requires !IsBuildScript(builds[j]) && (builds[j].package, builds[j].version) in Original(env)
    ensures KeyOf(env, builds[j]) in RowKeys(QuerySpec(env, builds).value.selected)
  {
    FirstPassSelects(env, builds);
    FirstPassScripts(env, builds);
    var p1 := Pass1Of(env, builds).value;
    SecondPassSelects(env, p1.selected, p1.included, p1.candidates);
    if FileOf(builds[j]) !in env.files {
      CandidatesOfHas(env, builds, j);
      var k :| 0 <= k < |p1.candidates| && p1.candidates[k] == RowOf(env, builds[j]);
      assert RowKey(p1.candidates[k]) in OriginalKeys(env, p1.candidates);
    }
  }

  /** The packages of the original list with a row among `rows`. */
  function PackagesWithRow(env: Env, rows: seq<BuildRow>): set<string>
  {
    set p | p in Names(env) && exists k :: 0 <= k < |rows| && rows[k].record.package == p
  }

  /** The package counts split the original packages. */
  lemma QueryCountsAllPackages(env: Env, builds: seq<BuildRecord>)
    requires QuerySpec(env, builds).Ok?
    ensures QuerySpec(env, builds).value.chosenCount + QuerySpec(env, builds).value.notChosenCount == |Names(env)|
  {
    FirstPassChosen(env, builds);
    var chosen := Pass1Of(env, builds).value.chosen;
    var yes := set p | p in chosen && chosen[p] == true;
    var no := set p | p in chosen && chosen[p] == false;
    assert yes + no == chosen.Keys;
    assert yes * no == {};
  }

  /** A package counts as chosen exactly when a first-pass pick belongs to it. */
  lemma QueryCountsChosen(env: Env, builds: seq<BuildRecord>)
    requires QuerySpec(env, builds).Ok?
    ensures QuerySpec(env, builds).value.chosenCount == |PackagesWithRow(env, FirstOfKeys(env, builds))|
  {
    FirstPassChosen(env, builds);
    FirstPassSelects(env, builds);
    var st := Pass1Of(env, builds).value;
    assert (set p | p in st.chosen && st.chosen[p] == true) == PackagesWithRow(env, st.selected);
  }
}
