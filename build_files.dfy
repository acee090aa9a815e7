/** The `build_files` query: the builds of build scripts (`build.rs`),
    reported with their package, version, crate and crate hash, and the
    scopes of every MIR body compiled into them. */
module BuildFilesQuery {
  import opened Wrappers
  import opened DataStructures
  import opened Text
  import opened QueryUtils
  import opened PrepareItems
  import CountersQuery
  import Closures

  /** Cargo names the crate of every build script this. */
  const BUILD_SCRIPT_BUILD: string := "build_script_build"

  /** A (key, value) row of the `builds` table. */
  datatype BuildEntry = BuildEntry(build: nat, package: nat, version: nat, krate: nat, crateHash: nat, edition: nat)

  /** A row of `build_script_builds`: the entry without its edition. */
  datatype ScriptBuild = ScriptBuild(build: nat, package: nat, version: nat, krate: nat, crateHash: nat)

  /** A row of the `build_script_crates` report. */
  datatype ScriptCrate = ScriptCrate(build: nat, packageName: nat, packageVersion: nat, crateName: nat,
                                     crateHash: string)

  /** The two `unwrap`s on lookups, and the table indexing, panic in the
      source. */
  datatype BuildFilesError = NoBuildScriptString | NoBuildScriptCrate | UnknownBuildPart(build: nat)

  /** The crate id whose name is `build_script_build`. */
  function BuildScriptKrate(strings: seq<string>, crateNames: seq<nat>): Result<nat, BuildFilesError>
  {
    var name := Lookup(strings, BUILD_SCRIPT_BUILD);
    if name.None? then Err(NoBuildScriptString)
    else
      var krate := Lookup(crateNames, name.value);
      if krate.None? then Err(NoBuildScriptCrate) else Ok(krate.value)
  }

  /** The query fails exactly when no crate is named `build_script_build`,
      and otherwise finds the crate with that name. */
  lemma BuildScriptKrateSpec(strings: seq<string>, crateNames: seq<nat>)
    requires NoDuplicates(strings)
    ensures BuildScriptKrate(strings, crateNames).Ok? <==>
      exists k :: 0 <= k < |crateNames| && crateNames[k] < |strings| && strings[crateNames[k]] == BUILD_SCRIPT_BUILD
    ensures BuildScriptKrate(strings, crateNames).Ok? ==>
      var k := BuildScriptKrate(strings, crateNames).value;
      k < |crateNames| && crateNames[k] < |strings| && strings[crateNames[k]] == BUILD_SCRIPT_BUILD
  {
    if exists k :: 0 <= k < |crateNames| && crateNames[k] < |strings| && strings[crateNames[k]] == BUILD_SCRIPT_BUILD {
      var k :| 0 <= k < |crateNames| && crateNames[k] < |strings| && strings[crateNames[k]] == BUILD_SCRIPT_BUILD;
      IndexOfDistinct(strings, crateNames[k]);
      assert crateNames[k] in crateNames;
    }
  }

  function ScriptBuildOf(b: BuildEntry): ScriptBuild
  {
    ScriptBuild(b.build, b.package, b.version, b.krate, b.crateHash)
  }

  /** The builds of the given crate, in table order, without their edition. */
  function ScriptBuilds(builds: seq<BuildEntry>, krate: nat): seq<ScriptBuild>
  {
    if builds == [] then []
    else
      var last := builds[|builds| - 1];
      ScriptBuilds(builds[..|builds| - 1], krate) + if last.krate == krate then [ScriptBuildOf(last)] else []
  }

  /** A build is a build-script build exactly when its crate is the given
      one; the filter drops the edition and never adds rows. */
  lemma {:induction false} ScriptBuildsSpec(builds: seq<BuildEntry>, krate: nat, s: ScriptBuild)
    ensures s in ScriptBuilds(builds, krate) <==>
      exists i :: 0 <= i < |builds| && builds[i].krate == krate && ScriptBuildOf(builds[i]) == s
    ensures |ScriptBuilds(builds, krate)| <= |builds|
  {
    if builds != [] {
      var init := builds[..|builds| - 1];
      var last := builds[|builds| - 1];
      ScriptBuildsSpec(init, krate, s);
      if last.krate != krate {
        assert ScriptBuilds(builds, krate) == ScriptBuilds(init, krate) + [];
      }
      if exists i :: 0 <= i < |builds| && builds[i].krate == krate && ScriptBuildOf(builds[i]) == s {
        var i :| 0 <= i < |builds| && builds[i].krate == krate && ScriptBuildOf(builds[i]) == s;
        if i < |init| {
          assert init[i] == builds[i];
        }
      }
      if s in ScriptBuilds(init, krate) {
        var i :| 0 <= i < |init| && init[i].krate == krate && ScriptBuildOf(init[i]) == s;
        assert builds[i] == init[i];
      }
    }
  }

  /** One report row: package name, version and crate name ids, and the
      crate hash in hex. */
  function ScriptCrateOf(b: ScriptBuild, packageNames: seq<nat>, packageVersions: seq<nat>, crateNames: seq<nat>)
    : Result<ScriptCrate, BuildFilesError>
  {
    if PartsKnown(b, packageNames, packageVersions, crateNames)
    then Ok(ScriptCrate(b.build, packageNames[b.package], packageVersions[b.version], crateNames[b.krate],
                        Hex(b.crateHash)))
    else Err(UnknownBuildPart(b.build))
  }

  /** The `build_script_crates` report, one row per build-script build. */
  function ScriptCrates(bs: seq<ScriptBuild>, packageNames: seq<nat>, packageVersions: seq<nat>, crateNames: seq<nat>)
    : Result<seq<ScriptCrate>, BuildFilesError>
  {
    if bs == [] then Ok([])
    else
      var init := ScriptCrates(bs[..|bs| - 1], packageNames, packageVersions, crateNames);
      var last := ScriptCrateOf(bs[|bs| - 1], packageNames, packageVersions, crateNames);
      if init.Err? then init
      else if last.Err? then Err(last.error)
      else Ok(init.value + [last.value])
  }

  /** The parts of a build that the report indexes tables with are known. */
  predicate PartsKnown(b: ScriptBuild, packageNames: seq<nat>, packageVersions: seq<nat>, crateNames: seq<nat>)
  {
    b.package < |packageNames| && b.version < |packageVersions| && b.krate < |crateNames|
  }

  /** The report exists exactly when every build's parts are known. */
  lemma {:induction false} ScriptCratesOk(bs: seq<ScriptBuild>, packageNames: seq<nat>, packageVersions: seq<nat>,
                                          crateNames: seq<nat>)
    ensures ScriptCrates(bs, packageNames, packageVersions, crateNames).Ok? <==>
      forall i :: 0 <= i < |bs| ==> PartsKnown(bs[i], packageNames, packageVersions, crateNames)
  {
    if bs != [] {
      var init := bs[..|bs| - 1];
      ScriptCratesOk(init, packageNames, packageVersions, crateNames);
      assert forall i :: 0 <= i < |init| ==> init[i] == bs[i];
      if ScriptCrates(init, packageNames, packageVersions, crateNames).Err? {
        var i :| 0 <= i < |init| && !PartsKnown(init[i], packageNames, packageVersions, crateNames);
        assert bs[i] == init[i];
      }
    }
  }

  /** The report's rows are the builds in order, each with its crate name
      id and a crate hash that reads back from hex. */
  lemma {:induction false} ScriptCratesRows(bs: seq<ScriptBuild>, packageNames: seq<nat>, packageVersions: seq<nat>,
                                            crateNames: seq<nat>)
    requires ScriptCrates(bs, packageNames, packageVersions, crateNames).Ok?
    ensures |ScriptCrates(bs, packageNames, packageVersions, crateNames).value| == |bs|
    ensures forall i :: 0 <= i < |bs| ==>
      var r := ScriptCrates(bs, packageNames, packageVersions, crateNames).value[i];
      r.build == bs[i].build && bs[i].krate < |crateNames| && r.crateName == crateNames[bs[i].krate] &&
      HexValue(r.crateHash) == bs[i].crateHash
  {
    if bs != [] {
      var init := bs[..|bs| - 1];
      ScriptCratesRows(init, packageNames, packageVersions, crateNames);
      assert forall i :: 0 <= i < |init| ==> init[i] == bs[i];
      HexRoundTrip(bs[|bs| - 1].crateHash);
    }
  }

  // ---------------------------------------------------------------------
  // Build scopes.

  /** The MIR body's def path has the build's crate and crate hash. */
  predicate Compiled(c: MirCfg, b: ScriptBuild, defPaths: seq<DefPathValue>)
  {
    c.bodyDefPath < |defPaths| && defPaths[c.bodyDefPath].krate == b.krate &&
    defPaths[c.bodyDefPath].crateHash == b.crateHash
  }

  /** The first rule: the root scope of every MIR body whose def path has a
      build-script build's crate and crate hash, tagged with that build. */
  function ScopeSeed(bs: seq<ScriptBuild>, defPaths: seq<DefPathValue>, cfgs: set<MirCfg>): set<(nat, nat)>
  {
    set b, c | b in bs && c in cfgs && Compiled(c, b, defPaths) :: (b.build, c.rootScope)
  }

  function SubscopeEdges(subscopes: set<CountersQuery.Subscope>): set<(nat, nat)>
  {
    set s | s in subscopes :: (s.parent, s.child)
  }

  /** `build_scopes`: the least relation obeying both rules. */
  function BuildScopes(bs: seq<ScriptBuild>, defPaths: seq<DefPathValue>, cfgs: set<MirCfg>,
                       subscopes: set<CountersQuery.Subscope>): set<(nat, nat)>
  {
    Closures.Closure(ScopeSeed(bs, defPaths, cfgs), SubscopeEdges(subscopes))
  }

  /** Both rules hold of the output. */
  lemma BuildScopesRules(bs: seq<ScriptBuild>, defPaths: seq<DefPathValue>, cfgs: set<MirCfg>,
                         subscopes: set<CountersQuery.Subscope>)
    ensures forall b, c :: b in bs && c in cfgs && Compiled(c, b, defPaths) ==>
      (b.build, c.rootScope) in BuildScopes(bs, defPaths, cfgs, subscopes)
    ensures forall p, s :: p in BuildScopes(bs, defPaths, cfgs, subscopes) && s in subscopes && s.parent == p.1 ==>
      (p.0, s.child) in BuildScopes(bs, defPaths, cfgs, subscopes)
  {
    var seed := ScopeSeed(bs, defPaths, cfgs);
    var edges := SubscopeEdges(subscopes);
    Closures.ClosureCorrect(seed, edges);
    forall p, s | p in BuildScopes(bs, defPaths, cfgs, subscopes) && s in subscopes && s.parent == p.1
      ensures (p.0, s.child) in BuildScopes(bs, defPaths, cfgs, subscopes)
    {
      assert (s.parent, s.child) in edges;
    }
  }

  /** Nothing else is derived: any set obeying both rules holds the output. */
  lemma BuildScopesLeast(bs: seq<ScriptBuild>, defPaths: seq<DefPathValue>, cfgs: set<MirCfg>,
                         subscopes: set<CountersQuery.Subscope>, t: set<(nat, nat)>)
    requires forall b, c :: b in bs && c in cfgs && Compiled(c, b, defPaths) ==> (b.build, c.rootScope) in t
    requires forall p, s :: p in t && s in subscopes && s.parent == p.1 ==> (p.0, s.child) in t
    ensures BuildScopes(bs, defPaths, cfgs, subscopes) <= t
  {
    var edges := SubscopeEdges(subscopes);
    forall x, e | x in t && e in edges && x.1 == e.0
      ensures (x.0, e.1) in t
    {
      var s :| s in subscopes && e == (s.parent, s.child);
    }
    Closures.ClosureLeast(ScopeSeed(bs, defPaths, cfgs), edges, t);
  }

  /** Every build scope belongs to a build-script build. */
  lemma BuildScopesBuilds(bs: seq<ScriptBuild>, defPaths: seq<DefPathValue>, cfgs: set<MirCfg>,
                          subscopes: set<CountersQuery.Subscope>, p: (nat, nat))
    requires p in BuildScopes(bs, defPaths, cfgs, subscopes)
    ensures exists b :: b in bs && b.build == p.0
  {
    var seed := ScopeSeed(bs, defPaths, cfgs);
    Closures.ClosureTags(seed, SubscopeEdges(subscopes), p);
    var x :| x in seed && x.0 == p.0;
  }

  // ---------------------------------------------------------------------
  // The query.

  /** The outputs of the query. */
  datatype BuildFiles = BuildFiles(crates: seq<ScriptCrate>, scopes: set<(nat, nat)>)

  function BuildFilesOf(strings: seq<string>, crateNames: seq<nat>, builds: seq<BuildEntry>, packageNames: seq<nat>,
                        packageVersions: seq<nat>, defPaths: seq<DefPathValue>, cfgs: set<MirCfg>,
                        subscopes: set<CountersQuery.Subscope>): Result<BuildFiles, BuildFilesError>
  {
    var krate := BuildScriptKrate(strings, crateNames);
    if krate.Err? then Err(krate.error)
    else
      var bs := ScriptBuilds(builds, krate.value);
      var crates := ScriptCrates(bs, packageNames, packageVersions, crateNames);
      if crates.Err? then Err(crates.error)
      else Ok(BuildFiles(crates.value, BuildScopes(bs, defPaths, cfgs, subscopes)))
  }

  /** Every reported crate is named `build_script_build`, and every scope
      belongs to a build of such a crate. */
  lemma BuildFilesSpec(strings: seq<string>, crateNames: seq<nat>, builds: seq<BuildEntry>, packageNames: seq<nat>,
                       packageVersions: seq<nat>, defPaths: seq<DefPathValue>, cfgs: set<MirCfg>,
                       subscopes: set<CountersQuery.Subscope>, k: nat, p: (nat, nat))
    requires BuildFilesOf(strings, crateNames, builds, packageNames, packageVersions, defPaths, cfgs, subscopes).Ok?
    ensures var r := BuildFilesOf(strings, crateNames, builds, packageNames, packageVersions, defPaths, cfgs,
                                  subscopes).value;
      k < |r.crates| ==> r.crates[k].crateName < |strings| && strings[r.crates[k].crateName] == BUILD_SCRIPT_BUILD
    ensures var r := BuildFilesOf(strings, crateNames, builds, packageNames, packageVersions, defPaths, cfgs,
                                  subscopes).value;
      p in r.scopes ==>
        exists i :: 0 <= i < |builds| && builds[i].build == p.0 && builds[i].krate < |crateNames| &&
                    crateNames[builds[i].krate] < |strings| && strings[crateNames[builds[i].krate]] == BUILD_SCRIPT_BUILD
  {
    var krate := BuildScriptKrate(strings, crateNames).value;
    var bs := ScriptBuilds(builds, krate);
    var r := BuildFilesOf(strings, crateNames, builds, packageNames, packageVersions, defPaths, cfgs, subscopes).value;
    ScriptCratesRows(bs, packageNames, packageVersions, crateNames);
    if k < |r.crates| {
      ScriptBuildsSpec(builds, krate, bs[k]);
      assert bs[k] in bs;
    }
    if p in r.scopes {
      BuildScopesBuilds(bs, defPaths, cfgs, subscopes, p);
      var b :| b in bs && b.build == p.0;
      ScriptBuildsSpec(builds, krate, b);
    }
  }
}
