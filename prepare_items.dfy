/** `prepare_items`: the modules, MIR bodies and functions of the selected
    builds. Relations are in-memory sets or sequences of rows whose
    interned ids are `nat`s. */
module PrepareItems {
  import opened Wrappers
  import opened QueryUtils
  import Closures

  /** The builds of the `selected_builds` relation. */
  function BuildIds(selected: seq<SelectedBuild>): set<nat>
  {
    set i | 0 <= i < |selected| :: selected[i].build
  }

  /** The first rule: the root module of every selected build. */
  function SelectedRoots(selected: seq<SelectedBuild>, rootModules: set<(nat, nat)>): set<(nat, nat)>
  {
    set r | r in rootModules && r.0 in BuildIds(selected)
  }

  /** `compute_selected_modules`: the (build, module) pairs reachable from
      the root modules of the selected builds through submodule edges. */
  function SelectedModules(selected: seq<SelectedBuild>, rootModules: set<(nat, nat)>,
                           submodules: set<(nat, nat)>): set<(nat, nat)>
  {
    Closures.Closure(SelectedRoots(selected, rootModules), submodules)
  }

  /** Both rules hold of the output. */
  lemma SelectedModulesRules(selected: seq<SelectedBuild>, rootModules: set<(nat, nat)>,
                             submodules: set<(nat, nat)>)
    ensures forall r :: r in rootModules && r.0 in BuildIds(selected) ==>
      r in SelectedModules(selected, rootModules, submodules)
    ensures forall m, e :: m in SelectedModules(selected, rootModules, submodules) && e in submodules && m.1 == e.0 ==>
      (m.0, e.1) in SelectedModules(selected, rootModules, submodules)
  {
    Closures.ClosureCorrect(SelectedRoots(selected, rootModules), submodules);
  }

  /** Nothing else is derived: any set obeying both rules contains the output. */
  lemma SelectedModulesLeast(selected: seq<SelectedBuild>, rootModules: set<(nat, nat)>,
                             submodules: set<(nat, nat)>, t: set<(nat, nat)>)
    requires forall r :: r in rootModules && r.0 in BuildIds(selected) ==> r in t
    requires forall m, e :: m in t && e in submodules && m.1 == e.0 ==> (m.0, e.1) in t
    ensures SelectedModules(selected, rootModules, submodules) <= t
  {
    Closures.ClosureLeast(SelectedRoots(selected, rootModules), submodules, t);
  }

  /** Every selected module belongs to a selected build. */
  lemma SelectedModulesBuilds(selected: seq<SelectedBuild>, rootModules: set<(nat, nat)>,
                              submodules: set<(nat, nat)>, m: (nat, nat))
    requires m in SelectedModules(selected, rootModules, submodules)
    ensures m.0 in BuildIds(selected)
  {
    Closures.ClosureTags(SelectedRoots(selected, rootModules), submodules, m);
  }

  function CrateKey(b: SelectedBuild): (nat, nat)
  {
    (b.krate, b.crateHash)
  }

  /** `(krate, crate_hash)` identifies a build. */
  predicate KeysDistinct(builds: seq<SelectedBuild>)
  {
    forall i, j :: 0 <= i < j < |builds| ==> CrateKey(builds[i]) != CrateKey(builds[j])
  }

  /** `check_crate_with_hash_is_key`: inserts every build under its key and
      reports the first key met twice (the source panics with it). */
  method CheckCrateWithHashIsKey(builds: seq<SelectedBuild>) returns (dup: Option<(nat, nat)>)
    ensures dup.None? <==> KeysDistinct(builds)
    ensures dup.Some? ==>
      exists i, j :: 0 <= i < j < |builds| && CrateKey(builds[i]) == dup.value && CrateKey(builds[j]) == dup.value
  {
    var keys: map<(nat, nat), nat> := map[];
    var n := 0;
    while n < |builds|
      invariant n <= |builds|
      invariant KeysDistinct(builds[..n])
      invariant forall k :: k in keys <==> exists i :: 0 <= i < n && CrateKey(builds[i]) == k
    {
      var key := CrateKey(builds[n]);
      if key in keys {
        var i :| 0 <= i < n && CrateKey(builds[i]) == key;
        return Some(key);
      }
      keys := keys[key := builds[n].build];
      assert forall i, j :: 0 <= i < j < n + 1 ==> builds[..n + 1][i] == builds[i] && builds[..n + 1][j] == builds[j];
      n := n + 1;
    }
    assert builds[..n] == builds;
    dup := None;
  }

  /** A row of `mir_cfgs`. */
  datatype MirCfg = MirCfg(item: nat, bodyDefPath: nat, rootScope: nat)

  /** A row of `selected_mir_cfgs`. */
  datatype SelectedMirCfg = SelectedMirCfg(build: nat, item: nat, bodyDefPath: nat, rootScope: nat)

  /** A row of `function_definitions`. */
  datatype FunctionDefinition = FunctionDefinition(item: nat, defPath: nat, parentModule: nat, visibility: nat,
                                                   unsafety: nat, abi: nat, returnTy: nat)

  /** A row of `selected_function_definitions`. */
  datatype SelectedFunction = SelectedFunction(build: nat, definition: FunctionDefinition, usesUnsafe: bool)

  /** `function_unsafe_use.get(def_path).unwrap_or(false)` on the map
      collected from the rows, where a later row overwrites. */
  function UsesUnsafe(unsafeUse: seq<(nat, bool)>, defPath: nat): bool
  {
    if unsafeUse == [] then false
    else if unsafeUse[|unsafeUse| - 1].0 == defPath then unsafeUse[|unsafeUse| - 1].1
    else UsesUnsafe(unsafeUse[..|unsafeUse| - 1], defPath)
  }

  /** Without a row for the def path the function does not use unsafe; with
      one, the last row decides. */
  lemma {:induction false} UsesUnsafeSpec(unsafeUse: seq<(nat, bool)>, defPath: nat)
    ensures (forall i :: 0 <= i < |unsafeUse| ==> unsafeUse[i].0 != defPath) ==> !UsesUnsafe(unsafeUse, defPath)
    ensures forall i :: (0 <= i < |unsafeUse| && unsafeUse[i].0 == defPath &&
      forall j :: i < j < |unsafeUse| ==> unsafeUse[j].0 != defPath) ==>
      UsesUnsafe(unsafeUse, defPath) == unsafeUse[i].1
  {
    if unsafeUse != [] {
      var init := unsafeUse[..|unsafeUse| - 1];
      UsesUnsafeSpec(init, defPath);
      forall i | 0 <= i < |init|
        ensures init[i] == unsafeUse[i]
      {
      }
    }
  }

  function CfgDefPath(c: MirCfg): nat
  {
    c.bodyDefPath
  }

  function CfgRow(build: nat, c: MirCfg): SelectedMirCfg
  {
    SelectedMirCfg(build, c.item, c.bodyDefPath, c.rootScope)
  }

  function FunctionDefPath(f: FunctionDefinition): nat
  {
    f.defPath
  }

  datatype Selection = Selection(cfgs: seq<SelectedMirCfg>, functions: seq<SelectedFunction>)

  datatype ItemsError = DuplicateBuildKey(key: (nat, nat)) | UnknownDefPath

  /** `compute_selected_functions_and_mir_cfgs`: the key check first, then
      the MIR bodies and the functions whose def paths belong to selected
      builds; a def path outside the table panics in the source. */
  method ComputeSelectedFunctionsAndMirCfgs(builds: seq<SelectedBuild>, selected: seq<SelectedBuild>,
                                            defPaths: seq<DefPathValue>, cfgs: seq<MirCfg>,
                                            functions: seq<FunctionDefinition>, unsafeUse: seq<(nat, bool)>)
    returns (r: Result<Selection, ItemsError>)
    ensures !KeysDistinct(builds) <==> r.Err? && r.error.DuplicateBuildKey?
    ensures r.Ok? <==> (KeysDistinct(builds) &&
      (forall j :: 0 <= j < |cfgs| ==> cfgs[j].bodyDefPath < |defPaths|) &&
      (forall j :: 0 <= j < |functions| ==> functions[j].defPath < |defPaths|))
    ensures r.Ok? ==> forall s :: s in r.value.cfgs <==>
      exists j :: 0 <= j < |cfgs| && BuildOfDefPath(selected, defPaths, cfgs[j].bodyDefPath).Some? &&
        s == CfgRow(BuildOfDefPath(selected, defPaths, cfgs[j].bodyDefPath).value, cfgs[j])
    ensures r.Ok? ==> forall s :: s in r.value.functions <==>
      exists j :: 0 <= j < |functions| && BuildOfDefPath(selected, defPaths, functions[j].defPath).Some? &&
        s == SelectedFunction(BuildOfDefPath(selected, defPaths, functions[j].defPath).value, functions[j],
                              UsesUnsafe(unsafeUse, functions[j].defPath))
  {
    var dup := CheckCrateWithHashIsKey(builds);
    if dup.Some? {
      return Err(DuplicateBuildKey(dup.value));
    }
    var construct := (build: nat, f: FunctionDefinition) => SelectedFunction(build, f, UsesUnsafe(unsafeUse, f.defPath));
    var c := FilterSelected(cfgs, selected, defPaths, CfgDefPath, CfgRow);
    var f := FilterSelected(functions, selected, defPaths, FunctionDefPath, construct);
    if c.None? || f.None? {
      return Err(UnknownDefPath);
    }
    forall s
      ensures s in c.value <==>
        exists j :: 0 <= j < |cfgs| && BuildOfDefPath(selected, defPaths, cfgs[j].bodyDefPath).Some? &&
          s == CfgRow(BuildOfDefPath(selected, defPaths, cfgs[j].bodyDefPath).value, cfgs[j])
    {
      FilterSelectedMember(cfgs, selected, defPaths, CfgDefPath, CfgRow, s);
    }
    forall s
      ensures s in f.value <==>
        exists j :: 0 <= j < |functions| && BuildOfDefPath(selected, defPaths, functions[j].defPath).Some? &&
          s == SelectedFunction(BuildOfDefPath(selected, defPaths, functions[j].defPath).value, functions[j],
                                UsesUnsafe(unsafeUse, functions[j].defPath))
    {
      FilterSelectedMember(functions, selected, defPaths, FunctionDefPath, construct, s);
    }
    r := Ok(Selection(c.value, f.value));
  }
}
