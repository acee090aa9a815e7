/** The `function_size` query: the number of MIR statements per selected
    build and per selected MIR body, with how many of them are unsafe and
    how many are unsafe by the user's hand. */
module FunctionSizeQuery {
  import opened QueryTypes
  import opened PrepareItems
  import opened CountersQuery

  /** What `function_scopes` maps a selected scope to. */
  datatype ScopeInfo = ScopeInfo(build: nat, body: nat, safety: ScopeSafety, checkMode: BlockCheckMode)

  /** `function_scopes`: scope to its build, MIR body, safety and check
      mode, collected from `selected_scopes` (a later row overwrites). */
  function FunctionScopes(rows: seq<ScopeRow>): map<nat, ScopeInfo>
  {
    if rows == [] then map[]
    else
      var r := rows[|rows| - 1];
      FunctionScopes(rows[..|rows| - 1])[r.scope := ScopeInfo(r.build, r.body, r.safety, r.checkMode)]
  }

  /** The selected function definitions by item (a later row overwrites). */
  function DefinitionsByItem(functions: seq<SelectedFunction>): map<nat, SelectedFunction>
  {
    if functions == [] then map[]
    else
      var f := functions[|functions| - 1];
      DefinitionsByItem(functions[..|functions| - 1])[f.definition.item := f]
  }

  /** `function_definitions`: MIR body to the selected definition of its
      item, for the bodies whose item has one. */
  function FunctionDefinitions(cfgs: seq<SelectedMirCfg>, byItem: map<nat, SelectedFunction>): map<nat, SelectedFunction>
  {
    if cfgs == [] then map[]
    else
      var c := cfgs[|cfgs| - 1];
      var prev := FunctionDefinitions(cfgs[..|cfgs| - 1], byItem);
      if c.item in byItem then prev[c.bodyDefPath := byItem[c.item]] else prev
  }

  /** Every body's definition is a selected function definition. */
  lemma {:induction false} FunctionDefinitionsSelected(cfgs: seq<SelectedMirCfg>, functions: seq<SelectedFunction>,
                                                       body: nat)
    requires body in FunctionDefinitions(cfgs, DefinitionsByItem(functions))
    ensures FunctionDefinitions(cfgs, DefinitionsByItem(functions))[body] in functions
    ensures exists j :: 0 <= j < |cfgs| && cfgs[j].bodyDefPath == body
  {
    var c := cfgs[|cfgs| - 1];
    var init := cfgs[..|cfgs| - 1];
    if !(c.bodyDefPath == body && c.item in DefinitionsByItem(functions)) {
      FunctionDefinitionsSelected(init, functions, body);
      var j :| 0 <= j < |init| && init[j].bodyDefPath == body;
      assert cfgs[j] == init[j];
    } else {
      DefinitionsByItemSelected(functions, c.item);
    }
  }

  lemma {:induction false} DefinitionsByItemSelected(functions: seq<SelectedFunction>, item: nat)
    requires item in DefinitionsByItem(functions)
    ensures DefinitionsByItem(functions)[item] in functions
    ensures DefinitionsByItem(functions)[item].definition.item == item
  {
    var init := functions[..|functions| - 1];
    if functions[|functions| - 1].definition.item != item {
      DefinitionsByItemSelected(init, item);
    }
  }

  /** Three statement counts: all, unsafe, and unsafe by the user's hand. */
  datatype Sizes = Sizes(total: nat, unsafeCount: nat, userUnsafeCount: nat)

  predicate IsUnsafe(info: ScopeInfo)
  {
    info.safety != Safe
  }

  predicate IsUserUnsafe(info: ScopeInfo)
  {
    info.safety == FnUnsafe || info.checkMode == UnsafeBlockUserProvided
  }

  /** One statement's contribution to its entry. */
  function Bump(s: Sizes, info: ScopeInfo): Sizes
  {
    Sizes(s.total + 1, s.unsafeCount + (if IsUnsafe(info) then 1 else 0),
          s.userUnsafeCount + (if IsUserUnsafe(info) then 1 else 0))
  }

  /** `entry(key).or_default()`. */
  function Entry(m: map<nat, Sizes>, k: nat): Sizes
  {
    if k in m then m[k] else Sizes(0, 0, 0)
  }

  datatype Tally = Tally(builds: map<nat, Sizes>, bodies: map<nat, Sizes>)

  /** The loop over the statements, one statement at a time. */
  function TallySpec(statements: seq<Statement>, scopes: map<nat, ScopeInfo>): Tally
  {
    if statements == [] then Tally(map[], map[])
    else
      var prev := TallySpec(statements[..|statements| - 1], scopes);
      var scope := statements[|statements| - 1].scope;
      if scope !in scopes then prev
      else
        var info := scopes[scope];
        Tally(prev.builds[info.build := Bump(Entry(prev.builds, info.build), info)],
              prev.bodies[info.body := Bump(Entry(prev.bodies, info.body), info)])
  }

  /** `collect_function_sizes`' statement loop. */
  method CollectSizes(statements: seq<Statement>, scopes: map<nat, ScopeInfo>) returns (t: Tally)
    ensures t == TallySpec(statements, scopes)
  {
    var builds: map<nat, Sizes> := map[];
    var bodies: map<nat, Sizes> := map[];
    var i := 0;
    while i < |statements|
      invariant i <= |statements|
      invariant TallySpec(statements[..i], scopes) == Tally(builds, bodies)
    {
      assert statements[..i + 1][..i] == statements[..i];
      var scope := statements[i].scope;
      if scope in scopes {
        var info := scopes[scope];
        var b := Entry(builds, info.build);
        b := b.(total := b.total + 1);
        if info.safety != Safe {
          b := b.(unsafeCount := b.unsafeCount + 1);
        }
        if info.safety == FnUnsafe || info.checkMode == UnsafeBlockUserProvided {
          b := b.(userUnsafeCount := b.userUnsafeCount + 1);
        }
        builds := builds[info.build := b];
        var f := Entry(bodies, info.body);
        f := f.(total := f.total + 1);
        if info.safety != Safe {
          f := f.(unsafeCount := f.unsafeCount + 1);
        }
        if info.safety == FnUnsafe || info.checkMode == UnsafeBlockUserProvided {
          f := f.(userUnsafeCount := f.userUnsafeCount + 1);
        }
        bodies := bodies[info.body := f];
      }
      i := i + 1;
    }
    assert statements[..i] == statements;
    t := Tally(builds, bodies);
  }

  /** The scope infos of the statements in selected scopes, in order. */
  function Infos(statements: seq<Statement>, scopes: map<nat, ScopeInfo>): seq<ScopeInfo>
  {
    if statements == [] then []
    else
      var scope := statements[|statements| - 1].scope;
      Infos(statements[..|statements| - 1], scopes) + (if scope in scopes then [scopes[scope]] else [])
  }

  function ForBuild(infos: seq<ScopeInfo>, build: nat): seq<ScopeInfo>
  {
    if infos == [] then []
    else ForBuild(infos[..|infos| - 1], build) + (if infos[|infos| - 1].build == build then [infos[|infos| - 1]] else [])
  }

  function ForBody(infos: seq<ScopeInfo>, body: nat): seq<ScopeInfo>
  {
    if infos == [] then []
    else ForBody(infos[..|infos| - 1], body) + (if infos[|infos| - 1].body == body then [infos[|infos| - 1]] else [])
  }

  function CountUnsafe(infos: seq<ScopeInfo>): nat
  {
    if infos == [] then 0 else CountUnsafe(infos[..|infos| - 1]) + (if IsUnsafe(infos[|infos| - 1]) then 1 else 0)
  }

  function CountUserUnsafe(infos: seq<ScopeInfo>): nat
  {
    if infos == [] then 0
    else CountUserUnsafe(infos[..|infos| - 1]) + (if IsUserUnsafe(infos[|infos| - 1]) then 1 else 0)
  }

  /** The three counts of a list of statements' scopes. */
  function SizesOf(infos: seq<ScopeInfo>): Sizes
  {
    Sizes(|infos|, CountUnsafe(infos), CountUserUnsafe(infos))
  }

  lemma ForAppend(infos: seq<ScopeInfo>, x: ScopeInfo, build: nat, body: nat)
    ensures ForBuild(infos + [x], build) == ForBuild(infos, build) + (if x.build == build then [x] else [])
    ensures ForBody(infos + [x], body) == ForBody(infos, body) + (if x.body == body then [x] else [])
  {
    assert (infos + [x])[..|infos|] == infos;
  }

  /** Appending one statement bumps the three counts as `Bump` does. */
  lemma SizesOfAppend(infos: seq<ScopeInfo>, x: ScopeInfo)
    ensures SizesOf(infos + [x]) == Bump(SizesOf(infos), x)
  {
    assert (infos + [x])[..|infos|] == infos;
  }

  /** A build has an entry exactly when one of its statements lies in a
      selected scope, and the entry counts those statements. */
  lemma {:induction false} TallyBuilds(statements: seq<Statement>, scopes: map<nat, ScopeInfo>, build: nat)
    ensures build in TallySpec(statements, scopes).builds <==> ForBuild(Infos(statements, scopes), build) != []
    ensures Entry(TallySpec(statements, scopes).builds, build) == SizesOf(ForBuild(Infos(statements, scopes), build))
  {
    if statements != [] {
      var init := statements[..|statements| - 1];
      TallyBuilds(init, scopes, build);
      var scope := statements[|statements| - 1].scope;
      if scope in scopes {
        var info := scopes[scope];
        var prev := Infos(init, scopes);
        assert Infos(statements, scopes) == prev + [info];
        ForAppend(prev, info, build, 0);
        if info.build == build {
          SizesOfAppend(ForBuild(prev, build), info);
          assert Entry(TallySpec(statements, scopes).builds, build) == Bump(Entry(TallySpec(init, scopes).builds, build), info);
        } else {
          assert Entry(TallySpec(statements, scopes).builds, build) == Entry(TallySpec(init, scopes).builds, build);
          assert ForBuild(prev + [info], build) == ForBuild(prev, build);
        }
      } else {
        assert Infos(statements, scopes) == Infos(init, scopes);
      }
    }
  }

  /** The same for a MIR body. */
  lemma {:induction false} TallyBodies(statements: seq<Statement>, scopes: map<nat, ScopeInfo>, body: nat)
    ensures body in TallySpec(statements, scopes).bodies <==> ForBody(Infos(statements, scopes), body) != []
    ensures Entry(TallySpec(statements, scopes).bodies, body) == SizesOf(ForBody(Infos(statements, scopes), body))
  {
    if statements != [] {
      var init := statements[..|statements| - 1];
      TallyBodies(init, scopes, body);
      var scope := statements[|statements| - 1].scope;
      if scope in scopes {
        var info := scopes[scope];
        var prev := Infos(init, scopes);
        assert Infos(statements, scopes) == prev + [info];
        ForAppend(prev, info, 0, body);
        if info.body == body {
          SizesOfAppend(ForBody(prev, body), info);
          assert Entry(TallySpec(statements, scopes).bodies, body) == Bump(Entry(TallySpec(init, scopes).bodies, body), info);
        } else {
          assert Entry(TallySpec(statements, scopes).bodies, body) == Entry(TallySpec(init, scopes).bodies, body);
          assert ForBody(prev + [info], body) == ForBody(prev, body);
        }
      } else {
        assert Infos(statements, scopes) == Infos(init, scopes);
      }
    }
  }

  lemma {:induction false} CountsBounded(infos: seq<ScopeInfo>)
    ensures CountUnsafe(infos) <= |infos| && CountUserUnsafe(infos) <= |infos|
  {
    if infos != [] {
      CountsBounded(infos[..|infos| - 1]);
    }
  }

  /** Every increment of a sub-count comes with one of the total, so
      unsafe <= total and user-unsafe <= total for every build and body. */
  lemma TallyBounded(statements: seq<Statement>, scopes: map<nat, ScopeInfo>, k: nat)
    ensures var s := Entry(TallySpec(statements, scopes).builds, k);
      s.unsafeCount <= s.total && s.userUnsafeCount <= s.total
    ensures var s := Entry(TallySpec(statements, scopes).bodies, k);
      s.unsafeCount <= s.total && s.userUnsafeCount <= s.total
  {
    TallyBuilds(statements, scopes, k);
    TallyBodies(statements, scopes, k);
    CountsBounded(ForBuild(Infos(statements, scopes), k));
    CountsBounded(ForBody(Infos(statements, scopes), k));
  }

  /** A row of `selected_function_sizes`. */
  datatype FunctionSize = FunctionSize(definition: SelectedFunction, sizes: Sizes)

  /** `selected_build_sizes`, from a hash map, so a set. */
  function BuildSizes(t: Tally): set<(nat, Sizes)>
  {
    set b | b in t.builds :: (b, t.builds[b])
  }

  /** `selected_function_sizes`: the bodies with a selected definition. */
  function FunctionSizes(t: Tally, definitions: map<nat, SelectedFunction>): set<FunctionSize>
  {
    set d | d in t.bodies && d in definitions :: FunctionSize(definitions[d], t.bodies[d])
  }

  /** The whole query on in-memory relations. */
  function FunctionSizeQuery(scopeRows: seq<ScopeRow>, functions: seq<SelectedFunction>, cfgs: seq<SelectedMirCfg>,
                             statements: seq<Statement>): (set<(nat, Sizes)>, set<FunctionSize>)
  {
    var t := TallySpec(statements, FunctionScopes(scopeRows));
    (BuildSizes(t), FunctionSizes(t, FunctionDefinitions(cfgs, DefinitionsByItem(functions))))
  }

  /** A function size is reported only for a selected function with a
      selected MIR body, and its counts respect unsafe <= total. */
  lemma FunctionSizeQuerySpec(scopeRows: seq<ScopeRow>, functions: seq<SelectedFunction>, cfgs: seq<SelectedMirCfg>,
                              statements: seq<Statement>, r: FunctionSize)
    requires r in FunctionSizeQuery(scopeRows, functions, cfgs, statements).1
    ensures r.definition in functions
    ensures exists j :: 0 <= j < |cfgs| && cfgs[j].item == r.definition.definition.item
    ensures r.sizes.unsafeCount <= r.sizes.total && r.sizes.userUnsafeCount <= r.sizes.total && r.sizes.total > 0
  {
    var t := TallySpec(statements, FunctionScopes(scopeRows));
    var defs := FunctionDefinitions(cfgs, DefinitionsByItem(functions));
    var d :| d in t.bodies && d in defs && r == FunctionSize(defs[d], t.bodies[d]);
    FunctionDefinitionsSelected(cfgs, functions, d);
    FunctionDefinitionsItem(cfgs, DefinitionsByItem(functions), d);
    var j :| 0 <= j < |cfgs| && cfgs[j].bodyDefPath == d && cfgs[j].item in DefinitionsByItem(functions) &&
      defs[d] == DefinitionsByItem(functions)[cfgs[j].item];
    DefinitionsByItemSelected(functions, cfgs[j].item);
    TallyBounded(statements, FunctionScopes(scopeRows), d);
    TallyBodies(statements, FunctionScopes(scopeRows), d);
  }

  lemma {:induction false} FunctionDefinitionsItem(cfgs: seq<SelectedMirCfg>, byItem: map<nat, SelectedFunction>, body: nat)
    requires body in FunctionDefinitions(cfgs, byItem)
    ensures exists j ::
              0 <= j < |cfgs| && cfgs[j].bodyDefPath == body && cfgs[j].item in byItem &&
              FunctionDefinitions(cfgs, byItem)[body] == byItem[cfgs[j].item]
  {
    var n := |cfgs| - 1;
    var init := cfgs[..n];
    if !(cfgs[n].bodyDefPath == body && cfgs[n].item in byItem) {
      FunctionDefinitionsItem(init, byItem, body);
      var j :| 0 <= j < |init| && init[j].bodyDefPath == body && init[j].item in byItem &&
        FunctionDefinitions(init, byItem)[body] == byItem[init[j].item];
      assert cfgs[j] == init[j];
    } else {
      assert cfgs[n].bodyDefPath == body;
    }
  }
}
