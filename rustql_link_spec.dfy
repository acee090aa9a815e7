/** What the rustql linker computes: every crate summary linked into one
    database, with crates, modules, functions and structs numbered globally,
    calls resolved across crates and the types used interned. */
module RustqlLinkSpec {
  import opened Wrappers
  import opened RustqlData
  import opened RustqlTuples

  /** The elements of `s` numbered from `from`. */
  function Numbered<T>(s: seq<T>, from: nat): (r: seq<(nat, T)>)
    ensures |r| == |s| && forall j :: 0 <= j < |s| ==> r[j] == (from + j, s[j])
  {
    seq(|s|, j requires 0 <= j < |s| => (from + j, s[j]))
  }

  /** How many elements the parts hold together. */
  function Count<T>(parts: seq<seq<T>>): nat
  {
    if parts == [] then 0 else Count(parts[..|parts| - 1]) + |parts[|parts| - 1]|
  }

  /** The parts one after the other, each element numbered by its global
      position: what extending a vector with each part, zipped with the
      vector's running length, produces. */
  function Flatten<T>(parts: seq<seq<T>>): seq<(nat, T)>
  {
    if parts == [] then []
    else
      var init := Flatten(parts[..|parts| - 1]);
      init + Numbered(parts[|parts| - 1], |init|)
  }

  lemma {:induction false} FlattenLength<T>(parts: seq<seq<T>>)
    ensures |Flatten(parts)| == Count(parts)
  {
    if parts != [] {
      FlattenLength(parts[..|parts| - 1]);
    }
  }

  /** Element `j` of part `k` gets the global id `j` plus the number of
      elements in the parts before `k`, and is stored at that position. */
  lemma {:induction false} FlattenAt<T>(parts: seq<seq<T>>, k: nat, j: nat)
    requires k < |parts| && j < |parts[k]|
    ensures Count(parts[..k]) + j < |Flatten(parts)|
    ensures Flatten(parts)[Count(parts[..k]) + j] == (Count(parts[..k]) + j, parts[k][j])
  {
    var n := |parts| - 1;
    var init := parts[..n];
    FlattenLength(init);
    FlattenLength(parts);
    if k == n {
      assert parts[..k] == init;
    } else {
      assert init[..k] == parts[..k];
      FlattenAt(init, k, j);
    }
  }

  /** Ids are positions: every element's id is where it is stored. */
  lemma {:induction false} FlattenDense<T>(parts: seq<seq<T>>)
    ensures forall i :: 0 <= i < |Flatten(parts)| ==> Flatten(parts)[i].0 == i
  {
    if parts != [] {
      FlattenDense(parts[..|parts| - 1]);
    }
  }

  /** The modules of each crate. */
  function ModParts(crates: seq<Crate>): (r: seq<seq<Mod>>)
    ensures |r| == |crates|
  {
    if crates == [] then [] else ModParts(crates[..|crates| - 1]) + [crates[|crates| - 1].mods]
  }

  /** The functions of each crate. */
  function FunctionParts(crates: seq<Crate>): (r: seq<seq<Function>>)
    ensures |r| == |crates|
  {
    if crates == [] then [] else FunctionParts(crates[..|crates| - 1]) + [crates[|crates| - 1].functions]
  }

  /** The structs of each crate. */
  function StructParts(crates: seq<Crate>): (r: seq<seq<StructData>>)
    ensures |r| == |crates|
  {
    if crates == [] then [] else StructParts(crates[..|crates| - 1]) + [crates[|crates| - 1].structs]
  }

  /** The parts of a crate list are the parts of each crate, in order. */
  lemma {:induction false} PartsAt(crates: seq<Crate>, k: nat)
    requires k < |crates|
    ensures ModParts(crates)[k] == crates[k].mods
    ensures FunctionParts(crates)[k] == crates[k].functions
    ensures StructParts(crates)[k] == crates[k].structs
    ensures ModParts(crates)[..k] == ModParts(crates[..k])
    ensures FunctionParts(crates)[..k] == FunctionParts(crates[..k])
    ensures StructParts(crates)[..k] == StructParts(crates[..k])
  {
    var n := |crates| - 1;
    if k < n {
      PartsAt(crates[..n], k);
      assert crates[..n][..k] == crates[..k];
    } else {
      assert crates[..k] == crates[..n];
    }
  }

  /** The identifiers of the crates. */
  function Metadata(crates: seq<Crate>): seq<CrateIdentifier>
  {
    seq(|crates|, k requires 0 <= k < |crates| => crates[k].metadata)
  }

  /** `(m, c)` for each module of a crate: module ids from `offset`. */
  function ModCrateFacts(mods: seq<Mod>, offset: nat, krate: CrateId): (r: seq<(ModId, CrateId)>)
    ensures |r| == |mods| && forall j :: 0 <= j < |mods| ==> r[j] == (offset + j, krate)
  {
    seq(|mods|, j requires 0 <= j < |mods| => (offset + j, krate))
  }

  /** `(m, parent)` for each module of a crate that has a parent, both
      local indices shifted by `offset`. */
  function ParentFacts(mods: seq<Mod>, offset: nat): seq<(ModId, ModId)>
  {
    if mods == [] then []
    else
      var n := |mods| - 1;
      ParentFacts(mods[..n], offset) +
      (if mods[n].parentMod.Some? then [(offset + n, offset + mods[n].parentMod.value)] else [])
  }

  /** `(f, m)` for each function of a crate: function ids from `fnOffset`,
      the containing module shifted by `modOffset`. */
  function FnModFacts(fs: seq<Function>, fnOffset: nat, modOffset: nat): (r: seq<(FunctionId, ModId)>)
    ensures |r| == |fs| && forall j :: 0 <= j < |fs| ==> r[j] == (fnOffset + j, modOffset + fs[j].containingMod)
  {
    seq(|fs|, j requires 0 <= j < |fs| => (fnOffset + j, modOffset + fs[j].containingMod))
  }

  /** `modules_in_crates` after all crates. */
  function ModuleCrateFacts(crates: seq<Crate>): seq<(ModId, CrateId)>
  {
    if crates == [] then []
    else
      var init := crates[..|crates| - 1];
      ModuleCrateFacts(init) + ModCrateFacts(crates[|crates| - 1].mods, Count(ModParts(init)), |init|)
  }

  /** `modules_in_modules` after all crates. */
  function ModuleParentFacts(crates: seq<Crate>): seq<(ModId, ModId)>
  {
    if crates == [] then []
    else
      var init := crates[..|crates| - 1];
      ModuleParentFacts(init) + ParentFacts(crates[|crates| - 1].mods, Count(ModParts(init)))
  }

  /** `functions_in_modules` after all crates. */
  function FunctionModuleFacts(crates: seq<Crate>): seq<(FunctionId, ModId)>
  {
    if crates == [] then []
    else
      var init := crates[..|crates| - 1];
      FunctionModuleFacts(init) +
      FnModFacts(crates[|crates| - 1].functions, Count(FunctionParts(init)), Count(ModParts(init)))
  }

  /** Extending the finder with a crate's functions, numbered from `base`;
      a later function with the same key replaces an earlier one. */
  function FinderInsert(finder: map<(CrateIdentifier, string), FunctionId>, meta: CrateIdentifier,
                        fs: seq<Function>, base: nat): map<(CrateIdentifier, string), FunctionId>
  {
    if fs == [] then finder
    else FinderInsert(finder, meta, fs[..|fs| - 1], base)[(meta, fs[|fs| - 1].defPath) := base + |fs| - 1]
  }

  /** `function_finder` as the linker writes it: each crate's functions are
      numbered from the finder's own size. */
  function FinderAsWritten(crates: seq<Crate>): map<(CrateIdentifier, string), FunctionId>
  {
    if crates == [] then map[]
    else
      var f := FinderAsWritten(crates[..|crates| - 1]);
      FinderInsert(f, crates[|crates| - 1].metadata, crates[|crates| - 1].functions, |f|)
  }

  /** `function_finder` numbering each crate's functions from the function
      offset, as the function ids themselves are numbered. */
  function FinderOf(crates: seq<Crate>): map<(CrateIdentifier, string), FunctionId>
  {
    if crates == [] then map[]
    else
      var init := crates[..|crates| - 1];
      FinderInsert(FinderOf(init), crates[|crates| - 1].metadata, crates[|crates| - 1].functions, Count(FunctionParts(init)))
  }

  /** The finder keys of one crate's functions, in order. */
  function CrateKeys(meta: CrateIdentifier, fs: seq<Function>): (r: seq<(CrateIdentifier, string)>)
    ensures |r| == |fs| && forall j :: 0 <= j < |fs| ==> r[j] == (meta, fs[j].defPath)
  {
    seq(|fs|, j requires 0 <= j < |fs| => (meta, fs[j].defPath))
  }

  /** The finder key of every function, by global function id. */
  function FunctionKeys(crates: seq<Crate>): (r: seq<(CrateIdentifier, string)>)
    ensures |r| == Count(FunctionParts(crates))
  {
    if crates == [] then []
    else
      var init := crates[..|crates| - 1];
      FunctionKeys(init) + CrateKeys(crates[|crates| - 1].metadata, crates[|crates| - 1].functions)
  }

  /** As written, a crate with two functions of the same definition path
      shifts the finder's numbering for every later crate: here the only
      function of the second crate has id 2 but is found under id 1. */
  lemma FinderAsWrittenShifts(a: CrateIdentifier, b: CrateIdentifier, f: Function, g: Function, crates: seq<Crate>)
    requires a != b
    requires crates == [Crate(a, [], [], [f, f]), Crate(b, [], [], [g])]
    ensures 2 < |Flatten(FunctionParts(crates))| && Flatten(FunctionParts(crates))[2] == (2, g)
    ensures FinderAsWritten(crates)[(b, g.defPath)] == 1
  {
    var first := crates[..1];
    assert crates[..|crates| - 1] == first;
    assert first[..0] == [];
    assert FinderAsWritten(first[..0]) == map[];
    var fs := [f, f];
    assert fs[..1] == [f] && [f][..0] == [];
    var key := (a, f.defPath);
    assert FinderInsert(map[], a, [f], 0) == map[key := 0];
    assert FinderInsert(map[], a, fs, 0) == map[key := 0][key := 1];
    var m := FinderAsWritten(first);
    assert m == map[key := 0][key := 1];
    assert m.Keys == {key};
    assert |m| == 1;
    assert [g][..0] == [];
    assert FinderAsWritten(crates) == FinderInsert(m, b, [g], 1);
    PartsAt(crates, 1);
    assert FunctionParts(first) == [[f, f]];
    assert Count(FunctionParts(first)) == 2 by {
      assert FunctionParts(first)[..0] == [];
    }
    FlattenAt(FunctionParts(crates), 1, 0);
  }

  /** Numbered from the function offset, the finder maps every function's
      key, and only those, to the id of a function with that key (the last
      one when several share it). */
  lemma {:induction false} FinderOfSpec(crates: seq<Crate>)
    ensures forall key :: key in FinderOf(crates) <==> key in FunctionKeys(crates)
    ensures forall key :: key in FinderOf(crates) ==>
      FinderOf(crates)[key] < |FunctionKeys(crates)| && FunctionKeys(crates)[FinderOf(crates)[key]] == key
  {
    if crates != [] {
      var init := crates[..|crates| - 1];
      var last := crates[|crates| - 1];
      FinderOfSpec(init);
      FinderInsertSpec(FinderOf(init), FunctionKeys(init), last.metadata, last.functions);
    }
  }

  /** One crate's functions added to a finder consistent with `keys`. */
  lemma {:induction false} FinderInsertSpec(finder: map<(CrateIdentifier, string), FunctionId>,
                                            keys: seq<(CrateIdentifier, string)>, meta: CrateIdentifier, fs: seq<Function>)
    requires forall key :: key in finder <==> key in keys
    requires forall key :: key in finder ==> finder[key] < |keys| && keys[finder[key]] == key
    ensures var keys' := keys + CrateKeys(meta, fs);
      var f := FinderInsert(finder, meta, fs, |keys|);
      (forall key :: key in f <==> key in keys') &&
      (forall key :: key in f ==> f[key] < |keys'| && keys'[f[key]] == key)
  {
    var keys' := keys + CrateKeys(meta, fs);
    if fs != [] {
      var n := |fs| - 1;
      var keysInit := keys + CrateKeys(meta, fs[..n]);
      FinderInsertSpec(finder, keys, meta, fs[..n]);
      assert keys' == keysInit + [(meta, fs[n].defPath)];
      var f := FinderInsert(finder, meta, fs, |keys|);
      forall key | key in keys'
        ensures key in f
      {
        var i :| 0 <= i < |keys'| && keys'[i] == key;
        if i < |keysInit| {
          assert keysInit[i] == key;
        }
      }
    }
  }

  /** The resolved calls of one function: `(caller, callee)` for each call
      whose (crate, definition path) the finder knows. */
  function CallsOf(f: FunctionId, calls: seq<GlobalDefPath>, finder: map<(CrateIdentifier, string), FunctionId>): seq<(FunctionId, FunctionId)>
  {
    if calls == [] then []
    else
      var c := calls[|calls| - 1];
      CallsOf(f, calls[..|calls| - 1], finder) +
      (if (c.crateIdent, c.defPath) in finder then [(f, finder[(c.crateIdent, c.defPath)])] else [])
  }

  /** The number of calls of one function the finder does not know. */
  function MissesOf(calls: seq<GlobalDefPath>, finder: map<(CrateIdentifier, string), FunctionId>): nat
  {
    if calls == [] then 0
    else
      var c := calls[|calls| - 1];
      MissesOf(calls[..|calls| - 1], finder) + (if (c.crateIdent, c.defPath) in finder then 0 else 1)
  }

  /** `function_calls` after linking every function's calls. */
  function CallFacts(fs: seq<(FunctionId, Function)>, finder: map<(CrateIdentifier, string), FunctionId>): seq<(FunctionId, FunctionId)>
  {
    if fs == [] then []
    else CallFacts(fs[..|fs| - 1], finder) + CallsOf(fs[|fs| - 1].0, fs[|fs| - 1].1.calls, finder)
  }

  /** The unresolved-call counter after linking every function's calls. */
  function Misses(fs: seq<(FunctionId, Function)>, finder: map<(CrateIdentifier, string), FunctionId>): nat
  {
    if fs == [] then 0
    else Misses(fs[..|fs| - 1], finder) + MissesOf(fs[|fs| - 1].1.calls, finder)
  }

  /** One function's calls: a resolved call gives exactly the fact naming
      the found callee, and every call is either resolved or counted. */
  lemma {:induction false} CallsOfSpec(f: FunctionId, calls: seq<GlobalDefPath>, finder: map<(CrateIdentifier, string), FunctionId>)
    ensures |CallsOf(f, calls, finder)| + MissesOf(calls, finder) == |calls|
    ensures forall fact :: fact in CallsOf(f, calls, finder) <==>
      exists c :: c in calls && (c.crateIdent, c.defPath) in finder && fact == (f, finder[(c.crateIdent, c.defPath)])
  {
    if calls != [] {
      var n := |calls| - 1;
      CallsOfSpec(f, calls[..n], finder);
      assert calls == calls[..n] + [calls[n]];
    }
  }

  /** Every call is linked or counted as a failure, and `function_calls`
      holds exactly the facts of the resolved calls. */
  lemma {:induction false} CallFactsSpec(fs: seq<(FunctionId, Function)>, finder: map<(CrateIdentifier, string), FunctionId>)
    ensures forall fact :: fact in CallFacts(fs, finder) <==>
      exists i :: 0 <= i < |fs| && fact in CallsOf(fs[i].0, fs[i].1.calls, finder)
  {
    if fs != [] {
      var n := |fs| - 1;
      CallFactsSpec(fs[..n], finder);
      forall fact | fact in CallFacts(fs, finder)
        ensures exists i :: 0 <= i < |fs| && fact in CallsOf(fs[i].0, fs[i].1.calls, finder)
      {
        if fact !in CallsOf(fs[n].0, fs[n].1.calls, finder) {
          assert fact in CallFacts(fs[..n], finder);
          var i :| 0 <= i < n && fact in CallsOf(fs[..n][i].0, fs[..n][i].1.calls, finder);
          assert fs[..n][i] == fs[i];
        }
      }
      forall fact | exists i :: 0 <= i < |fs| && fact in CallsOf(fs[i].0, fs[i].1.calls, finder)
        ensures fact in CallFacts(fs, finder)
      {
        var i :| 0 <= i < |fs| && fact in CallsOf(fs[i].0, fs[i].1.calls, finder);
        if i < n {
          assert fs[..n][i] == fs[i];
        }
      }
    }
  }

  /** The number of calls of all functions. */
  function CallCount(fs: seq<(FunctionId, Function)>): nat
  {
    if fs == [] then 0 else CallCount(fs[..|fs| - 1]) + |fs[|fs| - 1].1.calls|
  }

  /** Linked calls and failures together account for every call. */
  lemma {:induction false} CallFactsCount(fs: seq<(FunctionId, Function)>, finder: map<(CrateIdentifier, string), FunctionId>)
    ensures |CallFacts(fs, finder)| + Misses(fs, finder) == CallCount(fs)
  {
    if fs != [] {
      CallFactsCount(fs[..|fs| - 1], finder);
      CallsOfSpec(fs[|fs| - 1].0, fs[|fs| - 1].1.calls, finder);
    }
  }

  /** Interns the types of each owner in order, recording `(owner, id)`. */
  function InternOwners(s: Interned, owners: seq<(nat, seq<Type>)>): Interned
  {
    if owners == [] then s
    else InternFacts(InternOwners(s, owners[..|owners| - 1]), owners[|owners| - 1].0, owners[|owners| - 1].1)
  }

  /** Interning for several owners keeps the table valid and only appends
      types and facts. */
  lemma {:induction false} InternOwnersGrow(s: Interned, owners: seq<(nat, seq<Type>)>)
    requires ValidTable(s.table)
    ensures var r := InternOwners(s, owners);
      ValidTable(r.table) &&
      |s.table.types| <= |r.table.types| && r.table.types[..|s.table.types|] == s.table.types &&
      |s.facts| <= |r.facts| && r.facts[..|s.facts|] == s.facts
  {
    if owners != [] {
      var n := |owners| - 1;
      var p := InternOwners(s, owners[..n]);
      var r := InternOwners(s, owners);
      InternOwnersGrow(s, owners[..n]);
      InternFactsGrow(p, owners[n].0, owners[n].1);
      InternFactsLength(p, owners[n].0, owners[n].1);
      assert r.table.types[..|s.table.types|] == r.table.types[..|p.table.types|][..|s.table.types|];
      assert r.facts[..|s.facts|] == r.facts[..|p.facts|][..|s.facts|];
    }
  }

  /** Some fact names `owner` and an id under which `types` lists `ty`. */
  ghost predicate Recorded(facts: seq<(nat, TypeId)>, types: seq<(TypeId, Type)>, owner: nat, ty: Type) {
    exists id :: (owner, id) in facts && id < |types| && types[id].1 == ty
  }

  /** A fact recorded before interning more types stays, and its id still
      lists the same type. */
  lemma KeptRecord(p: Interned, r: Interned, owner: nat, ty: Type)
    requires |p.table.types| <= |r.table.types| && r.table.types[..|p.table.types|] == p.table.types
    requires |p.facts| <= |r.facts| && r.facts[..|p.facts|] == p.facts
    requires Recorded(p.facts, p.table.types, owner, ty)
    ensures Recorded(r.facts, r.table.types, owner, ty)
  {
    var id :| (owner, id) in p.facts && id < |p.table.types| && p.table.types[id].1 == ty;
    assert r.table.types[..|p.table.types|][id] == p.table.types[id];
    var k :| 0 <= k < |p.facts| && p.facts[k] == (owner, id);
    assert r.facts[..|p.facts|][k] == p.facts[k];
  }

  /** Interning for several owners records, for every type of every owner,
      a fact naming the owner and an id under which that type is listed. */
  lemma {:induction false} InternOwnersRecords(s: Interned, owners: seq<(nat, seq<Type>)>)
    requires ValidTable(s.table)
    ensures var r := InternOwners(s, owners);
      forall i, j :: 0 <= i < |owners| && 0 <= j < |owners[i].1| ==> Recorded(r.facts, r.table.types, owners[i].0, owners[i].1[j])
  {
    if owners != [] {
      var n := |owners| - 1;
      var p := InternOwners(s, owners[..n]);
      var r := InternOwners(s, owners);
      InternOwnersRecords(s, owners[..n]);
      InternOwnersGrow(s, owners[..n]);
      InternFactsGrow(p, owners[n].0, owners[n].1);
      InternFactsFacts(p, owners[n].0, owners[n].1);
      InternFactsLength(p, owners[n].0, owners[n].1);
      forall i, j | 0 <= i < |owners| && 0 <= j < |owners[i].1|
        ensures Recorded(r.facts, r.table.types, owners[i].0, owners[i].1[j])
      {
        if i < n {
          assert owners[..n][i] == owners[i];
          KeptRecord(p, r, owners[i].0, owners[i].1[j]);
        } else {
          var added := r.facts[|p.facts|..];
          var id := added[j].1;
          assert added[j] == r.facts[|p.facts| + j] == (owners[i].0, id);
        }
      }
    }
  }

  /** Each function with its argument types. */
  function ArgOwners(fs: seq<(FunctionId, Function)>): (r: seq<(nat, seq<Type>)>)
    ensures |r| == |fs| && forall i :: 0 <= i < |fs| ==> r[i] == (fs[i].0, fs[i].1.argumentTypes)
  {
    seq(|fs|, i requires 0 <= i < |fs| => (fs[i].0, fs[i].1.argumentTypes))
  }

  /** Each function with its return type. */
  function ReturnOwners(fs: seq<(FunctionId, Function)>): (r: seq<(nat, seq<Type>)>)
    ensures |r| == |fs| && forall i :: 0 <= i < |fs| ==> r[i] == (fs[i].0, [fs[i].1.returnType])
  {
    seq(|fs|, i requires 0 <= i < |fs| => (fs[i].0, [fs[i].1.returnType]))
  }

  /** The types of a struct's fields, in order. */
  function FieldTypes(fields: seq<(string, Type)>): (r: seq<Type>)
    ensures |r| == |fields| && forall j :: 0 <= j < |fields| ==> r[j] == fields[j].1
  {
    seq(|fields|, j requires 0 <= j < |fields| => fields[j].1)
  }

  /** Each struct with its field types. */
  function FieldOwners(ss: seq<(StructId, StructData)>): (r: seq<(nat, seq<Type>)>)
    ensures |r| == |ss| && forall i :: 0 <= i < |ss| ==> r[i] == (ss[i].0, FieldTypes(ss[i].1.fields))
  {
    seq(|ss|, i requires 0 <= i < |ss| => (ss[i].0, FieldTypes(ss[i].1.fields)))
  }

  /** The empty type table. */
  const EMPTY_TABLE := TypeTable([], map[])

  /** The types and `argument_types` after linking calls. */
  function ArgsStage(crates: seq<Crate>): Interned
  {
    InternOwners(Interned(EMPTY_TABLE, []), ArgOwners(Flatten(FunctionParts(crates))))
  }

  /** The types and the type links after `link_types`. */
  function LinkStage(crates: seq<Crate>): Links
  {
    var a := ArgsStage(crates);
    LinkAll(Links(a.table, [], [], [], []), Flatten(StructParts(crates)), a.table.types)
  }

  /** The types and `field_types` after the struct fields. */
  function FieldStage(crates: seq<Crate>): Interned
  {
    InternOwners(Interned(LinkStage(crates).table, []), FieldOwners(Flatten(StructParts(crates))))
  }

  /** The types and `return_type` after the return types. */
  function ReturnStage(crates: seq<Crate>): Interned
  {
    InternOwners(Interned(FieldStage(crates).table, []), ReturnOwners(Flatten(FunctionParts(crates))))
  }

  /** Every stage keeps the type table valid, so equal types always share
      one id, and each stage only appends types. */
  lemma StagesValid(crates: seq<Crate>)
    ensures ValidTable(ArgsStage(crates).table)
    ensures ValidTable(LinkStage(crates).table)
    ensures ValidTable(FieldStage(crates).table)
    ensures ValidTable(ReturnStage(crates).table)
  {
    InternOwnersGrow(Interned(EMPTY_TABLE, []), ArgOwners(Flatten(FunctionParts(crates))));
    var a := ArgsStage(crates);
    LinkAllSources(Links(a.table, [], [], [], []), Flatten(StructParts(crates)), a.table.types);
    InternOwnersGrow(Interned(LinkStage(crates).table, []), FieldOwners(Flatten(StructParts(crates))));
    InternOwnersGrow(Interned(FieldStage(crates).table, []), ReturnOwners(Flatten(FunctionParts(crates))));
  }

  /** Every argument type of every function is recorded in `argument_types`
      under the function's id and the id the final table lists it under. */
  lemma ArgumentTypesRecorded(crates: seq<Crate>, i: nat, j: nat)
    requires i < |Flatten(FunctionParts(crates))| && j < |Flatten(FunctionParts(crates))[i].1.argumentTypes|
    ensures var f := Flatten(FunctionParts(crates))[i];
      Recorded(ArgsStage(crates).facts, ReturnStage(crates).table.types, f.0, f.1.argumentTypes[j])
  {
    var fs := Flatten(FunctionParts(crates));
    var a := ArgsStage(crates);
    InternOwnersRecords(Interned(EMPTY_TABLE, []), ArgOwners(fs));
    assert ArgOwners(fs)[i] == (fs[i].0, fs[i].1.argumentTypes);
    var id :| (fs[i].0, id) in a.facts && id < |a.table.types| && a.table.types[id].1 == fs[i].1.argumentTypes[j];
    LaterStagesKeepTypes(crates);
    assert ReturnStage(crates).table.types[..|a.table.types|][id] == a.table.types[id];
  }

  /** `b` lists every type of `a` under the same id, and possibly more. */
  ghost predicate TypesPrefix(a: seq<(TypeId, Type)>, b: seq<(TypeId, Type)>) {
    |a| <= |b| && b[..|a|] == a
  }

  lemma TypesPrefixTrans(a: seq<(TypeId, Type)>, b: seq<(TypeId, Type)>, c: seq<(TypeId, Type)>)
    requires TypesPrefix(a, b) && TypesPrefix(b, c)
    ensures TypesPrefix(a, c)
  {
    assert c[..|a|] == c[..|b|][..|a|];
  }

  /** The later stages only append types. */
  lemma LaterStagesKeepTypes(crates: seq<Crate>)
    ensures TypesPrefix(ArgsStage(crates).table.types, ReturnStage(crates).table.types)
  {
    var a := ArgsStage(crates).table.types;
    var l := LinkStage(crates).table.types;
    var f := FieldStage(crates).table.types;
    var r := ReturnStage(crates).table.types;
    assert TypesPrefix(a, l) by {
      StagesValid(crates);
      LinkAllSources(Links(ArgsStage(crates).table, [], [], [], []), Flatten(StructParts(crates)), a);
    }
    assert TypesPrefix(l, f) by {
      StagesValid(crates);
      InternOwnersGrow(Interned(LinkStage(crates).table, []), FieldOwners(Flatten(StructParts(crates))));
    }
    assert TypesPrefix(f, r) by {
      StagesValid(crates);
      InternOwnersGrow(Interned(FieldStage(crates).table, []), ReturnOwners(Flatten(FunctionParts(crates))));
    }
    TypesPrefixTrans(a, l, f);
    TypesPrefixTrans(a, f, r);
  }

  /** The parts and the numbered elements of the crates before a crate
      and of that crate. */
  lemma SnocParts(done: seq<Crate>, krate: Crate)
    ensures var all := done + [krate];
      ModParts(all) == ModParts(done) + [krate.mods] &&
      FunctionParts(all) == FunctionParts(done) + [krate.functions] &&
      StructParts(all) == StructParts(done) + [krate.structs] &&
      Flatten(ModParts(all)) == Flatten(ModParts(done)) + Numbered(krate.mods, Count(ModParts(done))) &&
      Flatten(FunctionParts(all)) == Flatten(FunctionParts(done)) + Numbered(krate.functions, Count(FunctionParts(done))) &&
      Flatten(StructParts(all)) == Flatten(StructParts(done)) + Numbered(krate.structs, Count(StructParts(done)))
  {
    var all := done + [krate];
    assert all[..|all| - 1] == done;
    assert (ModParts(done) + [krate.mods])[..|done|] == ModParts(done);
    assert (FunctionParts(done) + [krate.functions])[..|done|] == FunctionParts(done);
    assert (StructParts(done) + [krate.structs])[..|done|] == StructParts(done);
    FlattenLength(ModParts(done));
    FlattenLength(FunctionParts(done));
    FlattenLength(StructParts(done));
  }

  /** The finder and the module and function facts of the crates before a
      crate and of that crate. */
  lemma SnocFacts(done: seq<Crate>, krate: Crate)
    ensures var all := done + [krate];
      FinderOf(all) == FinderInsert(FinderOf(done), krate.metadata, krate.functions, Count(FunctionParts(done))) &&
      ModuleCrateFacts(all) == ModuleCrateFacts(done) + ModCrateFacts(krate.mods, Count(ModParts(done)), |done|) &&
      ModuleParentFacts(all) == ModuleParentFacts(done) + ParentFacts(krate.mods, Count(ModParts(done))) &&
      FunctionModuleFacts(all) == FunctionModuleFacts(done) +
        FnModFacts(krate.functions, Count(FunctionParts(done)), Count(ModParts(done)))
  {
    SnocFinder(done, krate);
    SnocModuleCrates(done, krate);
    SnocModuleParents(done, krate);
    SnocFunctionModules(done, krate);
  }

  lemma SnocFinder(done: seq<Crate>, krate: Crate)
    ensures FinderOf(done + [krate]) == FinderInsert(FinderOf(done), krate.metadata, krate.functions, Count(FunctionParts(done)))
  {
    var all := done + [krate];
    assert all[..|all| - 1] == done;
  }

  lemma SnocModuleCrates(done: seq<Crate>, krate: Crate)
    ensures ModuleCrateFacts(done + [krate]) == ModuleCrateFacts(done) + ModCrateFacts(krate.mods, Count(ModParts(done)), |done|)
  {
    var all := done + [krate];
    assert all[..|all| - 1] == done;
  }

  lemma SnocModuleParents(done: seq<Crate>, krate: Crate)
    ensures ModuleParentFacts(done + [krate]) == ModuleParentFacts(done) + ParentFacts(krate.mods, Count(ModParts(done)))
  {
    var all := done + [krate];
    assert all[..|all| - 1] == done;
  }

  lemma SnocFunctionModules(done: seq<Crate>, krate: Crate)
    ensures FunctionModuleFacts(done + [krate]) == FunctionModuleFacts(done) +
      FnModFacts(krate.functions, Count(FunctionParts(done)), Count(ModParts(done)))
  {
    var all := done + [krate];
    assert all[..|all| - 1] == done;
  }

  /** The crate tables of a database: modules, functions and structs with
      their global ids, the finder, and the module and function facts. */
  datatype Tables = Tables(
    modules: seq<(ModId, Mod)>,
    functions: seq<(FunctionId, Function)>,
    structs: seq<(StructId, StructData)>,
    finder: map<(CrateIdentifier, string), FunctionId>,
    modulesInCrates: seq<(ModId, CrateId)>,
    modulesInModules: seq<(ModId, ModId)>,
    functionsInModules: seq<(FunctionId, ModId)>)

  /** The crate tables after placing all of `crates`. */
  function TablesOf(crates: seq<Crate>): Tables
  {
    Tables(Flatten(ModParts(crates)), Flatten(FunctionParts(crates)), Flatten(StructParts(crates)), FinderOf(crates),
           ModuleCrateFacts(crates), ModuleParentFacts(crates), FunctionModuleFacts(crates))
  }

  /** One crate placed after the tables `t`: its modules, functions and
      structs numbered from the current lengths, its finder entries and
      its facts appended. */
  function PlaceCrate(t: Tables, krateId: CrateId, krate: Crate): Tables
  {
    var modOffset := |t.modules|;
    var fnOffset := |t.functions|;
    Tables(t.modules + Numbered(krate.mods, modOffset),
           t.functions + Numbered(krate.functions, fnOffset),
           t.structs + Numbered(krate.structs, |t.structs|),
           FinderInsert(t.finder, krate.metadata, krate.functions, fnOffset),
           t.modulesInCrates + ModCrateFacts(krate.mods, modOffset, krateId),
           t.modulesInModules + ParentFacts(krate.mods, modOffset),
           t.functionsInModules + FnModFacts(krate.functions, fnOffset, modOffset))
  }

  /** Placing the crates one at a time, each numbered after those before
      it, gives the tables of all of them. */
  lemma TablesSnoc(crates: seq<Crate>, k: nat)
    requires k < |crates|
    ensures TablesOf(crates[..k + 1]) == PlaceCrate(TablesOf(crates[..k]), k, crates[k])
  {
    assert crates[..k + 1] == crates[..k] + [crates[k]];
    SnocParts(crates[..k], crates[k]);
    SnocFacts(crates[..k], crates[k]);
    FlattenLength(ModParts(crates[..k]));
    FlattenLength(FunctionParts(crates[..k]));
    FlattenLength(StructParts(crates[..k]));
  }

  /** The crate tables a database holds. */
  function TablesIn(db: Database): Tables
    reads db`modules, db`functions, db`structs, db`functionFinder
    reads db`modulesInCrates, db`modulesInModules, db`functionsInModules
  {
    Tables(db.modules, db.functions, db.structs, db.functionFinder,
           db.modulesInCrates, db.modulesInModules, db.functionsInModules)
  }

  /** The database holds the given crates numbered and placed. */
  predicate HoldsCrates(db: Database, crates: seq<Crate>)
    reads db`modules, db`functions, db`structs, db`functionFinder
    reads db`modulesInCrates, db`modulesInModules, db`functionsInModules
  {
    TablesIn(db) == TablesOf(crates)
  }

  /** The database holds the resolved calls and the interned types of the
      given crates: argument types, type links, field types and return
      types, with the final type table. */
  predicate HoldsLinks(db: Database, crates: seq<Crate>)
    reads db`functions, db`functionFinder, db`functionCalls, db`types, db`typeFinder, db`argumentTypes
    reads db`isReferenceTo, db`tuple, db`slice, db`isStructType, db`fieldTypes, db`returnType
  {
    var l := LinkStage(crates);
    (db.functionCalls, db.argumentTypes, db.isReferenceTo, db.tuple, db.slice, db.isStructType,
     db.fieldTypes, db.returnType, TypeTable(db.types, db.typeFinder)) ==
    (CallFacts(db.functions, db.functionFinder), ArgsStage(crates).facts, l.isReferenceTo, l.tuple, l.slice, l.isStructType,
     FieldStage(crates).facts, ReturnStage(crates).facts, ReturnStage(crates).table)
  }

  /** Nothing linked yet. */
  predicate NoLinks(db: Database)
    reads db`functionCalls, db`types, db`typeFinder, db`argumentTypes
    reads db`isReferenceTo, db`tuple, db`slice, db`isStructType, db`fieldTypes, db`returnType
  {
    (db.types, db.typeFinder, db.functionCalls, db.argumentTypes, db.isReferenceTo,
     db.tuple, db.slice, db.isStructType, db.fieldTypes, db.returnType) ==
    ([], map[], [], [], [], [], [], [], [], [])
  }

  /** Crates get ids 0, 1, 2, ... in reading order. */
  lemma CrateIds(crates: seq<Crate>, k: nat)
    requires k < |crates|
    ensures k < |Numbered(Metadata(crates), 0)| && Numbered(Metadata(crates), 0)[k] == (k, crates[k].metadata)
  {
  }

  /** Module `j` of crate `k` gets the id `j` plus the number of modules in
      earlier crates, and every module gets a `modules_in_crates` fact
      naming that id and crate `k`. */
  lemma {:induction false} ModuleIds(crates: seq<Crate>, k: nat, j: nat)
    requires k < |crates| && j < |crates[k].mods|
    ensures var id := Count(ModParts(crates[..k])) + j;
      id < |Flatten(ModParts(crates))| && Flatten(ModParts(crates))[id] == (id, crates[k].mods[j]) &&
      (id, k) in ModuleCrateFacts(crates)
  {
    PartsAt(crates, k);
    FlattenAt(ModParts(crates), k, j);
    ModuleCrateFactsHas(crates, k, j);
  }

  lemma {:induction false} ModuleCrateFactsHas(crates: seq<Crate>, k: nat, j: nat)
    requires k < |crates| && j < |crates[k].mods|
    ensures (Count(ModParts(crates[..k])) + j, k) in ModuleCrateFacts(crates)
  {
    var n := |crates| - 1;
    var init := crates[..n];
    if k == n {
      assert crates[..k] == init;
      var own := ModCrateFacts(crates[n].mods, Count(ModParts(init)), |init|);
      var all := ModuleCrateFacts(init) + own;
      assert all == ModuleCrateFacts(crates);
      assert all[|ModuleCrateFacts(init)| + j] == own[j] == (Count(ModParts(init)) + j, k);
    } else {
      assert init[..k] == crates[..k];
      ModuleCrateFactsHas(init, k, j);
    }
  }

  /** Function `j` of crate `k` gets the id `j` plus the number of
      functions in earlier crates, and its `functions_in_modules` fact names
      its containing module shifted by the number of modules in earlier
      crates. */
  lemma {:induction false} FunctionIds(crates: seq<Crate>, k: nat, j: nat)
    requires k < |crates| && j < |crates[k].functions|
    ensures var id := Count(FunctionParts(crates[..k])) + j;
      id < |Flatten(FunctionParts(crates))| && Flatten(FunctionParts(crates))[id] == (id, crates[k].functions[j]) &&
      (id, Count(ModParts(crates[..k])) + crates[k].functions[j].containingMod) in FunctionModuleFacts(crates)
  {
    PartsAt(crates, k);
    FlattenAt(FunctionParts(crates), k, j);
    FunctionModuleFactsHas(crates, k, j);
  }

  lemma {:induction false} FunctionModuleFactsHas(crates: seq<Crate>, k: nat, j: nat)
    requires k < |crates| && j < |crates[k].functions|
    ensures (Count(FunctionParts(crates[..k])) + j, Count(ModParts(crates[..k])) + crates[k].functions[j].containingMod)
      in FunctionModuleFacts(crates)
  {
    var n := |crates| - 1;
    var init := crates[..n];
    if k == n {
      assert crates[..k] == init;
      var own := FnModFacts(crates[n].functions, Count(FunctionParts(init)), Count(ModParts(init)));
      var all := FunctionModuleFacts(init) + own;
      assert all == FunctionModuleFacts(crates);
      assert all[|FunctionModuleFacts(init)| + j] == own[j];
    } else {
      assert init[..k] == crates[..k];
      FunctionModuleFactsHas(init, k, j);
    }
  }

  /** A module has a `modules_in_modules` fact exactly when it has a parent,
      and the fact names the parent shifted by the same offset. */
  lemma {:induction false} ParentFactsSpec(mods: seq<Mod>, offset: nat)
    ensures forall fact :: fact in ParentFacts(mods, offset) <==>
      exists j :: 0 <= j < |mods| && mods[j].parentMod.Some? && fact == (offset + j, offset + mods[j].parentMod.value)
  {
    if mods != [] {
      var n := |mods| - 1;
      ParentFactsSpec(mods[..n], offset);
      forall fact | fact in ParentFacts(mods, offset)
        ensures exists j :: 0 <= j < |mods| && mods[j].parentMod.Some? && fact == (offset + j, offset + mods[j].parentMod.value)
      {
        if fact in ParentFacts(mods[..n], offset) {
          var j :| 0 <= j < n && mods[..n][j].parentMod.Some? && fact == (offset + j, offset + mods[..n][j].parentMod.value);
          assert mods[..n][j] == mods[j];
        }
      }
      forall fact | exists j :: 0 <= j < |mods| && mods[j].parentMod.Some? && fact == (offset + j, offset + mods[j].parentMod.value)
        ensures fact in ParentFacts(mods, offset)
      {
        var j :| 0 <= j < |mods| && mods[j].parentMod.Some? && fact == (offset + j, offset + mods[j].parentMod.value);
        if j < n {
          assert mods[..n][j] == mods[j];
        }
      }
    }
  }
}
