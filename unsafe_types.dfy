/** The `unsafe_types` query: which types are unsafe (`UnsafeCell`, unions,
    raw pointers, foreign types and everything that exposes one of them),
    and which ADTs wrap an unsafe type without exposing it. */
module UnsafeTypesQuery {
  import opened Wrappers
  import opened DataStructures
  import opened QueryUtils
  import opened TypesQuery
  import Closures

  datatype UnsafeTypesError = NoUnsafeCellString | NoUnsafeCellSummary

  const UNSAFE_CELL_KEY: string := "core.cell.UnsafeCell"

  /** The ADT definitions whose def path has the given summary id, as
      (type, def path) rows in order. */
  function WithSummary(adtDefs: seq<AdtDefRow>, defPaths: seq<DefPathValue>, summaryId: nat): seq<(nat, nat)>
    requires forall j :: 0 <= j < |adtDefs| ==> adtDefs[j].defPath < |defPaths|
  {
    if adtDefs == [] then []
    else
      var a := adtDefs[|adtDefs| - 1];
      WithSummary(adtDefs[..|adtDefs| - 1], defPaths, summaryId) +
        (if defPaths[a.defPath].summaryId == summaryId then [(a.typ, a.defPath)] else [])
  }

  /** `collect_unsafe_cell_types`: the summary id of "core.cell.UnsafeCell"
      (both lookups are unwrapped in the source), then the ADTs with it. */
  function UnsafeCellTypes(adtDefs: seq<AdtDefRow>, defPaths: seq<DefPathValue>, strings: seq<string>,
                           summaryKeys: seq<nat>): Result<seq<(nat, nat)>, UnsafeTypesError>
    requires forall j :: 0 <= j < |adtDefs| ==> adtDefs[j].defPath < |defPaths|
  {
    var key := Lookup(strings, UNSAFE_CELL_KEY);
    if key.None? then Err(NoUnsafeCellString)
    else
      var id := Lookup(summaryKeys, key.value);
      if id.None? then Err(NoUnsafeCellSummary)
      else Ok(WithSummary(adtDefs, defPaths, id.value))
  }

  lemma {:induction false} WithSummaryMember(adtDefs: seq<AdtDefRow>, defPaths: seq<DefPathValue>, summaryId: nat,
                                             p: (nat, nat))
    requires forall j :: 0 <= j < |adtDefs| ==> adtDefs[j].defPath < |defPaths|
    ensures p in WithSummary(adtDefs, defPaths, summaryId) <==>
      exists a :: a in adtDefs && p == (a.typ, a.defPath) && defPaths[a.defPath].summaryId == summaryId
  {
    if adtDefs != [] {
      var init := adtDefs[..|adtDefs| - 1];
      WithSummaryMember(init, defPaths, summaryId, p);
      assert adtDefs == init + [adtDefs[|adtDefs| - 1]];
    }
  }

  /** With duplicate-free interning tables: the query fails exactly when the
      string or its summary key is not interned, and otherwise yields the
      ADTs whose def path's summary key reads "core.cell.UnsafeCell". */
  lemma UnsafeCellTypesSpec(adtDefs: seq<AdtDefRow>, defPaths: seq<DefPathValue>, strings: seq<string>,
                            summaryKeys: seq<nat>, p: (nat, nat))
    requires forall j :: 0 <= j < |adtDefs| ==> adtDefs[j].defPath < |defPaths|
    requires NoDuplicates(strings) && NoDuplicates(summaryKeys)
    ensures UnsafeCellTypes(adtDefs, defPaths, strings, summaryKeys).Ok? <==>
      exists k :: 0 <= k < |summaryKeys| && summaryKeys[k] < |strings| && strings[summaryKeys[k]] == UNSAFE_CELL_KEY
    ensures UnsafeCellTypes(adtDefs, defPaths, strings, summaryKeys).Ok? ==>
      (p in UnsafeCellTypes(adtDefs, defPaths, strings, summaryKeys).value <==>
        exists a ::
          a in adtDefs && p == (a.typ, a.defPath) &&
          var s := defPaths[a.defPath].summaryId;
          s < |summaryKeys| && summaryKeys[s] < |strings| && strings[summaryKeys[s]] == UNSAFE_CELL_KEY)
  {
    var key := Lookup(strings, UNSAFE_CELL_KEY);
    if exists k :: 0 <= k < |summaryKeys| && summaryKeys[k] < |strings| && strings[summaryKeys[k]] == UNSAFE_CELL_KEY {
      var k :| 0 <= k < |summaryKeys| && summaryKeys[k] < |strings| && strings[summaryKeys[k]] == UNSAFE_CELL_KEY;
      IndexOfDistinct(strings, summaryKeys[k]);
      assert summaryKeys[k] in summaryKeys;
    }
    if key.Some? {
      var id := Lookup(summaryKeys, key.value);
      if id.Some? {
        WithSummaryMember(adtDefs, defPaths, id.value, p);
        forall s: nat | s < |summaryKeys| && summaryKeys[s] < |strings| && strings[summaryKeys[s]] == UNSAFE_CELL_KEY
          ensures s == id.value
        {
          IndexOfDistinct(strings, summaryKeys[s]);
          IndexOfDistinct(summaryKeys, s);
        }
      }
    }
  }

  /** `collect_union_types`: the ADTs of kind `Union`, in order. */
  function UnionTypes(adtDefs: seq<AdtDefRow>): seq<(nat, nat)>
  {
    if adtDefs == [] then []
    else
      var a := adtDefs[|adtDefs| - 1];
      UnionTypes(adtDefs[..|adtDefs| - 1]) + (if a.kind == Union then [(a.typ, a.defPath)] else [])
  }

  lemma {:induction false} UnionTypesSpec(adtDefs: seq<AdtDefRow>, p: (nat, nat))
    ensures p in UnionTypes(adtDefs) <==> exists a :: a in adtDefs && a.kind == Union && p == (a.typ, a.defPath)
  {
    if adtDefs != [] {
      var init := adtDefs[..|adtDefs| - 1];
      UnionTypesSpec(init, p);
      assert adtDefs == init + [adtDefs[|adtDefs| - 1]];
    }
  }

  // ---------------------------------------------------------------------
  // The unsafe-types fixpoint.

  /** The relations the Datalog program reads; each base relation is given
      by its types, and `refs` holds (reference, target, mutability). */
  datatype TypeRelations = TypeRelations(unsafeCells: set<nat>, unions: set<nat>, rawPtrs: set<nat>, foreign: set<nat>,
                                         adtFields: set<AdtFieldRow>, arrays: set<(nat, nat)>, slices: set<(nat, nat)>,
                                         refs: set<(nat, nat, bool)>, tupleElements: set<(nat, nat, nat)>)

  /** The nine rules, read as conditions on a set of types. */
  predicate Rules(u: set<nat>, rel: TypeRelations)
  {
    rel.unsafeCells <= u && rel.unions <= u && rel.rawPtrs <= u && rel.foreign <= u &&
    (forall f :: f in rel.adtFields && f.visibility == Public && f.typ in u ==> f.adt in u) &&
    (forall a :: a in rel.arrays && a.1 in u ==> a.0 in u) &&
    (forall s :: s in rel.slices && s.1 in u ==> s.0 in u) &&
    (forall r :: r in rel.refs && r.1 in u ==> r.0 in u) &&
    (forall t :: t in rel.tupleElements && t.2 in u ==> t.0 in u)
  }

  /** The types the four base rules make unsafe. */
  function Base(rel: TypeRelations): set<nat>
  {
    rel.unsafeCells + rel.unions + rel.rawPtrs + rel.foreign
  }

  /** Unsafety flows from a component type to the type containing it. */
  function Edges(rel: TypeRelations): set<(nat, nat)>
  {
    (set f | f in rel.adtFields && f.visibility == Public :: (f.typ, f.adt)) +
    (set a | a in rel.arrays :: (a.1, a.0)) +
    (set s | s in rel.slices :: (s.1, s.0)) +
    (set r | r in rel.refs :: (r.1, r.0)) +
    (set t | t in rel.tupleElements :: (t.2, t.0))
  }

  /** The types reachable from `base` along the edges: the closure with a
      single tag, read back as a set of types. */
  function TypesClosure(base: set<nat>, e: set<(nat, nat)>): set<nat>
  {
    set x | x in Closures.Closure(set t | t in base :: ((), t), e) :: x.1
  }

  /** `unsafe_types`. */
  function UnsafeTypes(rel: TypeRelations): set<nat>
  {
    TypesClosure(Base(rel), Edges(rel))
  }

  /** Following an edge from a type in `u` stays in `u`. */
  predicate EdgeClosed(u: set<nat>, edges: set<(nat, nat)>)
  {
    forall p :: p in edges && p.0 in u ==> p.1 in u
  }

  /** The rules hold for every set that contains the base relations and
      is closed under the edges. */
  lemma RulesFromEdges(u: set<nat>, rel: TypeRelations)
    requires Base(rel) <= u
    requires EdgeClosed(u, Edges(rel))
    ensures Rules(u, rel)
  {
    var e := Edges(rel);
    forall f | f in rel.adtFields && f.visibility == Public && f.typ in u
      ensures f.adt in u
    {
      assert (f.typ, f.adt) in e;
    }
    forall a | a in rel.arrays && a.1 in u
      ensures a.0 in u
    {
      assert (a.1, a.0) in e;
    }
    forall s | s in rel.slices && s.1 in u
      ensures s.0 in u
    {
      assert (s.1, s.0) in e;
    }
    forall r | r in rel.refs && r.1 in u
      ensures r.0 in u
    {
      assert (r.1, r.0) in e;
    }
    forall t | t in rel.tupleElements && t.2 in u
      ensures t.0 in u
    {
      assert (t.2, t.0) in e;
    }
  }

  /** The closure of a set of types, read back as a set of types,
      contains them and is closed under the edges. */
  lemma ClosureOfTypes(base: set<nat>, e: set<(nat, nat)>)
    ensures base <= TypesClosure(base, e)
    ensures EdgeClosed(TypesClosure(base, e), e)
  {
    var seed := set t | t in base :: ((), t);
    var c := Closures.Closure(seed, e);
    var u := set x | x in c :: x.1;
    Closures.ClosureCorrect(seed, e);
    forall t | t in base
      ensures t in u
    {
      assert ((), t) in seed;
    }
    forall p: (nat, nat) | p in e && p.0 in u
      ensures p.1 in u
    {
      var x :| x in c && x.1 == p.0;
      assert (x.0, p.1) in c;
      assert x.0 == ();
    }
  }

  /** `unsafe_types` satisfies every rule of the program. */
  lemma UnsafeTypesRules(rel: TypeRelations)
    ensures Rules(UnsafeTypes(rel), rel)
  {
    ClosureOfTypes(Base(rel), Edges(rel));
    RulesFromEdges(UnsafeTypes(rel), rel);
  }

  /** ... and is the least such set: a type is unsafe only if the rules
      force it. */
  lemma UnsafeTypesLeast(rel: TypeRelations, u: set<nat>)
    requires Rules(u, rel)
    ensures UnsafeTypes(rel) <= u
  {
    var t := set n | n in u :: ((), n);
    var e := Edges(rel);
    forall x, p | x in t && p in e && x.1 == p.0
      ensures (x.0, p.1) in t
    {
      assert p.1 in u;
    }
    Closures.ClosureLeast(set n | n in Base(rel) :: ((), n), e, t);
  }

  // ---------------------------------------------------------------------
  // Safe wrappers.

  function AdtOf(f: AdtFieldRow): int
  {
    f.adt
  }

  /** An ADT (given by its fields) is a safe wrapper when it has a field of
      unsafe type and every such field is not public. */
  predicate SafeWrapper(fields: seq<AdtFieldRow>, unsafeTypes: set<nat>)
  {
    (exists f :: f in fields && f.typ in unsafeTypes) &&
    forall f :: f in fields && f.typ in unsafeTypes ==> f.visibility != Public
  }

  /** The body of the `flat_map` closure: a flag and an early return. */
  method IsSafeWrapper(group: seq<AdtFieldRow>, unsafeTypes: set<nat>) returns (b: bool)
    ensures b == SafeWrapper(group, unsafeTypes)
  {
    var containsUnsafeField := false;
    var i := 0;
    while i < |group|
      invariant i <= |group|
      invariant containsUnsafeField <==> exists f :: f in group[..i] && f.typ in unsafeTypes
      invariant forall f :: f in group[..i] && f.typ in unsafeTypes ==> f.visibility != Public
    {
      assert group[..i + 1] == group[..i] + [group[i]];
      if group[i].typ in unsafeTypes {
        containsUnsafeField := true;
        if group[i].visibility == Public {
          return false;
        }
      }
      i := i + 1;
    }
    assert group[..i] == group;
    return containsUnsafeField;
  }

  /** The keys of the groups that are safe wrappers, in group order. */
  function SafeWrapperKeys(groups: seq<(int, seq<AdtFieldRow>)>, unsafeTypes: set<nat>): seq<int>
  {
    if groups == [] then []
    else
      var g := groups[|groups| - 1];
      SafeWrapperKeys(groups[..|groups| - 1], unsafeTypes) + (if SafeWrapper(g.1, unsafeTypes) then [g.0] else [])
  }

  /** `collect_safe_wrapper_types`. */
  method CollectSafeWrapperTypes(adtFields: seq<AdtFieldRow>, unsafeTypes: set<nat>) returns (r: seq<int>)
    ensures r == SafeWrapperKeys(SafeGroupBy(adtFields, AdtOf), unsafeTypes)
  {
    var groups := SafeGroupBy(adtFields, AdtOf);
    r := [];
    var i := 0;
    while i < |groups|
      invariant i <= |groups|
      invariant r == SafeWrapperKeys(groups[..i], unsafeTypes)
    {
      assert groups[..i + 1][..i] == groups[..i];
      var wrapper := IsSafeWrapper(groups[i].1, unsafeTypes);
      if wrapper {
        r := r + [groups[i].0];
      }
      i := i + 1;
    }
    assert groups[..i] == groups;
  }

  lemma {:induction false} SafeWrapperKeysMember(groups: seq<(int, seq<AdtFieldRow>)>, unsafeTypes: set<nat>, k: int)
    ensures k in SafeWrapperKeys(groups, unsafeTypes) <==>
      exists i :: 0 <= i < |groups| && groups[i].0 == k && SafeWrapper(groups[i].1, unsafeTypes)
  {
    if groups != [] {
      var init := groups[..|groups| - 1];
      SafeWrapperKeysMember(init, unsafeTypes, k);
      forall i | 0 <= i < |init|
        ensures init[i] == groups[i]
      {
      }
    }
  }

  lemma {:induction false} SafeWrapperKeysAscending(groups: seq<(int, seq<AdtFieldRow>)>, unsafeTypes: set<nat>)
    requires forall i, j :: 0 <= i < j < |groups| ==> groups[i].0 < groups[j].0
    ensures var r := SafeWrapperKeys(groups, unsafeTypes);
      forall i, j :: 0 <= i < j < |r| ==> r[i] < r[j]
  {
    if groups != [] {
      var n := |groups| - 1;
      var init := groups[..n];
      SafeWrapperKeysAscending(init, unsafeTypes);
      var prev := SafeWrapperKeys(init, unsafeTypes);
      forall i | 0 <= i < |prev|
        ensures prev[i] < groups[n].0
      {
        SafeWrapperKeysMember(init, unsafeTypes, prev[i]);
        var m :| 0 <= m < |init| && init[m].0 == prev[i] && SafeWrapper(init[m].1, unsafeTypes);
        assert init[m] == groups[m];
      }
    }
  }

  /** A safe wrapper is exactly an ADT with a field of unsafe type and no
      public field of unsafe type; the stored list has no duplicates. */
  lemma SafeWrapperTypesSpec(adtFields: seq<AdtFieldRow>, unsafeTypes: set<nat>, adt: nat)
    ensures var r := SafeWrapperKeys(SafeGroupBy(adtFields, AdtOf), unsafeTypes);
      forall i, j :: 0 <= i < j < |r| ==> r[i] < r[j]
    ensures adt in SafeWrapperKeys(SafeGroupBy(adtFields, AdtOf), unsafeTypes) <==>
      (exists f :: f in adtFields && f.adt == adt && f.typ in unsafeTypes) &&
      forall f :: f in adtFields && f.adt == adt && f.typ in unsafeTypes ==> f.visibility != Public
  {
    var g := SafeGroupBy(adtFields, AdtOf);
    SafeGroupByCorrect(adtFields, AdtOf);
    SafeWrapperKeysAscending(g, unsafeTypes);
    SafeWrapperKeysMember(g, unsafeTypes, adt);
    var own := KeyFilter(adtFields, AdtOf, adt);
    forall f
      ensures f in own <==> f in adtFields && f.adt == adt
    {
      KeyFilterMember(adtFields, AdtOf, adt, f);
    }
    if SafeWrapper(own, unsafeTypes) {
      var f :| f in own && f.typ in unsafeTypes;
      var i :| 0 <= i < |g| && g[i].0 == AdtOf(f) && f in g[i].1;
    }
  }

  /** The rows of `report_unsafe_type_defs` and
      `report_safe_wrapper_type_defs`: the selected type definitions whose
      type is in the given set, in order. */
  function TypeDefsOf(defs: seq<SelectedTypeDef>, types: set<nat>): seq<SelectedTypeDef>
  {
    if defs == [] then []
    else
      var d := defs[|defs| - 1];
      TypeDefsOf(defs[..|defs| - 1], types) + (if d.typ in types then [d] else [])
  }

  lemma {:induction false} TypeDefsOfSpec(defs: seq<SelectedTypeDef>, types: set<nat>, d: SelectedTypeDef)
    ensures d in TypeDefsOf(defs, types) <==> d in defs && d.typ in types
    ensures |TypeDefsOf(defs, types)| <= |defs|
  {
    if defs != [] {
      var init := defs[..|defs| - 1];
      TypeDefsOfSpec(init, types, d);
      assert defs == init + [defs[|defs| - 1]];
    }
  }
}
