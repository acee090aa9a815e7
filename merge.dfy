/** The generated `TableMerger`: merging another side's tables into self.
    Plain interning tables are re-interned value by value in schema order,
    each value first remapped through the key map of an earlier table; then
    tuple-valued tables; then the relations, keyed relations with a target
    first; the counters last. `MergeSpec` states the whole result as a
    function of the two sides; `TableMerger.Merge` computes it in place. */
module Merge {
  import opened DataStructures
  import opened IdCounters
  import opened Database

  /** The old-key to new-key map an interning-table merge produces: the
      other side's key `i` goes to the key of `values[i]` in the merged table. */
  function KeyMap<V(==)>(merged: seq<V>, values: seq<V>): (m: map<nat, nat>)
    requires forall i :: 0 <= i < |values| ==> values[i] in merged
    ensures forall i: nat :: i in m <==> i < |values|
    ensures forall i :: 0 <= i < |values| ==> m[i] < |merged| && merged[m[i]] == values[i]
  {
    map i | 0 <= i < |values| :: IndexOf(merged, values[i])
  }

  /** Replaces every key by its image in `m`. */
  function RemapSeq(s: seq<nat>, m: map<nat, nat>): (r: seq<nat>)
    requires forall i :: 0 <= i < |s| ==> s[i] in m
    ensures |r| == |s| && forall i :: 0 <= i < |s| ==> r[i] == m[s[i]]
  {
    seq(|s|, i requires 0 <= i < |s| => m[s[i]])
  }

  /** Remaps the crate of every build; the crate hash is a custom id and is copied. */
  function RemapBuilds(bs: seq<BuildValue>, crateMap: map<nat, nat>): (r: seq<BuildValue>)
    requires forall i :: 0 <= i < |bs| ==> bs[i].krate in crateMap
    ensures |r| == |bs|
    ensures forall i :: 0 <= i < |bs| ==> r[i] == BuildValue(crateMap[bs[i].krate], bs[i].crateHash)
  {
    seq(|bs|, i requires 0 <= i < |bs| => BuildValue(crateMap[bs[i].krate], bs[i].crateHash))
  }

  /** A span id of the other side: constants are kept, every other id is
      shifted past self's ids. */
  function ShiftSpan(id: Span, offset: nat): Span
  {
    if id >= SPAN_CONSTANTS then id + offset else id
  }

  /** A type id of the other side; types have no constants, so every id shifts. */
  function ShiftType(id: Type, offset: nat): Type
  {
    id + offset
  }

  /** A type id after the renaming a keyed relation recorded for it, if any. */
  function Updated(id: Type, reMap: map<Type, Type>): Type
  {
    if id in reMap then reMap[id] else id
  }

  function RemapSpanFact(f: SpanFact, offset: nat, stringsMap: map<nat, nat>): SpanFact
    requires f.expansion in stringsMap
  {
    SpanFact(ShiftSpan(f.span, offset), ShiftSpan(f.parent, offset), f.kind, stringsMap[f.expansion])
  }

  /** The other side's span facts, remapped, in their order. */
  function MapSpans(facts: seq<SpanFact>, offset: nat, stringsMap: map<nat, nat>): (r: seq<SpanFact>)
    requires forall f :: f in facts ==> f.expansion in stringsMap
    ensures |r| == |facts|
    decreases |facts|
  {
    if facts == [] then []
    else MapSpans(facts[..|facts| - 1], offset, stringsMap) + [RemapSpanFact(facts[|facts| - 1], offset, stringsMap)]
  }

  function RemapBuildCrateType(f: BuildCrateType, buildsMap: map<nat, nat>, stringsMap: map<nat, nat>): BuildCrateType
    requires f.build in buildsMap && f.crateType in stringsMap
  {
    BuildCrateType(buildsMap[f.build], stringsMap[f.crateType])
  }

  function MapBuildCrateTypes(facts: seq<BuildCrateType>, buildsMap: map<nat, nat>, stringsMap: map<nat, nat>): (r: seq<BuildCrateType>)
    requires forall f :: f in facts ==> f.build in buildsMap && f.crateType in stringsMap
    ensures |r| == |facts|
    decreases |facts|
  {
    if facts == [] then []
    else MapBuildCrateTypes(facts[..|facts| - 1], buildsMap, stringsMap) + [RemapBuildCrateType(facts[|facts| - 1], buildsMap, stringsMap)]
  }

  function RemapTypeFact(f: TypeFact, offset: nat, stringsMap: map<nat, nat>, reMap: map<Type, Type>): TypeFact
    requires f.kind in stringsMap
  {
    TypeFact(Updated(ShiftType(f.typ, offset), reMap), stringsMap[f.kind])
  }

  function MapTypes(facts: seq<TypeFact>, offset: nat, stringsMap: map<nat, nat>, reMap: map<Type, Type>): (r: seq<TypeFact>)
    requires forall f :: f in facts ==> f.kind in stringsMap
    ensures |r| == |facts|
    decreases |facts|
  {
    if facts == [] then []
    else MapTypes(facts[..|facts| - 1], offset, stringsMap, reMap) + [RemapTypeFact(facts[|facts| - 1], offset, stringsMap, reMap)]
  }

  /** The key of a `type_defs` fact. */
  type TypeDefKey = (Krate, InternedString)

  function KeyOf(f: TypeDef): TypeDefKey
  {
    (f.krate, f.name)
  }

  /** The merge map `TableMerger::new` collects from self's `type_defs`:
      every key with its target, a later fact overwriting an earlier one. */
  function KeyIndex(facts: seq<TypeDef>): map<TypeDefKey, Type>
  {
    if facts == [] then map[] else KeyIndex(facts[..|facts| - 1])[KeyOf(facts[|facts| - 1]) := facts[|facts| - 1].typ]
  }

  /** What merging `type_defs` has built so far: the persistent merge map,
      the renaming of dropped targets, and the facts appended. */
  datatype KeyedState = KeyedState(mergeMap: map<TypeDefKey, Type>, reMap: map<Type, Type>, appended: seq<TypeDef>)

  function RemapTypeDef(f: TypeDef, offset: nat, crateMap: map<nat, nat>, stringsMap: map<nat, nat>, reMap: map<Type, Type>): TypeDef
    requires f.krate in crateMap && f.name in stringsMap
  {
    TypeDef(Updated(ShiftType(f.typ, offset), reMap), crateMap[f.krate], stringsMap[f.name])
  }

  /** One fact of the other side's `type_defs`: a fact whose key is known
      is dropped and its target renamed to the known one; otherwise the key
      is recorded and the fact appended. */
  function KeyedStep(st: KeyedState, f: TypeDef, offset: nat, crateMap: map<nat, nat>, stringsMap: map<nat, nat>): KeyedState
    requires f.krate in crateMap && f.name in stringsMap
  {
    var g := RemapTypeDef(f, offset, crateMap, stringsMap, st.reMap);
    if KeyOf(g) in st.mergeMap then
      st.(reMap := st.reMap[g.typ := st.mergeMap[KeyOf(g)]])
    else
      st.(mergeMap := st.mergeMap[KeyOf(g) := g.typ], appended := st.appended + [g])
  }

  predicate KeyedMappable(facts: seq<TypeDef>, crateMap: map<nat, nat>, stringsMap: map<nat, nat>)
  {
    forall i :: 0 <= i < |facts| ==> facts[i].krate in crateMap && facts[i].name in stringsMap
  }

  function KeyedFold(facts: seq<TypeDef>, offset: nat, crateMap: map<nat, nat>, stringsMap: map<nat, nat>, init: KeyedState): KeyedState
    requires KeyedMappable(facts, crateMap, stringsMap)
    decreases |facts|
  {
    if facts == [] then init
    else
      KeyedStep(KeyedFold(facts[..|facts| - 1], offset, crateMap, stringsMap, init), facts[|facts| - 1], offset, crateMap, stringsMap)
  }

  /** The result of a merge: the merged tables and the merger's merge map. */
  datatype Merged = Merged(tables: TablesValue, mergeMap: map<TypeDefKey, Type>)

  /** What the other side must satisfy for the merge not to abort. */
  ghost predicate Mergeable(o: TablesValue)
  {
    IntegralValue(o) && o.spanCounter >= SPAN_CONSTANTS
  }

  /** One interning table after a merge and the other side's key map. */
  datatype Stage<V> = Stage(contents: seq<V>, keys: map<nat, nat>)

  function InternStage<V(==)>(current: seq<V>, values: seq<V>): (r: Stage<V>)
    ensures r.contents == InternAll(current, values)
    ensures forall i: nat :: i in r.keys <==> i < |values|
  {
    InternAllExtends(current, values);
    var contents := InternAll(current, values);
    Stage(contents, KeyMap(contents, values))
  }

  /** The interning tables after a merge and the key maps of the other side's tables. */
  datatype InternedTables = InternedTables(strings: Stage<string>, crateNames: Stage<InternedString>, builds: Stage<BuildValue>)

  /** The other side's interning chain is closed: every crate name is a
      string key and every build's crate is a crate-name key. */
  predicate ChainClosed(strings: seq<string>, crateNames: seq<InternedString>, builds: seq<BuildValue>)
  {
    (forall i :: 0 <= i < |crateNames| ==> crateNames[i] < |strings|) &&
    (forall i :: 0 <= i < |builds| ==> builds[i].krate < |crateNames|)
  }

  /** The interning part of a merge: `strings`, then `crate_names` with its
      values remapped through the strings map, then the tuple table `builds`
      with its crate remapped and its crate hash copied. */
  function InternStages(strings: seq<string>, crateNames: seq<InternedString>, builds: seq<BuildValue>,
                        oStrings: seq<string>, oCrateNames: seq<InternedString>, oBuilds: seq<BuildValue>): (r: InternedTables)
    requires ChainClosed(oStrings, oCrateNames, oBuilds)
    ensures forall i: nat :: i in r.strings.keys <==> i < |oStrings|
    ensures forall i: nat :: i in r.crateNames.keys <==> i < |oCrateNames|
    ensures forall i: nat :: i in r.builds.keys <==> i < |oBuilds|
  {
    var s := InternStage(strings, oStrings);
    var c := InternStage(crateNames, RemapSeq(oCrateNames, s.keys));
    var b := InternStage(builds, RemapBuilds(oBuilds, c.keys));
    InternedTables(s, c, b)
  }

  ghost function MergeInterned(v: TablesValue, o: TablesValue): (r: InternedTables)
    requires Mergeable(o)
  {
    InternStages(v.strings, v.crateNames, v.builds, o.strings, o.crateNames, o.builds)
  }

  /** The key maps of a merge's interning stages are defined on exactly
      the keys of the other side's tables. */
  lemma InternedCover(v: TablesValue, o: TablesValue)
    requires Mergeable(o)
    ensures KeysCover(o, MergeInterned(v, o).strings.keys, MergeInterned(v, o).crateNames.keys, MergeInterned(v, o).builds.keys)
  {
    MergeableChainClosed(o);
    StagesCover(v, o);
  }

  /** A mergeable other side has a closed interning chain. */
  lemma MergeableChainClosed(o: TablesValue)
    requires Mergeable(o)
    ensures ChainClosed(o.strings, o.crateNames, o.builds)
  {
  }

  lemma StagesCover(v: TablesValue, o: TablesValue)
    requires ChainClosed(o.strings, o.crateNames, o.builds)
    ensures var im := InternStages(v.strings, v.crateNames, v.builds, o.strings, o.crateNames, o.builds);
      KeysCover(o, im.strings.keys, im.crateNames.keys, im.builds.keys)
  {
    StagesCoverStrings(v, o);
    StagesCoverCrateNames(v, o);
    StagesCoverBuilds(v, o);
  }

  lemma StagesCoverStrings(v: TablesValue, o: TablesValue)
    requires ChainClosed(o.strings, o.crateNames, o.builds)
    ensures var im := InternStages(v.strings, v.crateNames, v.builds, o.strings, o.crateNames, o.builds);
      forall i: nat :: i in im.strings.keys <==> i < |o.strings|
  {
  }

  lemma StagesCoverCrateNames(v: TablesValue, o: TablesValue)
    requires ChainClosed(o.strings, o.crateNames, o.builds)
    ensures var im := InternStages(v.strings, v.crateNames, v.builds, o.strings, o.crateNames, o.builds);
      forall i: nat :: i in im.crateNames.keys <==> i < |o.crateNames|
  {
  }

  lemma StagesCoverBuilds(v: TablesValue, o: TablesValue)
    requires ChainClosed(o.strings, o.crateNames, o.builds)
    ensures var im := InternStages(v.strings, v.crateNames, v.builds, o.strings, o.crateNames, o.builds);
      forall i: nat :: i in im.builds.keys <==> i < |o.builds|
  {
  }

  /** Every key the other side's relations mention has an image in the key maps. */
  ghost predicate Covers(o: TablesValue, stringsMap: map<nat, nat>, crateMap: map<nat, nat>, buildsMap: map<nat, nat>)
  {
    (forall f :: f in o.spans ==> f.expansion in stringsMap) &&
    (forall f :: f in o.buildCrateTypes ==> f.build in buildsMap && f.crateType in stringsMap) &&
    (forall f :: f in o.types ==> f.kind in stringsMap) &&
    KeyedMappable(o.typeDefs, crateMap, stringsMap)
  }

  /** The key maps are defined on exactly the keys of the other side's tables. */
  ghost predicate KeysCover(o: TablesValue, s: map<nat, nat>, c: map<nat, nat>, b: map<nat, nat>)
  {
    (forall i: nat :: i in s <==> i < |o.strings|) &&
    (forall i: nat :: i in c <==> i < |o.crateNames|) &&
    (forall i: nat :: i in b <==> i < |o.builds|)
  }

  /** Key maps defined on every key of the other side's tables cover an
      integral other side. */
  lemma CoversByDomains(o: TablesValue, s: map<nat, nat>, c: map<nat, nat>, b: map<nat, nat>)
    requires IntegralValue(o) && KeysCover(o, s, c, b)
    ensures Covers(o, s, c, b)
  {
    forall i | 0 <= i < |o.typeDefs|
      ensures o.typeDefs[i].krate in c && o.typeDefs[i].name in s
    {
      assert o.typeDefs[i] in o.typeDefs;
    }
  }

  /** The merge once the interning tables are merged: `im` holds their new
      contents and the key maps the relations are remapped through. */
  ghost function MergeWith(v: TablesValue, mergeMap: map<TypeDefKey, Type>, o: TablesValue, im: InternedTables): Merged
    requires v.spanCounter >= SPAN_CONSTANTS
    requires IntegralValue(o) && KeysCover(o, im.strings.keys, im.crateNames.keys, im.builds.keys)
  {
    CoversByDomains(o, im.strings.keys, im.crateNames.keys, im.builds.keys);
    var typeOffset := v.typeCounter - TYPE_CONSTANTS;
    var spanOffset := v.spanCounter - SPAN_CONSTANTS;
    var keyed := KeyedFold(o.typeDefs, typeOffset, im.crateNames.keys, im.strings.keys, KeyedState(mergeMap, map[], []));
    Merged(
      TablesValue(
        im.strings.contents, im.crateNames.contents, im.builds.contents,
        v.spans + MapSpans(o.spans, spanOffset, im.strings.keys),
        v.buildCrateTypes + MapBuildCrateTypes(o.buildCrateTypes, im.builds.keys, im.strings.keys),
        v.types + MapTypes(o.types, typeOffset, im.strings.keys, keyed.reMap),
        v.typeDefs + keyed.appended,
        v.spanCounter + (o.spanCounter - SPAN_CONSTANTS),
        v.typeCounter + (o.typeCounter - TYPE_CONSTANTS)),
      keyed.mergeMap)
  }

  /** The whole merge, stated on values: `v` is self, `mergeMap` the
      merger's map and `o` the other side. Self's counters give the offsets
      of the other side's ids, and are then advanced by the other side's
      ids that are not constants. */
  ghost function MergeSpec(v: TablesValue, mergeMap: map<TypeDefKey, Type>, o: TablesValue): Merged
    requires v.spanCounter >= SPAN_CONSTANTS && Mergeable(o)
  {
    InternedCover(v, o);
    MergeWith(v, mergeMap, o, MergeInterned(v, o))
  }

  /** The state the merge loops leave behind is the one `MergeWith` describes. */
  lemma MergeResult(v: TablesValue, mergeMap: map<TypeDefKey, Type>, o: TablesValue, im: InternedTables,
                    spanOffset: nat, typeOffset: nat, keyed: KeyedState, result: TablesValue, resultMap: map<TypeDefKey, Type>)
    requires v.spanCounter >= SPAN_CONSTANTS
    requires IntegralValue(o) && KeysCover(o, im.strings.keys, im.crateNames.keys, im.builds.keys)
    requires Covers(o, im.strings.keys, im.crateNames.keys, im.builds.keys)
    requires spanOffset == v.spanCounter - SPAN_CONSTANTS && typeOffset == v.typeCounter - TYPE_CONSTANTS
    requires keyed == KeyedFold(o.typeDefs, typeOffset, im.crateNames.keys, im.strings.keys, KeyedState(mergeMap, map[], []))
    requires result.strings == im.strings.contents && result.crateNames == im.crateNames.contents && result.builds == im.builds.contents
    requires result.spans == v.spans + MapSpans(o.spans, spanOffset, im.strings.keys)
    requires result.buildCrateTypes == v.buildCrateTypes + MapBuildCrateTypes(o.buildCrateTypes, im.builds.keys, im.strings.keys)
    requires result.types == v.types + MapTypes(o.types, typeOffset, im.strings.keys, keyed.reMap)
    requires result.typeDefs == v.typeDefs + keyed.appended && resultMap == keyed.mergeMap
    requires result.spanCounter == v.spanCounter + (o.spanCounter - SPAN_CONSTANTS)
    requires result.typeCounter == v.typeCounter + (o.typeCounter - TYPE_CONSTANTS)
    ensures Merged(result, resultMap) == MergeWith(v, mergeMap, o, im)
  {
  }

  /** In a table without duplicates, the keys of the values determine the key map. */
  lemma KeyMapOfPositions<V>(contents: seq<V>, values: seq<V>, m: map<nat, nat>)
    requires NoDuplicates(contents)
    requires forall j: nat :: j in m <==> j < |values|
    requires forall j :: 0 <= j < |values| ==> m[j] < |contents| && contents[m[j]] == values[j]
    ensures forall j :: 0 <= j < |values| ==> values[j] in contents
    ensures m == KeyMap(contents, values)
  {
    forall j | 0 <= j < |values|
      ensures m[j] == IndexOf(contents, values[j])
    {
      IndexOfDistinct(contents, m[j]);
    }
  }

  /** `m` sends each of the first `n` positions of `values` to a key of it in `contents`. */
  ghost predicate KeysAt<V>(contents: seq<V>, values: seq<V>, m: map<nat, nat>, n: nat)
    requires n <= |values|
  {
    (forall j: nat :: j in m <==> j < n) &&
    forall j :: 0 <= j < n ==> m[j] < |contents| && contents[m[j]] == values[j]
  }

  /** Interning one more value keeps the earlier keys and adds its own. */
  lemma KeysAtStep<V>(contents: seq<V>, next: seq<V>, values: seq<V>, m: map<nat, nat>, n: nat, key: nat)
    requires n < |values| && KeysAt(contents, values, m, n)
    requires |contents| <= |next| && next[..|contents|] == contents
    requires key < |next| && next[key] == values[n]
    ensures KeysAt(next, values, m[n := key], n + 1)
  {
    forall j | 0 <= j < n
      ensures m[j] < |next| && next[m[j]] == values[j]
    {
      assert next[..|contents|][m[j]] == contents[m[j]];
    }
  }

  /** Merges the interning tables, plain ones first, and returns their key maps. */
  method MergeInterningTables(strings: InterningTable<string>, crateNames: InterningTable<InternedString>,
                              builds: InterningTable<BuildValue>,
                              oStrings: seq<string>, oCrateNames: seq<InternedString>, oBuilds: seq<BuildValue>)
    returns (stringsMap: map<nat, nat>, crateMap: map<nat, nat>, buildsMap: map<nat, nat>)
    requires strings.Valid() && crateNames.Valid() && builds.Valid()
    requires ChainClosed(oStrings, oCrateNames, oBuilds)
    modifies strings, crateNames, builds
    ensures strings.Valid() && crateNames.Valid() && builds.Valid()
    ensures InternedTables(Stage(strings.contents, stringsMap), Stage(crateNames.contents, crateMap),
                           Stage(builds.contents, buildsMap)) ==
            InternStages(old(strings.contents), old(crateNames.contents), old(builds.contents),
                         oStrings, oCrateNames, oBuilds)
  {
    stringsMap := InternEach(strings, oStrings);
    var crateValues := RemapSeq(oCrateNames, stringsMap);
    crateMap := InternEach(crateNames, crateValues);
    var buildValues := RemapBuilds(oBuilds, crateMap);
    buildsMap := InternEach(builds, buildValues);
  }

  /** Interns `values` into `table` in order, as the merge of one interning
      table does, and returns the old-key to new-key map. */
  method InternEach<V(==)>(table: InterningTable<V>, values: seq<V>) returns (m: map<nat, nat>)
    requires table.Valid()
    modifies table
    ensures table.Valid()
    ensures table.contents == InternAll(old(table.contents), values)
    ensures forall i :: 0 <= i < |values| ==> values[i] in table.contents
    ensures m == KeyMap(table.contents, values)
  {
    m := map[];
    var i := 0;
    while i < |values|
      invariant 0 <= i <= |values|
      invariant table.Valid()
      invariant table.contents == InternAll(old(table.contents), values[..i])
      invariant KeysAt(table.contents, values, m, i)
    {
      assert values[..i + 1][..i] == values[..i];
      ghost var before := table.contents;
      var key := table.Intern(values[i]);
      KeysAtStep(before, table.contents, values, m, i, key);
      m := m[i := key];
      i := i + 1;
    }
    assert values[..i] == values;
    table.ValidHasNoDuplicates();
    KeyMapOfPositions(table.contents, values, m);
  }

  /** Appends the other side's span facts, remapped, one by one. */
  method MergeSpans(rel: Relation<SpanFact>, facts: seq<SpanFact>, offset: nat, stringsMap: map<nat, nat>)
    requires forall f :: f in facts ==> f.expansion in stringsMap
    modifies rel
    ensures rel.facts == old(rel.facts) + MapSpans(facts, offset, stringsMap)
  {
    var i := 0;
    while i < |facts|
      invariant 0 <= i <= |facts|
      invariant rel.facts == old(rel.facts) + MapSpans(facts[..i], offset, stringsMap)
    {
      assert facts[..i + 1][..i] == facts[..i];
      rel.Insert(RemapSpanFact(facts[i], offset, stringsMap));
      i := i + 1;
    }
    assert facts[..i] == facts;
  }

  method MergeBuildCrateTypes(rel: Relation<BuildCrateType>, facts: seq<BuildCrateType>, buildsMap: map<nat, nat>, stringsMap: map<nat, nat>)
    requires forall f :: f in facts ==> f.build in buildsMap && f.crateType in stringsMap
    modifies rel
    ensures rel.facts == old(rel.facts) + MapBuildCrateTypes(facts, buildsMap, stringsMap)
  {
    var i := 0;
    while i < |facts|
      invariant 0 <= i <= |facts|
      invariant rel.facts == old(rel.facts) + MapBuildCrateTypes(facts[..i], buildsMap, stringsMap)
    {
      assert facts[..i + 1][..i] == facts[..i];
      rel.Insert(RemapBuildCrateType(facts[i], buildsMap, stringsMap));
      i := i + 1;
    }
    assert facts[..i] == facts;
  }

  method MergeTypes(rel: Relation<TypeFact>, facts: seq<TypeFact>, offset: nat, stringsMap: map<nat, nat>, reMap: map<Type, Type>)
    requires forall f :: f in facts ==> f.kind in stringsMap
    modifies rel
    ensures rel.facts == old(rel.facts) + MapTypes(facts, offset, stringsMap, reMap)
  {
    var i := 0;
    while i < |facts|
      invariant 0 <= i <= |facts|
      invariant rel.facts == old(rel.facts) + MapTypes(facts[..i], offset, stringsMap, reMap)
    {
      assert facts[..i + 1][..i] == facts[..i];
      rel.Insert(RemapTypeFact(facts[i], offset, stringsMap, reMap));
      i := i + 1;
    }
    assert facts[..i] == facts;
  }

  class TableMerger {
    const tables: Tables
    var typeDefsMergeMap: map<TypeDefKey, Type>

    /** Takes self's tables and indexes the keys of its keyed relation. */
    constructor New(t: Tables)
      ensures tables == t && typeDefsMergeMap == KeyIndex(t.typeDefs.facts)
    {
      tables := t;
      typeDefsMergeMap := KeyIndex(t.typeDefs.facts);
    }

    /** The keyed relation's merge loop: remaps each fact, drops it when its
        key is already recorded (renaming its target to the recorded one),
        and otherwise records the key and appends the fact. */
    method MergeTypeDefs(facts: seq<TypeDef>, offset: nat, crateMap: map<nat, nat>, stringsMap: map<nat, nat>)
      returns (reMap: map<Type, Type>)
      requires KeyedMappable(facts, crateMap, stringsMap)
      modifies this, tables.typeDefs
      ensures var st := KeyedFold(facts, offset, crateMap, stringsMap, KeyedState(old(typeDefsMergeMap), map[], []));
        typeDefsMergeMap == st.mergeMap && reMap == st.reMap &&
        tables.typeDefs.facts == old(tables.typeDefs.facts) + st.appended
    {
      reMap := map[];
      ghost var appended: seq<TypeDef> := [];
      ghost var init := KeyedState(typeDefsMergeMap, map[], []);
      var i := 0;
      while i < |facts|
        invariant 0 <= i <= |facts|
        invariant KeyedState(typeDefsMergeMap, reMap, appended) == KeyedFold(facts[..i], offset, crateMap, stringsMap, init)
        invariant tables.typeDefs.facts == old(tables.typeDefs.facts) + appended
      {
        assert facts[..i + 1][..i] == facts[..i];
        var g := RemapTypeDef(facts[i], offset, crateMap, stringsMap, reMap);
        var key := (g.krate, g.name);
        if key in typeDefsMergeMap {
          reMap := reMap[g.typ := typeDefsMergeMap[key]];
        } else {
          typeDefsMergeMap := typeDefsMergeMap[key := g.typ];
          tables.typeDefs.Insert(g);
          appended := appended + [g];
        }
        i := i + 1;
      }
      assert facts[..i] == facts;
    }

    /** Merges the other side's relations, the keyed one with a target first. */
    method MergeRelations(o: TablesValue, stringsMap: map<nat, nat>, crateMap: map<nat, nat>, buildsMap: map<nat, nat>,
                          spanOffset: nat, typeOffset: nat)
      requires Covers(o, stringsMap, crateMap, buildsMap)
      modifies this, tables.typeDefs, tables.spans, tables.buildCrateTypes, tables.types
      ensures var keyed := KeyedFold(o.typeDefs, typeOffset, crateMap, stringsMap, KeyedState(old(typeDefsMergeMap), map[], []));
        tables.typeDefs.facts == old(tables.typeDefs.facts) + keyed.appended && typeDefsMergeMap == keyed.mergeMap &&
        tables.types.facts == old(tables.types.facts) + MapTypes(o.types, typeOffset, stringsMap, keyed.reMap)
      ensures tables.spans.facts == old(tables.spans.facts) + MapSpans(o.spans, spanOffset, stringsMap)
      ensures tables.buildCrateTypes.facts == old(tables.buildCrateTypes.facts) + MapBuildCrateTypes(o.buildCrateTypes, buildsMap, stringsMap)
    {
      var reMap := MergeTypeDefs(o.typeDefs, typeOffset, crateMap, stringsMap);
      MergeSpans(tables.spans, o.spans, spanOffset, stringsMap);
      MergeBuildCrateTypes(tables.buildCrateTypes, o.buildCrateTypes, buildsMap, stringsMap);
      MergeTypes(tables.types, o.types, typeOffset, stringsMap, reMap);
    }

    /** The merge after the interning tables: the relations, then the counters. */
    method MergeRest(ghost v: TablesValue, o: TablesValue, ghost im: InternedTables,
                     stringsMap: map<nat, nat>, crateMap: map<nat, nat>, buildsMap: map<nat, nat>)
      requires tables.Valid() && v.spanCounter >= SPAN_CONSTANTS && Mergeable(o)
      requires KeysCover(o, stringsMap, crateMap, buildsMap)
      requires im == InternedTables(Stage(tables.strings.contents, stringsMap), Stage(tables.crateNames.contents, crateMap),
                                    Stage(tables.builds.contents, buildsMap))
      requires tables.spans.facts == v.spans && tables.buildCrateTypes.facts == v.buildCrateTypes
      requires tables.types.facts == v.types && tables.typeDefs.facts == v.typeDefs
      requires tables.counters.spans == v.spanCounter && tables.counters.types == v.typeCounter
      modifies this, tables.spans, tables.buildCrateTypes, tables.types, tables.typeDefs, tables.counters
      ensures tables.Valid()
      ensures Merged(tables.Snapshot(), typeDefsMergeMap) == MergeWith(v, old(typeDefsMergeMap), o, im)
    {
      ghost var mergeMap := typeDefsMergeMap;
      var typeOffset: nat := tables.counters.types - TYPE_CONSTANTS;
      var spanOffset: nat := tables.counters.spans - SPAN_CONSTANTS;
      CoversByDomains(o, stringsMap, crateMap, buildsMap);
      MergeRelations(o, stringsMap, crateMap, buildsMap, spanOffset, typeOffset);
      tables.counters.spans := tables.counters.spans + (o.spanCounter - SPAN_CONSTANTS);
      tables.counters.types := tables.counters.types + (o.typeCounter - TYPE_CONSTANTS);
      ghost var keyed := KeyedFold(o.typeDefs, typeOffset, crateMap, stringsMap, KeyedState(mergeMap, map[], []));
      MergeResult(v, mergeMap, o, im, spanOffset, typeOffset, keyed, tables.Snapshot(), typeDefsMergeMap);
    }

    /** Merges the contents `o` of another side into self's tables, as `MergeSpec` states. */
    method MergeFrom(o: TablesValue)
      requires tables.Valid() && Mergeable(o)
      modifies this, tables.strings, tables.crateNames, tables.builds, tables.spans
      modifies tables.buildCrateTypes, tables.types, tables.typeDefs, tables.counters
      ensures tables.Valid()
      ensures Merged(tables.Snapshot(), typeDefsMergeMap) == MergeSpec(old(tables.Snapshot()), old(typeDefsMergeMap), o)
    {
      ghost var v := tables.Snapshot();
      var stringsMap, crateMap, buildsMap :=
        MergeInterningTables(tables.strings, tables.crateNames, tables.builds, o.strings, o.crateNames, o.builds);
      ghost var im := InternedTables(Stage(tables.strings.contents, stringsMap), Stage(tables.crateNames.contents, crateMap),
                                     Stage(tables.builds.contents, buildsMap));
      assert im == MergeInterned(v, o);
      InternedCover(v, o);
      MergeRest(v, o, im, stringsMap, crateMap, buildsMap);
    }

    /** `merge`: consumes `other` and merges it into self's tables, as
        `MergeSpec` states. Its contents are read before self changes. */
    method Merge(other: Tables)
      requires tables.Valid() && other.Integral() && other.counters.spans >= SPAN_CONSTANTS
      modifies this, tables.strings, tables.crateNames, tables.builds, tables.spans
      modifies tables.buildCrateTypes, tables.types, tables.typeDefs, tables.counters
      ensures tables.Valid()
      ensures Merged(tables.Snapshot(), typeDefsMergeMap) ==
              MergeSpec(old(tables.Snapshot()), old(typeDefsMergeMap), old(other.Snapshot()))
    {
      var o := TablesValue(other.strings.contents, other.crateNames.contents, other.builds.contents,
                           other.spans.facts, other.buildCrateTypes.facts, other.types.facts, other.typeDefs.facts,
                           other.counters.spans, other.counters.types);
      MergeFrom(o);
    }
  }
}
