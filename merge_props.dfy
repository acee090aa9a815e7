/** What a merge promises, proved about `Merge.MergeSpec`: self's keys and
    facts are kept, every key of the other side is sent to an entry with
    the same contents, the relations are concatenated, the counters add up,
    and the tables stay integral, dense and keyed. */
module MergeProperties {
  import opened DataStructures
  import opened IdCounters
  import opened Database
  import opened Merge

  /** Merged strings: self's strings keep their keys, the table holds
      exactly the strings of both sides, each once if self's were, and the
      strings map sends each key of the other side to its string. */
  lemma MergeKeepsStrings(v: TablesValue, m: map<TypeDefKey, Type>, o: TablesValue)
    requires v.spanCounter >= SPAN_CONSTANTS && Mergeable(o)
    ensures var r := MergeSpec(v, m, o).tables;
      |v.strings| <= |r.strings| && r.strings[..|v.strings|] == v.strings &&
      (forall x :: x in r.strings <==> x in v.strings || x in o.strings) &&
      (NoDuplicates(v.strings) ==> NoDuplicates(r.strings))
    ensures var r := MergeSpec(v, m, o).tables;
      var keys := MergeInterned(v, o).strings.keys;
      forall i :: 0 <= i < |o.strings| ==> i in keys && keys[i] < |r.strings| && r.strings[keys[i]] == o.strings[i]
  {
    MergedStrings(v, m, o);
    var r := MergeSpec(v, m, o).tables;
    InternAllExtends(v.strings, o.strings);
    if NoDuplicates(v.strings) {
      InternAllNoDuplicates(v.strings, o.strings);
    }
    MergedStringKeys(v, m, o);
  }

  /** The merged strings table is the other side's strings interned into self's. */
  lemma MergedStrings(v: TablesValue, m: map<TypeDefKey, Type>, o: TablesValue)
    requires v.spanCounter >= SPAN_CONSTANTS && Mergeable(o)
    ensures MergeSpec(v, m, o).tables.strings == InternAll(v.strings, o.strings)
    ensures MergeInterned(v, o).strings == InternStage(v.strings, o.strings)
  {
  }

  lemma MergedStringKeys(v: TablesValue, m: map<TypeDefKey, Type>, o: TablesValue)
    requires v.spanCounter >= SPAN_CONSTANTS && Mergeable(o)
    ensures var r := MergeSpec(v, m, o).tables;
      var keys := MergeInterned(v, o).strings.keys;
      forall i :: 0 <= i < |o.strings| ==> i in keys && keys[i] < |r.strings| && r.strings[keys[i]] == o.strings[i]
  {
    MergedStrings(v, m, o);
  }

  /** Key `k` of `crateNames` names the string `s`. */
  ghost predicate NamesCrate(strings: seq<string>, crateNames: seq<InternedString>, k: nat, s: string)
  {
    k < |crateNames| && crateNames[k] < |strings| && strings[crateNames[k]] == s
  }

  /** Key `b` of `builds` is a build of the crate named `s`. */
  ghost predicate BuildOfCrate(strings: seq<string>, crateNames: seq<InternedString>, builds: seq<BuildValue>, b: nat, s: string)
  {
    b < |builds| && NamesCrate(strings, crateNames, builds[b].krate, s)
  }

  /** `keys` sends every crate name of the other side to a crate name of
      the merged tables naming the same string. */
  ghost predicate KeepsCrateNames(oStrings: seq<string>, oCrateNames: seq<InternedString>,
                                  strings: seq<string>, crateNames: seq<InternedString>, keys: map<nat, nat>)
  {
    forall i: nat, x :: NamesCrate(oStrings, oCrateNames, i, x) ==> i in keys && NamesCrate(strings, crateNames, keys[i], x)
  }

  /** `keys` sends every build of the other side to a build of the merged
      tables with the same crate hash, whose crate names the same string. */
  ghost predicate KeepsBuilds(oStrings: seq<string>, oCrateNames: seq<InternedString>, oBuilds: seq<BuildValue>,
                              strings: seq<string>, crateNames: seq<InternedString>, builds: seq<BuildValue>, keys: map<nat, nat>)
  {
    (forall i :: 0 <= i < |oBuilds| ==> i in keys && keys[i] < |builds| && builds[keys[i]].crateHash == oBuilds[i].crateHash) &&
    forall i: nat, x :: BuildOfCrate(oStrings, oCrateNames, oBuilds, i, x) ==>
      i in keys && BuildOfCrate(strings, crateNames, builds, keys[i], x)
  }

  /** The crate-name stage keeps self's crate names and the other side's. */
  lemma StagesKeepCrateNames(strings: seq<string>, crateNames: seq<InternedString>, builds: seq<BuildValue>,
                             oStrings: seq<string>, oCrateNames: seq<InternedString>, oBuilds: seq<BuildValue>)
    requires ChainClosed(oStrings, oCrateNames, oBuilds)
    ensures var im := InternStages(strings, crateNames, builds, oStrings, oCrateNames, oBuilds);
      |crateNames| <= |im.crateNames.contents| && im.crateNames.contents[..|crateNames|] == crateNames &&
      KeepsCrateNames(oStrings, oCrateNames, im.strings.contents, im.crateNames.contents, im.crateNames.keys)
  {
    var im := InternStages(strings, crateNames, builds, oStrings, oCrateNames, oBuilds);
    var values := RemapSeq(oCrateNames, im.strings.keys);
    StageKeys(strings, oStrings);
    StageKeys(crateNames, values);
    forall i: nat, x | NamesCrate(oStrings, oCrateNames, i, x)
      ensures i in im.crateNames.keys && NamesCrate(im.strings.contents, im.crateNames.contents, im.crateNames.keys[i], x)
    {
      assert im.crateNames.contents[im.crateNames.keys[i]] == values[i] == im.strings.keys[oCrateNames[i]];
    }
  }

  /** The build stage keeps self's builds and the other side's. */
  lemma StagesKeepBuilds(strings: seq<string>, crateNames: seq<InternedString>, builds: seq<BuildValue>,
                         oStrings: seq<string>, oCrateNames: seq<InternedString>, oBuilds: seq<BuildValue>)
    requires ChainClosed(oStrings, oCrateNames, oBuilds)
    ensures var im := InternStages(strings, crateNames, builds, oStrings, oCrateNames, oBuilds);
      |builds| <= |im.builds.contents| && im.builds.contents[..|builds|] == builds &&
      KeepsBuilds(oStrings, oCrateNames, oBuilds, im.strings.contents, im.crateNames.contents, im.builds.contents, im.builds.keys)
  {
    var im := InternStages(strings, crateNames, builds, oStrings, oCrateNames, oBuilds);
    StagesKeepCrateNames(strings, crateNames, builds, oStrings, oCrateNames, oBuilds);
    var values := RemapBuilds(oBuilds, im.crateNames.keys);
    StageKeys(builds, values);
    forall i: nat, x | BuildOfCrate(oStrings, oCrateNames, oBuilds, i, x)
      ensures i in im.builds.keys && BuildOfCrate(im.strings.contents, im.crateNames.contents, im.builds.contents, im.builds.keys[i], x)
    {
      assert im.builds.contents[im.builds.keys[i]] == values[i];
      assert NamesCrate(oStrings, oCrateNames, oBuilds[i].krate, x);
    }
  }

  /** Merged crate names and builds: self's keep their keys, and each crate
      name or build of the other side is sent to one naming the same crate
      (and, for a build, with the same crate hash). */
  lemma MergeKeepsChain(v: TablesValue, m: map<TypeDefKey, Type>, o: TablesValue)
    requires v.spanCounter >= SPAN_CONSTANTS && Mergeable(o)
    ensures var r := MergeSpec(v, m, o).tables;
      |v.crateNames| <= |r.crateNames| && r.crateNames[..|v.crateNames|] == v.crateNames &&
      |v.builds| <= |r.builds| && r.builds[..|v.builds|] == v.builds
    ensures var r := MergeSpec(v, m, o).tables;
      KeepsCrateNames(o.strings, o.crateNames, r.strings, r.crateNames, MergeInterned(v, o).crateNames.keys) &&
      KeepsBuilds(o.strings, o.crateNames, o.builds, r.strings, r.crateNames, r.builds, MergeInterned(v, o).builds.keys)
  {
    var r := MergeSpec(v, m, o).tables;
    var im := MergeInterned(v, o);
    StagesKeepCrateNames(v.strings, v.crateNames, v.builds, o.strings, o.crateNames, o.builds);
    StagesKeepBuilds(v.strings, v.crateNames, v.builds, o.strings, o.crateNames, o.builds);
    assert r.strings == im.strings.contents && r.crateNames == im.crateNames.contents && r.builds == im.builds.contents;
  }

  /** Interning `values` keeps the current keys and gives each value a key
      holding it. */
  lemma StageKeys<V>(current: seq<V>, values: seq<V>)
    ensures var st := InternStage(current, values);
      |current| <= |st.contents| && st.contents[..|current|] == current && KeysInto(st.keys, |st.contents|) &&
      forall i :: 0 <= i < |values| ==> i in st.keys && st.keys[i] < |st.contents| && st.contents[st.keys[i]] == values[i]
  {
    InternAllPrefix(current, values);
  }

  /** Every image of `keys` is below `n`. */
  ghost predicate KeysInto(keys: map<nat, nat>, n: nat)
  {
    forall j :: j in keys ==> keys[j] < n
  }

  /** Position `a` of `s` and position `b` of `t` hold the same string. */
  ghost predicate SameString(s: seq<string>, a: nat, t: seq<string>, b: nat)
  {
    a < |s| && b < |t| && s[a] == t[b]
  }

  /** What the relations of a merge need from its interning stages: key
      maps into the merged tables, and a strings map that keeps each of
      the other side's strings. */
  ghost predicate InternedInto(oStrings: seq<string>, im: InternedTables)
  {
    KeysInto(im.strings.keys, |im.strings.contents|) &&
    KeysInto(im.crateNames.keys, |im.crateNames.contents|) &&
    KeysInto(im.builds.keys, |im.builds.contents|) &&
    forall j :: 0 <= j < |oStrings| && j in im.strings.keys ==> im.strings.contents[im.strings.keys[j]] == oStrings[j]
  }

  lemma InternedForMerge(v: TablesValue, o: TablesValue)
    requires Mergeable(o)
    ensures InternedInto(o.strings, MergeInterned(v, o))
  {
    StagesInto(v.strings, v.crateNames, v.builds, o.strings, o.crateNames, o.builds);
  }

  /** Each key map of the interning stages sends the other side's keys into
      the merged table, and the strings map keeps each string. */
  lemma StagesInto(strings: seq<string>, crateNames: seq<InternedString>, builds: seq<BuildValue>,
                   oStrings: seq<string>, oCrateNames: seq<InternedString>, oBuilds: seq<BuildValue>)
    requires ChainClosed(oStrings, oCrateNames, oBuilds)
    ensures InternedInto(oStrings, InternStages(strings, crateNames, builds, oStrings, oCrateNames, oBuilds))
  {
    var im := InternStages(strings, crateNames, builds, oStrings, oCrateNames, oBuilds);
    StageKeys(strings, oStrings);
    StageKeys(crateNames, RemapSeq(oCrateNames, im.strings.keys));
    StageKeys(builds, RemapBuilds(oBuilds, im.crateNames.keys));
  }

  /** The span facts of `r` are `v`'s, then each of `o`'s with its ids
      shifted past `v`'s (the root parent span kept) and its expansion
      naming the same string; the span counter adds up. */
  ghost predicate SpansMerged(v: TablesValue, o: TablesValue, r: TablesValue)
  {
    v.spanCounter >= SPAN_CONSTANTS &&
    |r.spans| == |v.spans| + |o.spans| && r.spans[..|v.spans|] == v.spans &&
    r.spanCounter == v.spanCounter + o.spanCounter - SPAN_CONSTANTS &&
    forall i :: 0 <= i < |o.spans| ==>
      r.spans[|v.spans| + i].span == ShiftSpan(o.spans[i].span, v.spanCounter - SPAN_CONSTANTS) &&
      r.spans[|v.spans| + i].parent == ShiftSpan(o.spans[i].parent, v.spanCounter - SPAN_CONSTANTS) &&
      r.spans[|v.spans| + i].kind == o.spans[i].kind &&
      SameString(r.strings, r.spans[|v.spans| + i].expansion, o.strings, o.spans[i].expansion)
  }

  /** The build crate types of `r` are `v`'s, then each of `o`'s with its
      build sent through `buildsMap` and its crate type naming the same
      string. */
  ghost predicate BuildCrateTypesMerged(v: TablesValue, o: TablesValue, r: TablesValue, buildsMap: map<nat, nat>)
  {
    |r.buildCrateTypes| == |v.buildCrateTypes| + |o.buildCrateTypes| &&
    r.buildCrateTypes[..|v.buildCrateTypes|] == v.buildCrateTypes &&
    forall i :: 0 <= i < |o.buildCrateTypes| ==>
      o.buildCrateTypes[i].build in buildsMap &&
      r.buildCrateTypes[|v.buildCrateTypes| + i].build == buildsMap[o.buildCrateTypes[i].build] &&
      SameString(r.strings, r.buildCrateTypes[|v.buildCrateTypes| + i].crateType, o.strings, o.buildCrateTypes[i].crateType)
  }

  /** The type facts of `r` are `v`'s, then each of `o`'s with its kind
      naming the same string; the type counter adds up. */
  ghost predicate TypesMerged(v: TablesValue, o: TablesValue, r: TablesValue)
  {
    |r.types| == |v.types| + |o.types| && r.types[..|v.types|] == v.types &&
    r.typeCounter == v.typeCounter + o.typeCounter - TYPE_CONSTANTS &&
    forall i :: 0 <= i < |o.types| ==> SameString(r.strings, r.types[|v.types| + i].kind, o.strings, o.types[i].kind)
  }

  /** The span facts of a merge, for any interning stages. */
  lemma SpansWith(v: TablesValue, m: map<TypeDefKey, Type>, o: TablesValue, im: InternedTables)
    requires v.spanCounter >= SPAN_CONSTANTS && IntegralValue(o) && KeysCover(o, im.strings.keys, im.crateNames.keys, im.builds.keys) && InternedInto(o.strings, im)
    ensures SpansMerged(v, o, MergeWith(v, m, o, im).tables)
  {
    var r := MergeWith(v, m, o, im).tables;
    CoversByDomains(o, im.strings.keys, im.crateNames.keys, im.builds.keys);
    assert r.spans == v.spans + MapSpans(o.spans, v.spanCounter - SPAN_CONSTANTS, im.strings.keys);
    assert r.strings == im.strings.contents;
    SpansMergedFrom(v, o, im, r);
  }

  /** `SpansWith` for any tables holding the merged spans and strings. */
  lemma SpansMergedFrom(v: TablesValue, o: TablesValue, im: InternedTables, r: TablesValue)
    requires v.spanCounter >= SPAN_CONSTANTS && InternedInto(o.strings, im)
    requires forall f :: f in o.spans ==> f.expansion in im.strings.keys && f.expansion < |o.strings|
    requires r.strings == im.strings.contents
    requires r.spans == v.spans + MapSpans(o.spans, v.spanCounter - SPAN_CONSTANTS, im.strings.keys)
    requires r.spanCounter == v.spanCounter + o.spanCounter - SPAN_CONSTANTS
    ensures SpansMerged(v, o, r)
  {
    var offset := v.spanCounter - SPAN_CONSTANTS;
    var mapped := MapSpans(o.spans, offset, im.strings.keys);
    MapSpansAt(o.spans, offset, im.strings.keys);
    assert r.spans[..|v.spans|] == v.spans;
    forall i | 0 <= i < |o.spans|
      ensures r.spans[|v.spans| + i] == RemapSpanFact(o.spans[i], offset, im.strings.keys)
      ensures SameString(r.strings, r.spans[|v.spans| + i].expansion, o.strings, o.spans[i].expansion)
    {
      assert r.spans[|v.spans| + i] == mapped[i];
      assert o.spans[i] in o.spans;
    }
  }

  /** The build crate types of a merge, for any interning stages. */
  lemma BuildCrateTypesWith(v: TablesValue, m: map<TypeDefKey, Type>, o: TablesValue, im: InternedTables)
    requires v.spanCounter >= SPAN_CONSTANTS && IntegralValue(o) && KeysCover(o, im.strings.keys, im.crateNames.keys, im.builds.keys) && InternedInto(o.strings, im)
    ensures BuildCrateTypesMerged(v, o, MergeWith(v, m, o, im).tables, im.builds.keys)
  {
    var r := MergeWith(v, m, o, im).tables;
    CoversByDomains(o, im.strings.keys, im.crateNames.keys, im.builds.keys);
    var mapped := MapBuildCrateTypes(o.buildCrateTypes, im.builds.keys, im.strings.keys);
    assert r.buildCrateTypes == v.buildCrateTypes + mapped;
    MapBuildCrateTypesAt(o.buildCrateTypes, im.builds.keys, im.strings.keys);
    forall i | 0 <= i < |o.buildCrateTypes|
      ensures SameString(r.strings, r.buildCrateTypes[|v.buildCrateTypes| + i].crateType, o.strings, o.buildCrateTypes[i].crateType)
    {
      assert o.buildCrateTypes[i] in o.buildCrateTypes;
    }
  }

  /** The type facts of a merge, for any interning stages. */
  lemma TypesWith(v: TablesValue, m: map<TypeDefKey, Type>, o: TablesValue, im: InternedTables)
    requires v.spanCounter >= SPAN_CONSTANTS && IntegralValue(o) && KeysCover(o, im.strings.keys, im.crateNames.keys, im.builds.keys) && InternedInto(o.strings, im)
    ensures TypesMerged(v, o, MergeWith(v, m, o, im).tables)
  {
    var r := MergeWith(v, m, o, im).tables;
    CoversByDomains(o, im.strings.keys, im.crateNames.keys, im.builds.keys);
    var keyed := KeyedFold(o.typeDefs, v.typeCounter - TYPE_CONSTANTS, im.crateNames.keys, im.strings.keys, KeyedState(m, map[], []));
    var mapped := MapTypes(o.types, v.typeCounter - TYPE_CONSTANTS, im.strings.keys, keyed.reMap);
    assert r.types == v.types + mapped;
    MapTypesAt(o.types, v.typeCounter - TYPE_CONSTANTS, im.strings.keys, keyed.reMap);
    forall i | 0 <= i < |o.types|
      ensures SameString(r.strings, r.types[|v.types| + i].kind, o.strings, o.types[i].kind)
    {
      assert o.types[i] in o.types;
    }
  }

  /** No two facts of a keyed relation share a key. */
  ghost predicate UniqueKeys(facts: seq<TypeDef>)
  {
    forall i, j :: 0 <= i < j < |facts| ==> KeyOf(facts[i]) != KeyOf(facts[j])
  }

  /** Every fact's crate and name are below the given table sizes. */
  ghost predicate TypeDefsWithin(facts: seq<TypeDef>, crates: nat, strings: nat)
  {
    forall g :: g in facts ==> g.krate < crates && g.name < strings
  }

  /** The keys of the merge map are exactly the keys of the facts. */
  lemma {:induction false} KeyIndexDomain(facts: seq<TypeDef>)
    ensures forall k :: k in KeyIndex(facts) <==> exists i :: 0 <= i < |facts| && KeyOf(facts[i]) == k
    decreases |facts|
  {
    if facts != [] {
      var init := facts[..|facts| - 1];
      KeyIndexDomain(init);
      forall k | k in KeyIndex(facts)
        ensures exists i :: 0 <= i < |facts| && KeyOf(facts[i]) == k
      {
        if k != KeyOf(facts[|facts| - 1]) {
          assert k in KeyIndex(init);
          var i :| 0 <= i < |init| && KeyOf(init[i]) == k;
          assert KeyOf(facts[i]) == k;
        }
      }
      forall k | exists i :: 0 <= i < |facts| && KeyOf(facts[i]) == k
        ensures k in KeyIndex(facts)
      {
        var i :| 0 <= i < |facts| && KeyOf(facts[i]) == k;
        if i < |init| {
          assert KeyOf(init[i]) == k;
        }
      }
    }
  }

  lemma KeyIndexSnoc(facts: seq<TypeDef>, g: TypeDef)
    ensures KeyIndex(facts + [g]) == KeyIndex(facts)[KeyOf(g) := g.typ]
  {
    assert (facts + [g])[..|facts|] == facts;
  }

  /** A fact whose key the merge map lacks can be appended without
      repeating a key. */
  lemma UniqueKeysSnoc(facts: seq<TypeDef>, g: TypeDef)
    requires UniqueKeys(facts) && KeyOf(g) !in KeyIndex(facts)
    ensures UniqueKeys(facts + [g])
  {
    KeyIndexDomain(facts);
    forall i | 0 <= i < |facts|
      ensures KeyOf(facts[i]) != KeyOf(g)
    {
    }
  }

  /** Adding a new key keeps every value of a map. */
  lemma ValuesGrow<K, V>(m: map<K, V>, k: K, val: V)
    requires k !in m
    ensures m.Values <= m[k := val].Values
  {
    forall x | x in m.Values
      ensures x in m[k := val].Values
    {
      var j :| j in m && m[j] == x;
      assert m[k := val][j] == x;
    }
  }

  /** Renaming to a recorded target keeps every renaming a recorded target. */
  lemma RenameValues<K, V>(reMap: map<V, V>, t: V, mergeMap: map<K, V>, key: K)
    requires reMap.Values <= mergeMap.Values && key in mergeMap
    ensures reMap[t := mergeMap[key]].Values <= mergeMap.Values
  {
    var r := reMap[t := mergeMap[key]];
    forall x | x in r.Values
      ensures x in mergeMap.Values
    {
      var j :| j in r && r[j] == x;
      if j != t {
        assert reMap[j] == x;
      }
    }
  }

  /** The merge loop of a keyed relation only appends, and appends at
      most one fact per fact of the other side. */
  lemma {:induction false} KeyedFoldGrows(facts: seq<TypeDef>, offset: nat, crateMap: map<nat, nat>,
                                          stringsMap: map<nat, nat>, init: KeyedState)
    requires KeyedMappable(facts, crateMap, stringsMap)
    ensures var st := KeyedFold(facts, offset, crateMap, stringsMap, init);
      |init.appended| <= |st.appended| <= |init.appended| + |facts| && st.appended[..|init.appended|] == init.appended
    decreases |facts|
  {
    if facts != [] {
      var prefix := facts[..|facts| - 1];
      KeyedFoldGrows(prefix, offset, crateMap, stringsMap, init);
      var st := KeyedFold(prefix, offset, crateMap, stringsMap, init);
      var g := RemapTypeDef(facts[|facts| - 1], offset, crateMap, stringsMap, st.reMap);
      assert (st.appended + [g])[..|init.appended|] == st.appended[..|init.appended|];
    }
  }

  /** The merge loop of a keyed relation keeps its merge map equal to the
      index of the facts it has, keeps their keys unique, and renames
      dropped targets to targets the map records. */
  lemma {:induction false} KeyedFoldInvariant(base: seq<TypeDef>, facts: seq<TypeDef>, offset: nat,
                                              crateMap: map<nat, nat>, stringsMap: map<nat, nat>, init: KeyedState)
    requires KeyedMappable(facts, crateMap, stringsMap)
    requires init.mergeMap == KeyIndex(base + init.appended) && UniqueKeys(base + init.appended)
    requires init.reMap.Values <= init.mergeMap.Values
    ensures var st := KeyedFold(facts, offset, crateMap, stringsMap, init);
      st.mergeMap == KeyIndex(base + st.appended) && UniqueKeys(base + st.appended) &&
      st.reMap.Values <= st.mergeMap.Values
    decreases |facts|
  {
    if facts != [] {
      var prefix := facts[..|facts| - 1];
      KeyedFoldInvariant(base, prefix, offset, crateMap, stringsMap, init);
      var st := KeyedFold(prefix, offset, crateMap, stringsMap, init);
      var g := RemapTypeDef(facts[|facts| - 1], offset, crateMap, stringsMap, st.reMap);
      if KeyOf(g) !in st.mergeMap {
        assert base + (st.appended + [g]) == (base + st.appended) + [g];
        KeyIndexSnoc(base + st.appended, g);
        UniqueKeysSnoc(base + st.appended, g);
        ValuesGrow(st.mergeMap, KeyOf(g), g.typ);
      } else {
        RenameValues(st.reMap, g.typ, st.mergeMap, KeyOf(g));
      }
    }
  }

  /** The facts the merge loop appends keep their crate and name within
      the merged tables. */
  lemma {:induction false} KeyedFoldWithin(facts: seq<TypeDef>, offset: nat, crateMap: map<nat, nat>,
                                           stringsMap: map<nat, nat>, init: KeyedState, crates: nat, strings: nat)
    requires KeyedMappable(facts, crateMap, stringsMap)
    requires KeysInto(crateMap, crates) && KeysInto(stringsMap, strings)
    requires TypeDefsWithin(init.appended, crates, strings)
    ensures TypeDefsWithin(KeyedFold(facts, offset, crateMap, stringsMap, init).appended, crates, strings)
    decreases |facts|
  {
    if facts != [] {
      KeyedFoldWithin(facts[..|facts| - 1], offset, crateMap, stringsMap, init, crates, strings);
    }
  }

  lemma {:induction false} MapSpansAt(facts: seq<SpanFact>, offset: nat, stringsMap: map<nat, nat>)
    requires forall f :: f in facts ==> f.expansion in stringsMap
    ensures forall i :: 0 <= i < |facts| ==> MapSpans(facts, offset, stringsMap)[i] == RemapSpanFact(facts[i], offset, stringsMap)
    decreases |facts|
  {
    if facts != [] {
      var init := facts[..|facts| - 1];
      MapSpansAt(init, offset, stringsMap);
    }
  }

  lemma {:induction false} MapBuildCrateTypesAt(facts: seq<BuildCrateType>, buildsMap: map<nat, nat>, stringsMap: map<nat, nat>)
    requires forall f :: f in facts ==> f.build in buildsMap && f.crateType in stringsMap
    ensures forall i :: 0 <= i < |facts| ==>
      MapBuildCrateTypes(facts, buildsMap, stringsMap)[i] == RemapBuildCrateType(facts[i], buildsMap, stringsMap)
    decreases |facts|
  {
    if facts != [] {
      var init := facts[..|facts| - 1];
      MapBuildCrateTypesAt(init, buildsMap, stringsMap);
    }
  }

  lemma {:induction false} MapTypesAt(facts: seq<TypeFact>, offset: nat, stringsMap: map<nat, nat>, reMap: map<Type, Type>)
    requires forall f :: f in facts ==> f.kind in stringsMap
    ensures forall i :: 0 <= i < |facts| ==>
      MapTypes(facts, offset, stringsMap, reMap)[i] == RemapTypeFact(facts[i], offset, stringsMap, reMap)
    decreases |facts|
  {
    if facts != [] {
      var init := facts[..|facts| - 1];
      MapTypesAt(init, offset, stringsMap, reMap);
    }
  }
}
