/** The merge laws stated on `Merge.MergeSpec` itself: the relations are
    concatenated with the other side's ids shifted and keys remapped, the
    merged tables grow from self's, and integrity, dense span ids and the
    merge map's index of `type_defs` all survive a merge. */
module MergeLaws {
  import opened DataStructures
  import opened IdCounters
  import opened Database
  import opened Merge
  import opened MergeProperties
  import Ids

  /** Merged span facts: self's, then the other side's shifted past them. */
  lemma MergeShiftsSpans(v: TablesValue, m: map<TypeDefKey, Type>, o: TablesValue)
    requires v.spanCounter >= SPAN_CONSTANTS && Mergeable(o)
    ensures SpansMerged(v, o, MergeSpec(v, m, o).tables)
  {
    InternedForMerge(v, o);
    InternedCover(v, o);
    SpansWith(v, m, o, MergeInterned(v, o));
  }

  /** Shifting the span ids from the first non-constant one up to
      `counter` by `offset`: every shift succeeds exactly when the shifted
      counter, `counter + offset`, fits the id type, and a shift that
      succeeds gives the id `ShiftSpan` gives. */
  lemma {:induction false} SpanShiftsFit(counter: nat, offset: nat, t: Ids.IntType)
    requires offset < Ids.Limit(t) && counter <= Ids.Limit(t)
    ensures (forall s: nat :: SPAN_CONSTANTS <= s < counter ==> Ids.Shift(s, offset, t).Some?) <==>
            (counter <= SPAN_CONSTANTS || counter + offset <= Ids.Limit(t))
    ensures forall s: nat :: SPAN_CONSTANTS <= s < counter && Ids.Shift(s, offset, t).Some? ==>
              Ids.Shift(s, offset, t).value == ShiftSpan(s, offset)
  {
    if counter > SPAN_CONSTANTS {
      var last: nat := counter - 1;
      assert Ids.Shift(last, offset, t).Some? <==> counter + offset <= Ids.Limit(t);
    }
  }

  /** With span ids of numeric type `t`, the generated remap shifts each of
      the other side's non-constant span ids with `shift` by self's counter
      less the constants: these shifts all succeed exactly when the merged
      span counter fits the type. */
  lemma MergeSpanShiftsFit(v: TablesValue, m: map<TypeDefKey, Type>, o: TablesValue, t: Ids.IntType, offset: nat)
    requires v.spanCounter >= SPAN_CONSTANTS && Mergeable(o) && offset == v.spanCounter - SPAN_CONSTANTS
    requires offset < Ids.Limit(t) && o.spanCounter <= Ids.Limit(t)
    ensures (forall s: nat :: SPAN_CONSTANTS <= s < o.spanCounter ==> Ids.Shift(s, offset, t).Some?) <==>
            (o.spanCounter <= SPAN_CONSTANTS || MergeSpec(v, m, o).tables.spanCounter <= Ids.Limit(t))
  {
    MergeShiftsSpans(v, m, o);
    SpanShiftsFit(o.spanCounter, offset, t);
  }

  /** Merged build crate types: self's, then the other side's with their
      builds sent through the builds map. */
  lemma MergeRemapsBuildCrateTypes(v: TablesValue, m: map<TypeDefKey, Type>, o: TablesValue)
    requires v.spanCounter >= SPAN_CONSTANTS && Mergeable(o)
    ensures BuildCrateTypesMerged(v, o, MergeSpec(v, m, o).tables, MergeInterned(v, o).builds.keys)
  {
    InternedForMerge(v, o);
    InternedCover(v, o);
    BuildCrateTypesWith(v, m, o, MergeInterned(v, o));
  }

  /** Merged type facts: self's, then the other side's, the counter adding up. */
  lemma MergeRemapsTypes(v: TablesValue, m: map<TypeDefKey, Type>, o: TablesValue)
    requires v.spanCounter >= SPAN_CONSTANTS && Mergeable(o)
    ensures TypesMerged(v, o, MergeSpec(v, m, o).tables)
  {
    InternedForMerge(v, o);
    InternedCover(v, o);
    TypesWith(v, m, o, MergeInterned(v, o));
  }

  /** Merging two sides whose span ids are dense gives dense span ids: the
      other side's ids continue right after self's. */
  lemma MergeKeepsDenseSpans(v: TablesValue, m: map<TypeDefKey, Type>, o: TablesValue)
    requires v.spanCounter >= SPAN_CONSTANTS && Mergeable(o)
    requires DenseSpanFacts(v.spans, v.spanCounter) && DenseSpanFacts(o.spans, o.spanCounter)
    ensures DenseSpanFacts(MergeSpec(v, m, o).tables.spans, MergeSpec(v, m, o).tables.spanCounter)
  {
    MergeShiftsSpans(v, m, o);
    ShiftedSpansDense(v, o, MergeSpec(v, m, o).tables);
  }

  /** Dense spans followed by dense spans shifted past them are dense. */
  lemma ShiftedSpansDense(v: TablesValue, o: TablesValue, r: TablesValue)
    requires SpansMerged(v, o, r)
    requires DenseSpanFacts(v.spans, v.spanCounter) && DenseSpanFacts(o.spans, o.spanCounter)
    ensures DenseSpanFacts(r.spans, r.spanCounter)
  {
    forall k | 0 <= k < |r.spans|
      ensures r.spans[k].span == k + SPAN_CONSTANTS
    {
      if k < |v.spans| {
        assert r.spans[k] == r.spans[..|v.spans|][k];
      } else {
        var i := k - |v.spans|;
        assert r.spans[|v.spans| + i].span == ShiftSpan(o.spans[i].span, v.spanCounter - SPAN_CONSTANTS);
      }
    }
  }

  /** The merged `type_defs`, for any interning stages: self's facts, then
      at most one per fact of the other side. */
  lemma TypeDefsWith(v: TablesValue, m: map<TypeDefKey, Type>, o: TablesValue, im: InternedTables)
    requires v.spanCounter >= SPAN_CONSTANTS && IntegralValue(o) && KeysCover(o, im.strings.keys, im.crateNames.keys, im.builds.keys)
    ensures var r := MergeWith(v, m, o, im).tables;
      |v.typeDefs| <= |r.typeDefs| <= |v.typeDefs| + |o.typeDefs| && r.typeDefs[..|v.typeDefs|] == v.typeDefs
  {
    CoversByDomains(o, im.strings.keys, im.crateNames.keys, im.builds.keys);
    KeyedFoldGrows(o.typeDefs, v.typeCounter - TYPE_CONSTANTS, im.crateNames.keys, im.strings.keys, KeyedState(m, map[], []));
  }

  /** The keyed merge of `type_defs`, for any interning stages. */
  lemma KeyIndexWith(v: TablesValue, m: map<TypeDefKey, Type>, o: TablesValue, im: InternedTables)
    requires v.spanCounter >= SPAN_CONSTANTS && IntegralValue(o) && KeysCover(o, im.strings.keys, im.crateNames.keys, im.builds.keys)
    requires m == KeyIndex(v.typeDefs) && UniqueKeys(v.typeDefs)
    ensures var r := MergeWith(v, m, o, im);
      r.mergeMap == KeyIndex(r.tables.typeDefs) && UniqueKeys(r.tables.typeDefs)
  {
    CoversByDomains(o, im.strings.keys, im.crateNames.keys, im.builds.keys);
    var init := KeyedState(m, map[], []);
    assert v.typeDefs + init.appended == v.typeDefs;
    KeyedFoldInvariant(v.typeDefs, o.typeDefs, v.typeCounter - TYPE_CONSTANTS, im.crateNames.keys, im.strings.keys, init);
  }

  /** The keyed merge of `type_defs`: when the merge map indexes self's
      facts, whose keys are unique, the merged facts are self's and then
      at most one per fact of the other side, their keys stay unique, and
      the new merge map indexes them. */
  lemma MergeKeepsKeyIndex(v: TablesValue, m: map<TypeDefKey, Type>, o: TablesValue)
    requires v.spanCounter >= SPAN_CONSTANTS && Mergeable(o)
    requires m == KeyIndex(v.typeDefs) && UniqueKeys(v.typeDefs)
    ensures var r := MergeSpec(v, m, o);
      |v.typeDefs| <= |r.tables.typeDefs| <= |v.typeDefs| + |o.typeDefs| &&
      r.tables.typeDefs[..|v.typeDefs|] == v.typeDefs
    ensures var r := MergeSpec(v, m, o);
      r.mergeMap == KeyIndex(r.tables.typeDefs) && UniqueKeys(r.tables.typeDefs)
  {
    InternedCover(v, o);
    TypeDefsWith(v, m, o, MergeInterned(v, o));
    KeyIndexWith(v, m, o, MergeInterned(v, o));
  }

  /** A merge only grows self: every table and relation keeps self's
      entries as a prefix and neither counter goes back. */
  lemma MergeGrows(v: TablesValue, m: map<TypeDefKey, Type>, o: TablesValue)
    requires v.spanCounter >= SPAN_CONSTANTS && Mergeable(o)
    ensures Grows(v, MergeSpec(v, m, o).tables)
  {
    MergeKeepsStrings(v, m, o);
    MergeKeepsChain(v, m, o);
    MergeShiftsSpans(v, m, o);
    MergeRemapsBuildCrateTypes(v, m, o);
    MergeRemapsTypes(v, m, o);
    InternedCover(v, o);
    TypeDefsWith(v, m, o, MergeInterned(v, o));
  }

  /** Interning keys below `n` into keys below `n` leaves only keys below `n`. */
  lemma InternAllBelow(contents: seq<nat>, values: seq<nat>, n: nat)
    requires forall i :: 0 <= i < |contents| ==> contents[i] < n
    requires forall i :: 0 <= i < |values| ==> values[i] < n
    ensures forall i :: 0 <= i < |InternAll<nat>(contents, values)| ==> InternAll<nat>(contents, values)[i] < n
  {
    InternAllMembers(contents, values);
    var r := InternAll(contents, values);
    forall i | 0 <= i < |r|
      ensures r[i] < n
    {
      assert r[i] in r;
    }
  }

  /** The same for builds, whose crate must stay below `n`. */
  lemma InternAllBuildsBelow(contents: seq<BuildValue>, values: seq<BuildValue>, n: nat)
    requires forall i :: 0 <= i < |contents| ==> contents[i].krate < n
    requires forall i :: 0 <= i < |values| ==> values[i].krate < n
    ensures forall i :: 0 <= i < |InternAll<BuildValue>(contents, values)| ==> InternAll<BuildValue>(contents, values)[i].krate < n
  {
    InternAllMembers(contents, values);
    var r := InternAll(contents, values);
    forall i | 0 <= i < |r|
      ensures r[i].krate < n
    {
      assert r[i] in r;
    }
  }

  /** The merged crate names are keys of the merged strings. */
  lemma StagesCrateNamesClosed(strings: seq<string>, crateNames: seq<InternedString>, builds: seq<BuildValue>,
                               oStrings: seq<string>, oCrateNames: seq<InternedString>, oBuilds: seq<BuildValue>)
    requires ChainClosed(strings, crateNames, builds) && ChainClosed(oStrings, oCrateNames, oBuilds)
    ensures var im := InternStages(strings, crateNames, builds, oStrings, oCrateNames, oBuilds);
      forall i :: 0 <= i < |im.crateNames.contents| ==> im.crateNames.contents[i] < |im.strings.contents|
  {
    var im := InternStages(strings, crateNames, builds, oStrings, oCrateNames, oBuilds);
    StageKeys(strings, oStrings);
    var names := RemapSeq(oCrateNames, im.strings.keys);
    assert im.crateNames.contents == InternAll<nat>(crateNames, names);
    InternAllBelow(crateNames, names, |im.strings.contents|);
  }

  /** The merged builds' crates are keys of the merged crate names. */
  lemma StagesBuildsClosed(strings: seq<string>, crateNames: seq<InternedString>, builds: seq<BuildValue>,
                           oStrings: seq<string>, oCrateNames: seq<InternedString>, oBuilds: seq<BuildValue>)
    requires ChainClosed(strings, crateNames, builds) && ChainClosed(oStrings, oCrateNames, oBuilds)
    ensures var im := InternStages(strings, crateNames, builds, oStrings, oCrateNames, oBuilds);
      forall i :: 0 <= i < |im.builds.contents| ==> im.builds.contents[i].krate < |im.crateNames.contents|
  {
    var im := InternStages(strings, crateNames, builds, oStrings, oCrateNames, oBuilds);
    StageKeys(crateNames, RemapSeq(oCrateNames, im.strings.keys));
    var bs := RemapBuilds(oBuilds, im.crateNames.keys);
    StageKeys(builds, bs);
    assert im.builds.contents == InternAll<BuildValue>(builds, bs);
    InternAllBuildsBelow(builds, bs, |im.crateNames.contents|);
  }

  /** Merged span facts name merged strings when self's did. */
  lemma SpansWithin(v: TablesValue, o: TablesValue, r: TablesValue)
    requires SpansMerged(v, o, r)
    requires forall f :: f in v.spans ==> f.expansion < |r.strings|
    ensures forall f :: f in r.spans ==> f.expansion < |r.strings|
  {
    forall f | f in r.spans
      ensures f.expansion < |r.strings|
    {
      var k :| 0 <= k < |r.spans| && r.spans[k] == f;
      if k < |v.spans| {
        assert r.spans[..|v.spans|][k] == f;
      } else {
        assert SameString(r.strings, r.spans[|v.spans| + (k - |v.spans|)].expansion, o.strings, o.spans[k - |v.spans|].expansion);
      }
    }
  }

  /** Merged build crate types name merged builds and strings when self's did. */
  lemma BuildCrateTypesWithin(v: TablesValue, o: TablesValue, r: TablesValue, buildsMap: map<nat, nat>)
    requires BuildCrateTypesMerged(v, o, r, buildsMap) && KeysInto(buildsMap, |r.builds|)
    requires forall f :: f in v.buildCrateTypes ==> f.build < |r.builds| && f.crateType < |r.strings|
    ensures forall f :: f in r.buildCrateTypes ==> f.build < |r.builds| && f.crateType < |r.strings|
  {
    forall f | f in r.buildCrateTypes
      ensures f.build < |r.builds| && f.crateType < |r.strings|
    {
      var k :| 0 <= k < |r.buildCrateTypes| && r.buildCrateTypes[k] == f;
      if k < |v.buildCrateTypes| {
        assert r.buildCrateTypes[..|v.buildCrateTypes|][k] == f;
      } else {
        var i := k - |v.buildCrateTypes|;
        assert SameString(r.strings, r.buildCrateTypes[|v.buildCrateTypes| + i].crateType, o.strings, o.buildCrateTypes[i].crateType);
        assert f.build == buildsMap[o.buildCrateTypes[i].build];
      }
    }
  }

  /** Merged type facts name merged strings when self's did. */
  lemma TypesWithin(v: TablesValue, o: TablesValue, r: TablesValue)
    requires TypesMerged(v, o, r)
    requires forall f :: f in v.types ==> f.kind < |r.strings|
    ensures forall f :: f in r.types ==> f.kind < |r.strings|
  {
    forall f | f in r.types
      ensures f.kind < |r.strings|
    {
      var k :| 0 <= k < |r.types| && r.types[k] == f;
      if k < |v.types| {
        assert r.types[..|v.types|][k] == f;
      } else {
        assert SameString(r.strings, r.types[|v.types| + (k - |v.types|)].kind, o.strings, o.types[k - |v.types|].kind);
      }
    }
  }

  /** Merged `type_defs` facts name merged crates and strings when self's did. */
  lemma TypeDefsWithinWith(v: TablesValue, m: map<TypeDefKey, Type>, o: TablesValue, im: InternedTables)
    requires v.spanCounter >= SPAN_CONSTANTS && IntegralValue(o) && KeysCover(o, im.strings.keys, im.crateNames.keys, im.builds.keys)
    requires KeysInto(im.crateNames.keys, |im.crateNames.contents|) && KeysInto(im.strings.keys, |im.strings.contents|)
    requires TypeDefsWithin(v.typeDefs, |im.crateNames.contents|, |im.strings.contents|)
    ensures TypeDefsWithin(MergeWith(v, m, o, im).tables.typeDefs, |im.crateNames.contents|, |im.strings.contents|)
  {
    CoversByDomains(o, im.strings.keys, im.crateNames.keys, im.builds.keys);
    var init := KeyedState(m, map[], []);
    KeyedFoldWithin(o.typeDefs, v.typeCounter - TYPE_CONSTANTS, im.crateNames.keys, im.strings.keys, init,
                    |im.crateNames.contents|, |im.strings.contents|);
    var keyed := KeyedFold(o.typeDefs, v.typeCounter - TYPE_CONSTANTS, im.crateNames.keys, im.strings.keys, init);
    assert MergeWith(v, m, o, im).tables.typeDefs == v.typeDefs + keyed.appended;
  }

  /** Merging an integral other side into integral tables gives integral
      tables: every id a merged table or relation stores is a key of its
      merged table. */
  lemma MergeKeepsIntegral(v: TablesValue, m: map<TypeDefKey, Type>, o: TablesValue)
    requires v.spanCounter >= SPAN_CONSTANTS && Mergeable(o) && IntegralValue(v)
    ensures IntegralValue(MergeSpec(v, m, o).tables)
  {
    var r := MergeSpec(v, m, o).tables;
    var im := MergeInterned(v, o);
    InternedCover(v, o);
    InternedForMerge(v, o);
    StagesCrateNamesClosed(v.strings, v.crateNames, v.builds, o.strings, o.crateNames, o.builds);
    StagesBuildsClosed(v.strings, v.crateNames, v.builds, o.strings, o.crateNames, o.builds);
    MergeKeepsStrings(v, m, o);
    MergeKeepsChain(v, m, o);
    MergeShiftsSpans(v, m, o);
    SpansWithin(v, o, r);
    MergeRemapsBuildCrateTypes(v, m, o);
    BuildCrateTypesWithin(v, o, r, im.builds.keys);
    MergeRemapsTypes(v, m, o);
    TypesWithin(v, o, r);
    TypeDefsWithinWith(v, m, o, im);
  }

  /** Interning values that are all present changes nothing. */
  lemma {:induction false} InternAllKnown<V>(contents: seq<V>, values: seq<V>)
    requires forall i :: 0 <= i < |values| ==> values[i] in contents
    ensures InternAll(contents, values) == contents
    decreases |values|
  {
    if values != [] {
      InternAllKnown(contents, values[..|values| - 1]);
    }
  }

  /** Merging a side whose strings self already holds leaves self's
      strings as they are. */
  lemma MergeKnownStrings(v: TablesValue, m: map<TypeDefKey, Type>, o: TablesValue)
    requires v.spanCounter >= SPAN_CONSTANTS && Mergeable(o)
    requires forall i :: 0 <= i < |o.strings| ==> o.strings[i] in v.strings
    ensures MergeSpec(v, m, o).tables.strings == v.strings
  {
    InternAllKnown(v.strings, o.strings);
  }
}
