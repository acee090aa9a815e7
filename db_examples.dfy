/** The expected sizes and ids of the database tests, derived from the
    value-level registration and merge functions for the fixed schema. */
module DatabaseExamples {
  import opened Wrappers
  import opened DataStructures
  import opened IdCounters
  import opened Database
  import opened Merge
  import opened MergeProperties
  import opened MergeLaws
  import opened Registrations

  /** Tables holding two distinct crate names, registered in this order. */
  function TwoCrateNames(a: string, b: string): TablesValue
  {
    EMPTY_TABLES.(strings := [a, b], crateNames := [0, 1])
  }

  /** The first crate name registered into empty tables gets key 0. */
  lemma FirstCrateName(t: TablesValue, a: string)
    requires t == EMPTY_TABLES
    ensures RegisteredCrateName(t, a) == Registered(t.(strings := [a], crateNames := [0]), Some(0))
  {
    InternValueNew(t.strings, a);
    InternValueNew(t.crateNames, 0);
  }

  /** A second, different crate name gets key 1. */
  lemma SecondCrateName(t: TablesValue, a: string, b: string)
    requires a != b && t == EMPTY_TABLES.(strings := [a], crateNames := [0])
    ensures RegisteredCrateName(t, b) == Registered(TwoCrateNames(a, b), Some(1))
  {
    InternValueNew(t.strings, b);
    InternValueNew(t.crateNames, 1);
  }

  /** Registering the first crate name again returns key 0 and changes nothing. */
  lemma FirstCrateNameAgain(t: TablesValue, a: string, b: string)
    requires t == TwoCrateNames(a, b)
    ensures RegisteredCrateName(t, a) == Registered(t, Some(0))
  {
    InternValuePresent(t.strings, a, 0);
    InternValuePresent(t.crateNames, 0, 0);
  }

  /** Registering two distinct crate names into empty tables gives each a
      new key, 0 then 1, and registering the first again returns 0 and
      changes nothing. */
  lemma RegisterTwoCrateNames(a: string, b: string)
    requires a != b
    ensures var r1 := RegisteredCrateName(EMPTY_TABLES, a);
      var r2 := RegisteredCrateName(r1.tables, b);
      var r3 := RegisteredCrateName(r2.tables, a);
      r1 == Registered(EMPTY_TABLES.(strings := [a], crateNames := [0]), Some(0)) &&
      r2 == Registered(TwoCrateNames(a, b), Some(1)) &&
      r3 == Registered(TwoCrateNames(a, b), Some(0))
  {
    FirstCrateName(EMPTY_TABLES, a);
    SecondCrateName(EMPTY_TABLES.(strings := [a], crateNames := [0]), a, b);
    FirstCrateNameAgain(TwoCrateNames(a, b), a, b);
  }

  /** The sizes the crate-name test checks after its three registrations. */
  lemma CrateNamesExample()
    ensures var r1 := RegisteredCrateName(EMPTY_TABLES, "crate1");
      var r2 := RegisteredCrateName(r1.tables, "crate2");
      var r3 := RegisteredCrateName(r2.tables, "crate1");
      |r1.tables.strings| == 1 && |r1.tables.crateNames| == 1 &&
      r2.returned != r1.returned && |r2.tables.strings| == 2 && |r2.tables.crateNames| == 2 &&
      r3.returned == r1.returned && |r3.tables.strings| == 2 && |r3.tables.crateNames| == 2
  {
    assert "crate1" != "crate2" by { assert "crate1"[5] != "crate2"[5]; }
    RegisterTwoCrateNames("crate1", "crate2");
  }

  lemma InternAllPair<V>(contents: seq<V>, x: V, y: V)
    ensures InternAll(contents, [x, y]) == InternValue(InternValue(contents, x), y)
  {
    var vs := [x, y];
    assert vs[..1] == [x] && vs[1] == y;
    assert InternAll(contents, vs) == InternValue(InternAll(contents, [x]), y);
    assert [x][..0] == [];
    assert InternAll(contents, [x]) == InternValue(InternAll(contents, []), x);
  }

  lemma OverlappingContents<V>(a: V, b: V, c: V, values: seq<V>)
    requires a != b && b != c && a != c && values == [b, c]
    ensures InternAll([a, b], values) == [a, b, c]
  {
    InternAllPair([a, b], b, c);
    InternValuePresent([a, b], b, 1);
    InternValueNew([a, b], c);
  }

  lemma OverlappingKeys<V>(a: V, b: V, c: V, contents: seq<V>, values: seq<V>)
    requires a != b && b != c && a != c && contents == [a, b, c] && values == [b, c]
    ensures KeyMap(contents, values) == map[0 := 1, 1 := 2]
  {
    InternValuePresent(contents, b, 1);
    InternValuePresent(contents, c, 2);
    var m := KeyMap(contents, values);
    assert m[0] == 1 && m[1] == 2;
  }

  /** Interning `b`, `c` into a table holding `a`, `b`: `b` keeps key 1,
      `c` gets the new key 2. */
  lemma OverlappingStage<V>(a: V, b: V, c: V, values: seq<V>)
    requires a != b && b != c && a != c && values == [b, c]
    ensures InternStage([a, b], values) == Stage([a, b, c], map[0 := 1, 1 := 2])
  {
    OverlappingContents(a, b, c, values);
    var st := InternStage([a, b], values);
    OverlappingKeys(a, b, c, st.contents, values);
  }

  /** Two crate names and nothing else form integral tables. */
  lemma TwoCrateNamesMergeable(a: string, b: string)
    ensures Mergeable(TwoCrateNames(a, b))
  {
    var t := TwoCrateNames(a, b);
    assert t.strings == [a, b] && t.crateNames == [0, 1];
    assert t.builds == [] && t.spans == [] && t.buildCrateTypes == [] && t.types == [] && t.typeDefs == [];
  }

  /** The strings stage of merging crate names `b`, `c` into `a`, `b`:
      the other side's `b` finds its key 1 and `c` is appended with key 2. */
  lemma StringsOfTwoCrateNames(a: string, b: string, c: string,
                               strings: seq<string>, crateNames: seq<InternedString>, builds: seq<BuildValue>,
                               oStrings: seq<string>, oCrateNames: seq<InternedString>, oBuilds: seq<BuildValue>)
    requires a != b && b != c && a != c
    requires strings == [a, b] && oStrings == [b, c] && oCrateNames == [0, 1] && oBuilds == []
    ensures ChainClosed(oStrings, oCrateNames, oBuilds)
    ensures InternStages(strings, crateNames, builds, oStrings, oCrateNames, oBuilds).strings == Stage([a, b, c], map[0 := 1, 1 := 2])
  {
    OverlappingStage(a, b, c, oStrings);
  }

  /** The other stages of that merge: the crate names follow their
      strings, and there are no builds. */
  lemma StagesOfTwoCrateNames(a: string, b: string, c: string,
                              strings: seq<string>, crateNames: seq<InternedString>, builds: seq<BuildValue>,
                              oStrings: seq<string>, oCrateNames: seq<InternedString>, oBuilds: seq<BuildValue>)
    requires a != b && b != c && a != c
    requires strings == [a, b] && crateNames == [0, 1] && builds == []
    requires oStrings == [b, c] && oCrateNames == [0, 1] && oBuilds == []
    ensures ChainClosed(oStrings, oCrateNames, oBuilds)
    ensures var im := InternStages(strings, crateNames, builds, oStrings, oCrateNames, oBuilds);
      im.strings.contents == [a, b, c] && im.crateNames.contents == [0, 1, 2] && im.builds.contents == []
  {
    StringsOfTwoCrateNames(a, b, c, strings, crateNames, builds, oStrings, oCrateNames, oBuilds);
    var im := InternStages(strings, crateNames, builds, oStrings, oCrateNames, oBuilds);
    var names := RemapSeq(oCrateNames, im.strings.keys);
    RemapShifted(im.strings.keys);
    OverlappingStage<InternedString>(0, 1, 2, names);
  }

  lemma RemapShifted(keys: map<nat, nat>)
    requires keys == map[0 := 1, 1 := 2]
    ensures RemapSeq([0, 1], keys) == [1, 2]
  {
    var r := RemapSeq([0, 1], keys);
    assert |r| == 2 && r[0] == 1 && r[1] == 2;
  }

  /** Merging tables with crate names `b`, `c` into tables with `a`, `b`
      leaves the strings `a`, `b`, `c` and three crate names naming them in
      that order. */
  lemma MergeTwoCrateNames(a: string, b: string, c: string)
    requires a != b && b != c && a != c
    ensures Mergeable(TwoCrateNames(b, c))
    ensures var r := MergeSpec(TwoCrateNames(a, b), map[], TwoCrateNames(b, c)).tables;
      r.strings == [a, b, c] && r.crateNames == [0, 1, 2] && r.builds == []
  {
    var v := TwoCrateNames(a, b);
    var o := TwoCrateNames(b, c);
    TwoCrateNamesMergeable(b, c);
    StagesOfTwoCrateNames(a, b, c, v.strings, v.crateNames, v.builds, o.strings, o.crateNames, o.builds);
  }

  /** The crate-name merge test: merging "crate2", "crate4" into "crate1",
      "crate2" leaves three strings and three crate names, the i-th naming
      "crate1", "crate2" and "crate4" in turn. */
  lemma CrateNamesMergeExample(a: string, b: string, c: string)
    requires a == "crate1" && b == "crate2" && c == "crate4"
    ensures Mergeable(TwoCrateNames(b, c))
    ensures var r := MergeSpec(TwoCrateNames(a, b), map[], TwoCrateNames(b, c)).tables;
      r.strings == [a, b, c] && r.crateNames == [0, 1, 2]
  {
    CrateLiteralsDistinct(a, b, c);
    MergeTwoCrateNames(a, b, c);
  }

  lemma CrateLiteralsDistinct(a: string, b: string, c: string)
    requires a == "crate1" && b == "crate2" && c == "crate4"
    ensures a != b && b != c && a != c
  {
    assert a[5] != b[5] && b[5] != c[5] && a[5] != c[5];
  }

  /** The spans test's first tables: three spans registered into empty
      tables get the ids 1, 2 and 3 and leave the counter at 4. */
  lemma RegisterThreeSpans(t: TablesValue, e1: string, e2: string, e3: string)
    requires t == EMPTY_TABLES
    ensures var r1 := RegisteredSpan(t, ROOT_PARENT_SPAN, Root, e1);
      var r2 := RegisteredSpan(r1.tables, 1, Root, e2);
      var r3 := RegisteredSpan(r2.tables, 1, MacroDerive, e3);
      r1.returned == Some(1) && r2.returned == Some(2) && r3.returned == Some(3) &&
      |r3.tables.spans| == 3 && r3.tables.spanCounter == 4 &&
      DenseSpanFacts(r3.tables.spans, r3.tables.spanCounter)
  {
    var r1 := RegisteredSpan(t, ROOT_PARENT_SPAN, Root, e1);
    var r2 := RegisteredSpan(r1.tables, 1, Root, e2);
    EmptyTablesIntegralAndDense();
    RegisterSpanStep(t, ROOT_PARENT_SPAN, Root, e1, 0);
    RegisterSpanStep(r1.tables, 1, Root, e2, 1);
    RegisterSpanStep(r2.tables, 1, MacroDerive, e3, 2);
  }

  /** One span registered into dense tables holding `n` spans. */
  lemma RegisterSpanStep(t: TablesValue, parent: Span, kind: ExpansionKind, expansion: string, n: nat)
    requires DenseSpanFacts(t.spans, t.spanCounter) && |t.spans| == n
    ensures var r := RegisteredSpan(t, parent, kind, expansion);
      r.returned == Some(n + 1) && |r.tables.spans| == n + 1 && r.tables.spanCounter == n + 2 &&
      DenseSpanFacts(r.tables.spans, r.tables.spanCounter)
  {
    RegisterSpanKeepsDense(t, parent, kind, expansion);
  }

  /** The spans merge test: merging four dense spans into three gives
      seven spans and the counter 8; the other side's spans take the ids
      4 to 7, a root parent stays the root, and other parents follow
      their spans. */
  lemma SpansMergeExample(v: TablesValue, m: map<TypeDefKey, Type>, o: TablesValue)
    requires v.spanCounter >= SPAN_CONSTANTS && Mergeable(o)
    requires DenseSpanFacts(v.spans, v.spanCounter) && |v.spans| == 3
    requires DenseSpanFacts(o.spans, o.spanCounter) && |o.spans| == 4
    requires o.spans[0].parent == ROOT_PARENT_SPAN && o.spans[1].parent == o.spans[0].span
    ensures var r := MergeSpec(v, m, o).tables;
      |r.spans| == 7 && r.spanCounter == 8 &&
      r.spans[3].span == 4 && r.spans[3].parent == ROOT_PARENT_SPAN &&
      r.spans[4].span == 5 && r.spans[4].parent == 4
  {
    MergeShiftsSpans(v, m, o);
    var r := MergeSpec(v, m, o).tables;
    assert r.spans[|v.spans| + 0].parent == ShiftSpan(o.spans[0].parent, v.spanCounter - SPAN_CONSTANTS);
    assert r.spans[|v.spans| + 1].parent == ShiftSpan(o.spans[1].parent, v.spanCounter - SPAN_CONSTANTS);
  }
}
