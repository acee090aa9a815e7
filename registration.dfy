/** Properties of the generated registration functions, stated on the
    value-level `Register` of the fixed schema: what each call returns,
    what it appends, that it only grows the tables, and that it keeps the
    database integral and its incremental ids dense. */
module Registrations {
  import opened Wrappers
  import opened DataStructures
  import opened IdCounters
  import opened Database

  /** The registration's own id arguments are keys of their tables (the
      only interned id a registration takes as given is a `Build`). */
  ghost predicate ArgumentsAreKeys(t: TablesValue, reg: Registration)
  {
    reg.RegisterBuildCrateType? ==> reg.build < |t.builds|
  }

  /** Interning twice in a row interns once. */
  lemma InternValueTwice<V>(contents: seq<V>, value: V)
    ensures InternValue(InternValue(contents, value), value) == InternValue(contents, value)
  {
  }

  /** A sequence that extends `a` also extends every prefix `a` extends. */
  lemma PrefixTrans<V>(a: seq<V>, b: seq<V>, c: seq<V>)
    requires |a| <= |b| && b[..|a|] == a
    requires |b| <= |c| && c[..|b|] == b
    ensures |a| <= |c| && c[..|a|] == a
  {
    assert c[..|a|] == c[..|b|][..|a|];
  }

  lemma AppendPrefix<V>(s: seq<V>, x: V)
    ensures |s| <= |s + [x]| && (s + [x])[..|s|] == s
  {
    assert (s + [x])[..|s|] == s;
  }

  /** Every registration only appends: each interning table and relation
      keeps its contents as a prefix, so every key handed out before keeps
      its value, and no counter goes back. */
  lemma RegisterGrows(t: TablesValue, reg: Registration)
    ensures Grows(t, Register(t, reg).tables)
  {
    match reg
    case RegisterString(value) =>
    case RegisterCrateName(value) =>
    case RegisterBuild(crateName, crateHash) =>
    case RegisterSpan(parent, kind, expansion) =>
      var u := Register(t, reg).tables;
      AppendPrefix(t.spans, u.spans[|t.spans|]);
    case RegisterBuildCrateType(build, crateType) =>
      var u := Register(t, reg).tables;
      AppendPrefix(t.buildCrateTypes, u.buildCrateTypes[|t.buildCrateTypes|]);
    case RegisterType(kind) =>
      var u := Register(t, reg).tables;
      AppendPrefix(t.types, u.types[|t.types|]);
    case RegisterTypeDef(typ, crateName, name) =>
      var u := Register(t, reg).tables;
      var strings := InternValue(t.strings, crateName);
      PrefixTrans(t.strings, strings, u.strings);
      AppendPrefix(t.typeDefs, u.typeDefs[|t.typeDefs|]);
  }

  /** `register_strings` returns a key that resolves to the string. */
  lemma RegisterStringResolves(t: TablesValue, value: string)
    ensures var r := RegisteredString(t, value);
      r.returned.Some? && r.returned.value < |r.tables.strings| && r.tables.strings[r.returned.value] == value
  {
  }

  /** `register_crate_names` returns a crate-name key whose string key
      resolves to the name. */
  lemma RegisterCrateNameResolves(t: TablesValue, crateName: string)
    ensures var r := RegisteredCrateName(t, crateName); var u := r.tables;
      r.returned.Some? && r.returned.value < |u.crateNames| &&
      u.crateNames[r.returned.value] < |u.strings| && u.strings[u.crateNames[r.returned.value]] == crateName
  {
  }

  /** `register_builds` returns a build key whose value carries the crate
      hash as given and a crate that resolves, through its chain, to the
      crate name. */
  lemma RegisterBuildResolves(t: TablesValue, crateName: string, crateHash: CrateHash)
    ensures var r := RegisteredBuild(t, crateName, crateHash); var u := r.tables;
      r.returned.Some? && r.returned.value < |u.builds| &&
      u.builds[r.returned.value].crateHash == crateHash &&
      u.builds[r.returned.value].krate < |u.crateNames| &&
      u.crateNames[u.builds[r.returned.value].krate] < |u.strings| &&
      u.strings[u.crateNames[u.builds[r.returned.value].krate]] == crateName
  {
    var strings := InternValue(t.strings, crateName);
    var s := IndexOf(strings, crateName);
    var names := InternValue(t.crateNames, s);
    var b := BuildValue(IndexOf(names, s), crateHash);
    var builds := InternValue(t.builds, b);
    assert builds[IndexOf(builds, b)] == b;
  }

  /** `register_spans` returns the span counter it found, advances it by
      one, and appends exactly one fact carrying that id, the parent and
      kind as given, and an expansion key that resolves to the string. */
  lemma RegisterSpanAppends(t: TablesValue, parent: Span, kind: ExpansionKind, expansion: string)
    ensures var r := RegisteredSpan(t, parent, kind, expansion); var u := r.tables;
      r.returned == Some(t.spanCounter) && u.spanCounter == t.spanCounter + 1 &&
      |u.spans| == |t.spans| + 1 && u.spans[..|t.spans|] == t.spans &&
      u.spans[|t.spans|].span == t.spanCounter && u.spans[|t.spans|].parent == parent &&
      u.spans[|t.spans|].kind == kind &&
      u.spans[|t.spans|].expansion < |u.strings| && u.strings[u.spans[|t.spans|].expansion] == expansion
  {
    var u := RegisteredSpan(t, parent, kind, expansion).tables;
    AppendPrefix(t.spans, u.spans[|t.spans|]);
  }

  /** `register_build_crate_types` returns nothing and appends exactly one
      fact with the build as given and a crate-type key that resolves. */
  lemma RegisterBuildCrateTypeAppends(t: TablesValue, build: Build, crateType: string)
    ensures var r := RegisteredBuildCrateType(t, build, crateType); var u := r.tables;
      r.returned == None &&
      |u.buildCrateTypes| == |t.buildCrateTypes| + 1 && u.buildCrateTypes[..|t.buildCrateTypes|] == t.buildCrateTypes &&
      u.buildCrateTypes[|t.buildCrateTypes|].build == build &&
      u.buildCrateTypes[|t.buildCrateTypes|].crateType < |u.strings| &&
      u.strings[u.buildCrateTypes[|t.buildCrateTypes|].crateType] == crateType
  {
    var u := RegisteredBuildCrateType(t, build, crateType).tables;
    AppendPrefix(t.buildCrateTypes, u.buildCrateTypes[|t.buildCrateTypes|]);
  }

  /** `register_types` returns the type counter it found, advances it by
      one, and appends one fact with that id and a kind that resolves. */
  lemma RegisterTypeAppends(t: TablesValue, kind: string)
    ensures var r := RegisteredType(t, kind); var u := r.tables;
      r.returned == Some(t.typeCounter) && u.typeCounter == t.typeCounter + 1 &&
      |u.types| == |t.types| + 1 && u.types[..|t.types|] == t.types &&
      u.types[|t.types|].typ == t.typeCounter &&
      u.types[|t.types|].kind < |u.strings| && u.strings[u.types[|t.types|].kind] == kind
  {
    var u := RegisteredType(t, kind).tables;
    AppendPrefix(t.types, u.types[|t.types|]);
  }

  /** `register_type_defs` returns nothing and appends one fact with the
      type as given, a crate that resolves through its chain to the crate
      name, and a name key that resolves to the name. */
  lemma RegisterTypeDefAppends(t: TablesValue, typ: Type, crateName: string, name: string)
    ensures var r := RegisteredTypeDef(t, typ, crateName, name); var u := r.tables; var f := u.typeDefs[|t.typeDefs|];
      r.returned == None &&
      |u.typeDefs| == |t.typeDefs| + 1 && u.typeDefs[..|t.typeDefs|] == t.typeDefs &&
      f.typ == typ &&
      f.krate < |u.crateNames| && u.crateNames[f.krate] < |u.strings| && u.strings[u.crateNames[f.krate]] == crateName &&
      f.name < |u.strings| && u.strings[f.name] == name
  {
    var strings := InternValue(t.strings, crateName);
    var s := IndexOf(strings, crateName);
    var names := InternValue(t.crateNames, s);
    var strings' := InternValue(strings, name);
    assert strings'[s] == strings'[..|strings|][s];
    var u := RegisteredTypeDef(t, typ, crateName, name).tables;
    AppendPrefix(t.typeDefs, u.typeDefs[|t.typeDefs|]);
  }

  /** Registering an equal string, crate name or build again returns the
      same key and changes no table. */
  lemma RegisterInternedTwice(t: TablesValue, reg: Registration)
    requires reg.RegisterString? || reg.RegisterCrateName? || reg.RegisterBuild?
    ensures Register(Register(t, reg).tables, reg) == Register(t, reg)
  {
    match reg
    case RegisterString(value) =>
      InternValueTwice(t.strings, value);
    case RegisterCrateName(value) =>
      var strings := InternValue(t.strings, value);
      InternValueTwice(t.strings, value);
      InternValueTwice(t.crateNames, IndexOf(strings, value));
    case RegisterBuild(crateName, crateHash) =>
      var strings := InternValue(t.strings, crateName);
      var s := IndexOf(strings, crateName);
      var names := InternValue(t.crateNames, s);
      InternValueTwice(t.strings, crateName);
      InternValueTwice(t.crateNames, s);
      InternValueTwice(t.builds, BuildValue(IndexOf(names, s), crateHash));
  }

  /** Relation registrations do not deduplicate: registering the same
      build crate type twice leaves two equal facts. */
  lemma BuildCrateTypeTwice(t: TablesValue, build: Build, crateType: string)
    ensures var u := RegisteredBuildCrateType(t, build, crateType).tables;
      var w := RegisteredBuildCrateType(u, build, crateType).tables;
      |w.buildCrateTypes| == |t.buildCrateTypes| + 2 &&
      w.buildCrateTypes[|t.buildCrateTypes|] == w.buildCrateTypes[|t.buildCrateTypes| + 1] &&
      w.strings == u.strings
  {
    var u := RegisteredBuildCrateType(t, build, crateType).tables;
    InternValueTwice(t.strings, crateType);
    assert u.strings == InternValue(t.strings, crateType);
  }

  /** Keys below the old length keep their values in an extension. */
  lemma ExtendedAt<V>(s: seq<V>, u: seq<V>, i: nat)
    requires |s| <= |u| && u[..|s|] == s && i < |s|
    ensures u[i] == s[i]
  {
    assert u[i] == u[..|s|][i];
  }

  /** Interning a crate name keeps every crate name a string key. */
  lemma CrateNamesStayKeys(t: TablesValue, u: TablesValue, k: nat)
    requires IntegralValue(t)
    requires |t.strings| <= |u.strings|
    requires |t.crateNames| <= |u.crateNames| && u.crateNames[..|t.crateNames|] == t.crateNames
    requires |u.crateNames| <= |t.crateNames| + 1
    requires |u.crateNames| == |t.crateNames| + 1 ==> u.crateNames[|t.crateNames|] == k
    requires k < |u.strings|
    ensures forall i :: 0 <= i < |u.crateNames| ==> u.crateNames[i] < |u.strings|
  {
    forall i | 0 <= i < |u.crateNames|
      ensures u.crateNames[i] < |u.strings|
    {
      if i < |t.crateNames| {
        ExtendedAt(t.crateNames, u.crateNames, i);
      }
    }
  }

  lemma CrateNameKeepsIntegral(t: TablesValue, crateName: string)
    requires IntegralValue(t)
    ensures IntegralValue(RegisteredCrateName(t, crateName).tables)
  {
    var u := RegisteredCrateName(t, crateName).tables;
    var strings := InternValue(t.strings, crateName);
    CrateNamesStayKeys(t, u, IndexOf(strings, crateName));
  }

  lemma BuildKeepsIntegral(t: TablesValue, crateName: string, crateHash: CrateHash)
    requires IntegralValue(t)
    ensures IntegralValue(RegisteredBuild(t, crateName, crateHash).tables)
  {
    var u := RegisteredBuild(t, crateName, crateHash).tables;
    var strings := InternValue(t.strings, crateName);
    var s := IndexOf(strings, crateName);
    var names := InternValue(t.crateNames, s);
    var b := BuildValue(IndexOf(names, s), crateHash);
    CrateNamesStayKeys(t, u, s);
    forall i | 0 <= i < |u.builds|
      ensures u.builds[i].krate < |u.crateNames|
    {
      if i < |t.builds| {
        ExtendedAt(t.builds, u.builds, i);
      } else {
        assert u.builds[i] == b;
      }
    }
  }

  lemma SpanKeepsIntegral(t: TablesValue, parent: Span, kind: ExpansionKind, expansion: string)
    requires IntegralValue(t)
    ensures IntegralValue(RegisteredSpan(t, parent, kind, expansion).tables)
  {
    var u := RegisteredSpan(t, parent, kind, expansion).tables;
    assert u.spans == t.spans + [u.spans[|t.spans|]];
  }

  lemma BuildCrateTypeKeepsIntegral(t: TablesValue, build: Build, crateType: string)
    requires IntegralValue(t) && build < |t.builds|
    ensures IntegralValue(RegisteredBuildCrateType(t, build, crateType).tables)
  {
    var u := RegisteredBuildCrateType(t, build, crateType).tables;
    assert u.buildCrateTypes == t.buildCrateTypes + [u.buildCrateTypes[|t.buildCrateTypes|]];
  }

  lemma TypeKeepsIntegral(t: TablesValue, kind: string)
    requires IntegralValue(t)
    ensures IntegralValue(RegisteredType(t, kind).tables)
  {
    var u := RegisteredType(t, kind).tables;
    assert u.types == t.types + [u.types[|t.types|]];
  }

  lemma TypeDefKeepsIntegral(t: TablesValue, typ: Type, crateName: string, name: string)
    requires IntegralValue(t)
    ensures IntegralValue(RegisteredTypeDef(t, typ, crateName, name).tables)
  {
    var u := RegisteredTypeDef(t, typ, crateName, name).tables;
    RegisterTypeDefAppends(t, typ, crateName, name);
    var strings := InternValue(t.strings, crateName);
    CrateNamesStayKeys(t, u, IndexOf(strings, crateName));
    assert u.typeDefs == t.typeDefs + [u.typeDefs[|t.typeDefs|]];
  }

  /** A registration whose id arguments are keys keeps the database
      integral: every stored interned id stays a key of its table. */
  lemma RegisterKeepsIntegral(t: TablesValue, reg: Registration)
    requires IntegralValue(t) && ArgumentsAreKeys(t, reg)
    ensures IntegralValue(Register(t, reg).tables)
  {
    match reg
    case RegisterString(value) =>
    case RegisterCrateName(value) => CrateNameKeepsIntegral(t, value);
    case RegisterBuild(crateName, crateHash) => BuildKeepsIntegral(t, crateName, crateHash);
    case RegisterSpan(parent, kind, expansion) => SpanKeepsIntegral(t, parent, kind, expansion);
    case RegisterBuildCrateType(build, crateType) => BuildCrateTypeKeepsIntegral(t, build, crateType);
    case RegisterType(kind) => TypeKeepsIntegral(t, kind);
    case RegisterTypeDef(typ, crateName, name) => TypeDefKeepsIntegral(t, typ, crateName, name);
  }

  /** Registrations keep the incremental ids dense: span and type facts
      carry the ids 1, 2, … and 0, 1, … in order, and each counter is the
      next id. */
  lemma RegisterKeepsDense(t: TablesValue, reg: Registration)
    requires DenseSpanFacts(t.spans, t.spanCounter) && DenseTypeFacts(t.types, t.typeCounter)
    ensures var u := Register(t, reg).tables;
      DenseSpanFacts(u.spans, u.spanCounter) && DenseTypeFacts(u.types, u.typeCounter)
  {
    match reg
    case RegisterSpan(parent, kind, expansion) =>
      RegisterSpanKeepsDense(t, parent, kind, expansion);
    case RegisterType(kind) =>
      RegisterTypeAppends(t, kind);
      var u := Register(t, reg).tables;
      forall i | 0 <= i < |u.types|
        ensures u.types[i].typ == i + TYPE_CONSTANTS
      {
        if i < |t.types| {
          assert u.types[i] == u.types[..|t.types|][i];
        }
      }
    case _ =>
  }

  /** A span registration on dense spans returns the counter, advances it
      by one and keeps the spans dense. */
  lemma RegisterSpanKeepsDense(t: TablesValue, parent: Span, kind: ExpansionKind, expansion: string)
    requires DenseSpanFacts(t.spans, t.spanCounter)
    ensures var r := RegisteredSpan(t, parent, kind, expansion);
      r.returned == Some(t.spanCounter) && |r.tables.spans| == |t.spans| + 1 &&
      DenseSpanFacts(r.tables.spans, r.tables.spanCounter)
  {
    RegisterSpanAppends(t, parent, kind, expansion);
    var u := RegisteredSpan(t, parent, kind, expansion).tables;
    forall i | 0 <= i < |u.spans|
      ensures u.spans[i].span == i + SPAN_CONSTANTS
    {
      if i < |t.spans| {
        assert u.spans[i] == u.spans[..|t.spans|][i];
      }
    }
  }

  /** The tables `Tables::default` builds are integral and dense. */
  lemma EmptyTablesIntegralAndDense()
    ensures IntegralValue(EMPTY_TABLES)
    ensures DenseSpanFacts(EMPTY_TABLES.spans, EMPTY_TABLES.spanCounter)
    ensures DenseTypeFacts(EMPTY_TABLES.types, EMPTY_TABLES.typeCounter)
  {
  }
}
