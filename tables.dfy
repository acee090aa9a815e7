/** The generated `Tables` of the fact database, for a fixed schema:

      interning tables   strings: String -> InternedString
                         crate_names: InternedString -> Krate
                         builds: (Krate, CrateHash) -> Build
      incremental ids    Span (one constant, the root parent span 0), Type
      relations          spans(auto span: Span, parent: Span, kind: ExpansionKind, expansion: InternedString)
                         build_crate_types(build: Build, crate_type: InternedString)
                         types(auto typ: Type, kind: InternedString)
                         type_defs(typ: Type, krate: Krate, name: InternedString),
                           keyed by (krate, name) with target typ

    The registration functions intern each value through the chain of
    tables keyed by its type (see `SchemaDecl.FixedSchemaChains`), take a
    fresh id for each `auto` parameter and append one fact. */
module Database {
  import opened Wrappers
  import opened DataStructures
  import opened IdCounters

  type InternedString = nat
  type Krate = nat
  type Build = nat
  type CrateHash = nat
  type Span = nat
  type Type = nat

  /** A tuple-valued interning table's value; the crate hash is a custom id
      and is stored as given. */
  datatype BuildValue = BuildValue(krate: Krate, crateHash: CrateHash)

  /** An enum of the schema; enums are copied, never interned. */
  datatype ExpansionKind = Root | MacroBang | MacroAttr | MacroDerive | AstPass | Desugaring

  datatype SpanFact = SpanFact(span: Span, parent: Span, kind: ExpansionKind, expansion: InternedString)
  datatype BuildCrateType = BuildCrateType(build: Build, crateType: InternedString)
  datatype TypeFact = TypeFact(typ: Type, kind: InternedString)
  datatype TypeDef = TypeDef(typ: Type, krate: Krate, name: InternedString)

  /** The state of a `Tables` as plain values. */
  datatype TablesValue = TablesValue(
    strings: seq<string>,
    crateNames: seq<InternedString>,
    builds: seq<BuildValue>,
    spans: seq<SpanFact>,
    buildCrateTypes: seq<BuildCrateType>,
    types: seq<TypeFact>,
    typeDefs: seq<TypeDef>,
    spanCounter: nat,
    typeCounter: nat)

  /** Every interned id stored in a table or a relation is a key of its
      table (merging looks each of them up and aborts on a missing key). */
  ghost predicate IntegralValue(v: TablesValue)
  {
    (forall i :: 0 <= i < |v.crateNames| ==> v.crateNames[i] < |v.strings|) &&
    (forall i :: 0 <= i < |v.builds| ==> v.builds[i].krate < |v.crateNames|) &&
    (forall f :: f in v.spans ==> f.expansion < |v.strings|) &&
    (forall f :: f in v.buildCrateTypes ==> f.build < |v.builds| && f.crateType < |v.strings|) &&
    (forall f :: f in v.types ==> f.kind < |v.strings|) &&
    (forall f :: f in v.typeDefs ==> f.krate < |v.crateNames| && f.name < |v.strings|)
  }

  /** Span ids are dense: the i-th span fact has the i-th fresh span id, and
      the counter is the next one. */
  ghost predicate DenseSpanFacts(facts: seq<SpanFact>, counter: nat)
  {
    counter == |facts| + SPAN_CONSTANTS &&
    forall i :: 0 <= i < |facts| ==> facts[i].span == i + SPAN_CONSTANTS
  }

  /** Type ids are dense in the same way. */
  ghost predicate DenseTypeFacts(facts: seq<TypeFact>, counter: nat)
  {
    counter == |facts| + TYPE_CONSTANTS &&
    forall i :: 0 <= i < |facts| ==> facts[i].typ == i + TYPE_CONSTANTS
  }

  /** The tables `Tables::default` builds: everything empty, each counter
      at its first id that is not a constant. */
  const EMPTY_TABLES := TablesValue([], [], [], [], [], [], [], SPAN_CONSTANTS, TYPE_CONSTANTS)

  /** A call of one of the generated registration functions. */
  datatype Registration =
    | RegisterString(value: string)
    | RegisterCrateName(crateName: string)
    | RegisterBuild(buildCrate: string, crateHash: CrateHash)
    | RegisterSpan(parent: Span, kind: ExpansionKind, expansion: string)
    | RegisterBuildCrateType(build: Build, crateType: string)
    | RegisterType(typeKind: string)
    | RegisterTypeDef(typ: Type, defCrate: string, name: string)

  /** The tables after a registration and what the function returns: the
      key of an interned value, the fresh id of an `auto` parameter, or
      nothing. */
  datatype Registered = Registered(tables: TablesValue, returned: Option<nat>)

  /** `register_strings`: interns the string and returns its key. */
  function RegisteredString(t: TablesValue, value: string): Registered
  {
    var strings := InternValue(t.strings, value);
    Registered(t.(strings := strings), Some(IndexOf(strings, value)))
  }

  /** `register_crate_names`: interns the name as a string, then its key as
      a crate name, and returns the crate name's key. */
  function RegisteredCrateName(t: TablesValue, value: string): Registered
  {
    var strings := InternValue(t.strings, value);
    var s := IndexOf(strings, value);
    var names := InternValue(t.crateNames, s);
    Registered(t.(strings := strings, crateNames := names), Some(IndexOf(names, s)))
  }

  /** `register_builds`: interns the crate through its chain, copies the
      crate hash, interns the pair and returns its key. */
  function RegisteredBuild(t: TablesValue, crateName: string, crateHash: CrateHash): Registered
  {
    var strings := InternValue(t.strings, crateName);
    var s := IndexOf(strings, crateName);
    var names := InternValue(t.crateNames, s);
    var b := BuildValue(IndexOf(names, s), crateHash);
    var builds := InternValue(t.builds, b);
    Registered(t.(strings := strings, crateNames := names, builds := builds), Some(IndexOf(builds, b)))
  }

  /** `register_spans`: takes the next span id, interns the expansion,
      appends the fact and returns the id. */
  function RegisteredSpan(t: TablesValue, parent: Span, kind: ExpansionKind, expansion: string): Registered
  {
    var strings := InternValue(t.strings, expansion);
    var f := SpanFact(t.spanCounter, parent, kind, IndexOf(strings, expansion));
    Registered(t.(strings := strings, spans := t.spans + [f], spanCounter := t.spanCounter + 1), Some(t.spanCounter))
  }

  /** `register_build_crate_types`: copies the build, interns the crate type
      and appends the fact, even when an equal one is already there. */
  function RegisteredBuildCrateType(t: TablesValue, build: Build, crateType: string): Registered
  {
    var strings := InternValue(t.strings, crateType);
    var f := BuildCrateType(build, IndexOf(strings, crateType));
    Registered(t.(strings := strings, buildCrateTypes := t.buildCrateTypes + [f]), None)
  }

  /** `register_types`: takes the next type id, interns the kind, appends
      the fact and returns the id. */
  function RegisteredType(t: TablesValue, kind: string): Registered
  {
    var strings := InternValue(t.strings, kind);
    var f := TypeFact(t.typeCounter, IndexOf(strings, kind));
    Registered(t.(strings := strings, types := t.types + [f], typeCounter := t.typeCounter + 1), Some(t.typeCounter))
  }

  /** `register_type_defs`: copies the type, interns the crate through its
      chain and the name as a string, and appends the fact; its key is not
      checked. */
  function RegisteredTypeDef(t: TablesValue, typ: Type, crateName: string, name: string): Registered
  {
    var strings := InternValue(t.strings, crateName);
    var s := IndexOf(strings, crateName);
    var names := InternValue(t.crateNames, s);
    var strings' := InternValue(strings, name);
    var f := TypeDef(typ, IndexOf(names, s), IndexOf(strings', name));
    Registered(t.(strings := strings', crateNames := names, typeDefs := t.typeDefs + [f]), None)
  }

  /** Any registration. */
  function Register(t: TablesValue, reg: Registration): Registered
  {
    match reg
    case RegisterString(value) => RegisteredString(t, value)
    case RegisterCrateName(value) => RegisteredCrateName(t, value)
    case RegisterBuild(crateName, crateHash) => RegisteredBuild(t, crateName, crateHash)
    case RegisterSpan(parent, kind, expansion) => RegisteredSpan(t, parent, kind, expansion)
    case RegisterBuildCrateType(build, crateType) => RegisteredBuildCrateType(t, build, crateType)
    case RegisterType(kind) => RegisteredType(t, kind)
    case RegisterTypeDef(typ, crateName, name) => RegisteredTypeDef(t, typ, crateName, name)
  }

  /** `t` grows into `u`: every table and relation of `t` is a prefix of
      the one in `u`, and no counter goes back. */
  ghost predicate Grows(t: TablesValue, u: TablesValue)
  {
    |t.strings| <= |u.strings| && u.strings[..|t.strings|] == t.strings &&
    |t.crateNames| <= |u.crateNames| && u.crateNames[..|t.crateNames|] == t.crateNames &&
    |t.builds| <= |u.builds| && u.builds[..|t.builds|] == t.builds &&
    |t.spans| <= |u.spans| && u.spans[..|t.spans|] == t.spans &&
    |t.buildCrateTypes| <= |u.buildCrateTypes| && u.buildCrateTypes[..|t.buildCrateTypes|] == t.buildCrateTypes &&
    |t.types| <= |u.types| && u.types[..|t.types|] == t.types &&
    |t.typeDefs| <= |u.typeDefs| && u.typeDefs[..|t.typeDefs|] == t.typeDefs &&
    t.spanCounter <= u.spanCounter && t.typeCounter <= u.typeCounter
  }

  class Tables {
    const strings: InterningTable<string>
    const crateNames: InterningTable<InternedString>
    const builds: InterningTable<BuildValue>
    const spans: Relation<SpanFact>
    const buildCrateTypes: Relation<BuildCrateType>
    const types: Relation<TypeFact>
    const typeDefs: Relation<TypeDef>
    const counters: Counters

    /** The contents of every table and relation and the counters, as values. */
    ghost function Snapshot(): TablesValue
      reads strings, crateNames, builds, spans, buildCrateTypes, types, typeDefs, counters
    {
      TablesValue(strings.contents, crateNames.contents, builds.contents, spans.facts,
                  buildCrateTypes.facts, types.facts, typeDefs.facts, counters.spans, counters.types)
    }

    /** Every interning table is a bijection and the span counter has passed
        its constants. */
    ghost predicate Valid()
      reads strings, crateNames, builds, counters
    {
      strings.Valid() && crateNames.Valid() && builds.Valid() && counters.spans >= SPAN_CONSTANTS
    }

    ghost predicate Integral()
      reads strings, crateNames, builds, spans, buildCrateTypes, types, typeDefs, counters
    {
      IntegralValue(Snapshot())
    }

    /** Empty tables, counters at their defaults. */
    constructor Default()
      ensures Valid() && Snapshot() == EMPTY_TABLES
      ensures fresh(strings) && fresh(crateNames) && fresh(builds) && fresh(counters)
      ensures fresh(spans) && fresh(buildCrateTypes) && fresh(types) && fresh(typeDefs)
    {
      strings := new InterningTable<string>.Default();
      crateNames := new InterningTable<InternedString>.Default();
      builds := new InterningTable<BuildValue>.Default();
      spans := new Relation<SpanFact>.Default();
      buildCrateTypes := new Relation<BuildCrateType>.Default();
      types := new Relation<TypeFact>.Default();
      typeDefs := new Relation<TypeDef>.Default();
      counters := new Counters.Default();
      new;
      assert strings.contents == [] && crateNames.contents == [] && builds.contents == [];
      assert spans.facts == [] && buildCrateTypes.facts == [] && types.facts == [] && typeDefs.facts == [];
    }

    /** Delegates to the counters. */
    method GetFreshSpan() returns (span: Span)
      modifies counters
      ensures span == old(counters.spans) && counters.spans == old(counters.spans) + 1
      ensures counters.types == old(counters.types)
    {
      span := counters.GetFreshSpan();
    }

    method GetFreshType() returns (typ: Type)
      modifies counters
      ensures typ == old(counters.types) && counters.types == old(counters.types) + 1
      ensures counters.spans == old(counters.spans)
    {
      typ := counters.GetFreshType();
    }

    method GetRootParentSpan() returns (span: Span)
      ensures span == ROOT_PARENT_SPAN
    {
      span := counters.GetRootParentSpan();
    }

    /** `register_strings`: interns the string. */
    method RegisterStrings(value: string) returns (s: InternedString)
      requires Valid()
      modifies strings
      ensures Valid()
      ensures var r := RegisteredString(old(Snapshot()), value); Snapshot() == r.tables && Some(s) == r.returned
    {
      s := strings.Intern(value);
      strings.KeyIsPosition(s);
    }

    /** `register_crate_names`: interns the string, then its key as a crate
        name, and returns the crate name's key. */
    method RegisterCrateNames(value: string) returns (krate: Krate)
      requires Valid()
      modifies strings, crateNames
      ensures Valid()
      ensures var r := RegisteredCrateName(old(Snapshot()), value); Snapshot() == r.tables && Some(krate) == r.returned
    {
      var s := strings.Intern(value);
      strings.KeyIsPosition(s);
      krate := crateNames.Intern(s);
      crateNames.KeyIsPosition(krate);
    }

    /** `register_builds`: interns the crate name through its chain, copies
        the crate hash, and interns the pair. */
    method RegisterBuilds(crateName: string, crateHash: CrateHash) returns (build: Build)
      requires Valid()
      modifies strings, crateNames, builds
      ensures Valid()
      ensures var r := RegisteredBuild(old(Snapshot()), crateName, crateHash); Snapshot() == r.tables && Some(build) == r.returned
    {
      ghost var t := Snapshot();
      var s := strings.Intern(crateName);
      strings.KeyIsPosition(s);
      var krate := crateNames.Intern(s);
      crateNames.KeyIsPosition(krate);
      build := builds.Intern(BuildValue(krate, crateHash));
      builds.KeyIsPosition(build);
      ghost var r := RegisteredBuild(t, crateName, crateHash);
      assert strings.contents == r.tables.strings && s == IndexOf(r.tables.strings, crateName);
      assert crateNames.contents == r.tables.crateNames && krate == IndexOf(r.tables.crateNames, s);
      assert builds.contents == r.tables.builds;
    }

    /** `register_spans`: takes a fresh span id, interns the expansion
        string, appends one fact and returns the new id. */
    method RegisterSpans(parent: Span, kind: ExpansionKind, expansion: string) returns (span: Span)
      requires Valid()
      modifies strings, spans, counters
      ensures Valid()
      ensures var r := RegisteredSpan(old(Snapshot()), parent, kind, expansion); Snapshot() == r.tables && Some(span) == r.returned
    {
      span := counters.GetFreshSpan();
      var e := strings.Intern(expansion);
      strings.KeyIsPosition(e);
      spans.Insert(SpanFact(span, parent, kind, e));
    }

    /** `register_build_crate_types`: interns the crate type and appends a
        fact, even if an equal one is already there. */
    method RegisterBuildCrateTypes(build: Build, crateType: string)
      requires Valid()
      modifies strings, buildCrateTypes
      ensures Valid()
      ensures Snapshot() == RegisteredBuildCrateType(old(Snapshot()), build, crateType).tables
    {
      var c := strings.Intern(crateType);
      strings.KeyIsPosition(c);
      buildCrateTypes.Insert(BuildCrateType(build, c));
    }

    /** `register_types`: takes a fresh type id, interns the kind and appends a fact. */
    method RegisterTypes(kind: string) returns (typ: Type)
      requires Valid()
      modifies strings, types, counters
      ensures Valid()
      ensures var r := RegisteredType(old(Snapshot()), kind); Snapshot() == r.tables && Some(typ) == r.returned
    {
      typ := counters.GetFreshType();
      var k := strings.Intern(kind);
      strings.KeyIsPosition(k);
      types.Insert(TypeFact(typ, k));
    }

    /** `register_type_defs`: interns the crate name and the name and
        appends a fact; the key is not checked here. */
    method RegisterTypeDefs(typ: Type, crateName: string, name: string)
      requires Valid()
      modifies strings, crateNames, typeDefs
      ensures Valid()
      ensures Snapshot() == RegisteredTypeDef(old(Snapshot()), typ, crateName, name).tables
    {
      var s := strings.Intern(crateName);
      strings.KeyIsPosition(s);
      var krate := crateNames.Intern(s);
      crateNames.KeyIsPosition(krate);
      var n := strings.Intern(name);
      strings.KeyIsPosition(n);
      typeDefs.Insert(TypeDef(typ, krate, n));
    }
  }
}
