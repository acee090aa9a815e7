/** The linked rustql database: every crate's modules, functions, structs
    and types numbered globally, with the relations between them, the
    lookups over it and its conversion into Datalog relations. */
module RustqlTuples {
  import opened Wrappers
  import opened RustqlData

  type CrateId = nat
  type ModId = nat
  type FunctionId = nat
  type StructId = nat
  type TypeId = nat

  /** `k` is the first position whose pair has `v` second. */
  predicate FirstWithSecondAt<K, V(==)>(s: seq<(K, V)>, v: V, k: int) {
    0 <= k < |s| && s[k].1 == v && forall j :: 0 <= j < k ==> s[j].1 != v
  }

  /** `k` is the first position whose pair has `v` first. */
  predicate FirstWithFirstAt<K(==), V>(s: seq<(K, V)>, v: K, k: int) {
    0 <= k < |s| && s[k].0 == v && forall j :: 0 <= j < k ==> s[j].0 != v
  }

  /** `iter().find(|(_, x)| x == v).map(|x| x.0)`: the first component of
      the first pair whose second component is `v`. */
  function KeyOf<K, V(==)>(s: seq<(K, V)>, v: V): (r: Option<K>)
    ensures r.None? <==> forall j :: 0 <= j < |s| ==> s[j].1 != v
    ensures r.Some? ==> exists k :: FirstWithSecondAt(s, v, k) && s[k].0 == r.value
  {
    if s == [] then None
    else if s[0].1 == v then
      assert FirstWithSecondAt(s, v, 0);
      Some(s[0].0)
    else
      var r := KeyOf(s[1..], v);
      assert forall j :: 1 <= j < |s| ==> s[j] == s[1..][j - 1];
      assert r.Some? ==> exists k :: FirstWithSecondAt(s[1..], v, k) && s[1..][k].0 == r.value;
      assert forall k :: FirstWithSecondAt(s[1..], v, k) ==> FirstWithSecondAt(s, v, k + 1);
      r
  }

  /** `iter().find(|(x, _)| x == v).map(|x| x.1)`: the second component of
      the first pair whose first component is `v`. */
  function ValueOf<K(==), V>(s: seq<(K, V)>, v: K): (r: Option<V>)
    ensures r.None? <==> forall j :: 0 <= j < |s| ==> s[j].0 != v
    ensures r.Some? ==> exists k :: FirstWithFirstAt(s, v, k) && s[k].1 == r.value
  {
    if s == [] then None
    else if s[0].0 == v then
      assert FirstWithFirstAt(s, v, 0);
      Some(s[0].1)
    else
      var r := ValueOf(s[1..], v);
      assert forall j :: 1 <= j < |s| ==> s[j] == s[1..][j - 1];
      assert r.Some? ==> exists k :: FirstWithFirstAt(s[1..], v, k) && s[1..][k].1 == r.value;
      assert forall k :: FirstWithFirstAt(s[1..], v, k) ==> FirstWithFirstAt(s, v, k + 1);
      r
  }

  /** The position of the first module named `name`. */
  function FirstModuleNamed(modules: seq<(ModId, Mod)>, name: string): (r: Option<nat>)
    ensures r.Some? ==> r.value < |modules| && modules[r.value].1.name == name &&
                        forall j :: 0 <= j < r.value ==> modules[j].1.name != name
    ensures r.None? ==> forall j :: 0 <= j < |modules| ==> modules[j].1.name != name
  {
    if modules == [] then None
    else if modules[0].1.name == name then Some(0)
    else
      var r := FirstModuleNamed(modules[1..], name);
      assert forall j :: 1 <= j < |modules| ==> modules[j] == modules[1..][j - 1];
      if r.None? then None else Some(r.value + 1)
  }

  /** The position of the first struct with the given definition path. */
  function StructWithPath(structs: seq<(StructId, StructData)>, p: GlobalDefPath): (r: Option<nat>)
    ensures r.Some? ==> r.value < |structs| && structs[r.value].1.defPath == p &&
                        forall j :: 0 <= j < r.value ==> structs[j].1.defPath != p
    ensures r.None? ==> forall j :: 0 <= j < |structs| ==> structs[j].1.defPath != p
  {
    if structs == [] then None
    else if structs[0].1.defPath == p then Some(0)
    else
      var r := StructWithPath(structs[1..], p);
      assert forall j :: 1 <= j < |structs| ==> structs[j] == structs[1..][j - 1];
      if r.None? then None else Some(r.value + 1)
  }

  /** The list of interned types with its reverse-lookup map. */
  datatype TypeTable = TypeTable(types: seq<(TypeId, Type)>, finder: map<Type, TypeId>)

  /** Type ids are positions, every listed type is found under its own id,
      and the finder holds nothing else. */
  predicate ValidTable(t: TypeTable) {
    (forall i :: 0 <= i < |t.types| ==> t.types[i].0 == i && t.types[i].1 in t.finder && t.finder[t.types[i].1] == i) &&
    (forall ty :: ty in t.finder ==> t.finder[ty] < |t.types| && t.types[t.finder[ty]].1 == ty)
  }

  /** In a valid table no type is listed twice, so equal types share an id. */
  lemma ValidTableDistinct(t: TypeTable, i: nat, j: nat)
    requires ValidTable(t) && i < |t.types| && j < |t.types| && t.types[i].1 == t.types[j].1
    ensures i == j
  {
  }

  /** `add_type_or_get` on values: the table afterwards and the type's id. */
  function InternType(t: TypeTable, ty: Type): (TypeTable, TypeId)
  {
    if ty in t.finder then (t, t.finder[ty])
    else (TypeTable(t.types + [(|t.types|, ty)], t.finder[ty := |t.types|]), |t.types|)
  }

  /** On a valid table, a known type keeps the table and returns its id; an
      unknown type gets the next id and is appended; either way the table
      stays valid and lists the type under the returned id. */
  lemma InternTypeSpec(t: TypeTable, ty: Type)
    requires ValidTable(t)
    ensures ValidTable(InternType(t, ty).0)
    ensures InternType(t, ty).1 < |InternType(t, ty).0.types|
    ensures InternType(t, ty).0.types[InternType(t, ty).1].1 == ty
    ensures forall i :: 0 <= i < |t.types| && t.types[i].1 == ty ==> InternType(t, ty) == (t, i)
    ensures (forall i :: 0 <= i < |t.types| ==> t.types[i].1 != ty) ==>
      InternType(t, ty).1 == |t.types| && InternType(t, ty).0.types == t.types + [(|t.types|, ty)]
  {
    if ty !in t.finder {
      var r := InternType(t, ty).0;
      assert forall i :: 0 <= i < |t.types| ==> r.types[i] == t.types[i];
    }
  }

  /** A fact list being extended together with the type table. */
  datatype Interned = Interned(table: TypeTable, facts: seq<(nat, TypeId)>)

  /** Interns each of `tys` in order and records `(owner, id)` for each. */
  function InternFacts(s: Interned, owner: nat, tys: seq<Type>): Interned
  {
    if tys == [] then s
    else
      var p := InternFacts(s, owner, tys[..|tys| - 1]);
      var (t, id) := InternType(p.table, tys[|tys| - 1]);
      Interned(t, p.facts + [(owner, id)])
  }

  /** Interning keeps the table valid and only appends types. */
  lemma {:induction false} InternFactsTable(s: Interned, owner: nat, tys: seq<Type>)
    requires ValidTable(s.table)
    ensures ValidTable(InternFacts(s, owner, tys).table)
    ensures |s.table.types| <= |InternFacts(s, owner, tys).table.types|
    ensures InternFacts(s, owner, tys).table.types[..|s.table.types|] == s.table.types
  {
    if tys != [] {
      var p := InternFacts(s, owner, tys[..|tys| - 1]);
      InternFactsTable(s, owner, tys[..|tys| - 1]);
      InternTypeSpec(p.table, tys[|tys| - 1]);
      var r := InternFacts(s, owner, tys).table.types;
      assert r[..|p.table.types|] == p.table.types;
      assert r[..|s.table.types|] == r[..|p.table.types|][..|s.table.types|];
    }
  }

  /** `added` holds one fact per type of `tys`, in order, each naming
      `owner` and the id under which `types` lists that type. */
  predicate RecordsTypes(added: seq<(nat, TypeId)>, owner: nat, types: seq<(TypeId, Type)>, tys: seq<Type>) {
    |added| == |tys| &&
    forall j :: 0 <= j < |tys| ==> added[j].0 == owner && added[j].1 < |types| && types[added[j].1].1 == tys[j]
  }

  /** Recording one more type after the ones already recorded. */
  lemma RecordsTypesExtend(added: seq<(nat, TypeId)>, owner: nat, types: seq<(TypeId, Type)>, tys: seq<Type>,
                           types': seq<(TypeId, Type)>, id: TypeId, ty: Type)
    requires RecordsTypes(added, owner, types, tys)
    requires |types| <= |types'| && types'[..|types|] == types
    requires id < |types'| && types'[id].1 == ty
    ensures RecordsTypes(added + [(owner, id)], owner, types', tys + [ty])
  {
    forall j | 0 <= j < |tys|
      ensures types'[added[j].1] == types[added[j].1]
    {
      assert types'[..|types|][added[j].1] == types[added[j].1];
    }
  }

  /** Interning appends one fact per type and keeps the earlier ones. */
  lemma {:induction false} InternFactsLength(s: Interned, owner: nat, tys: seq<Type>)
    ensures |InternFacts(s, owner, tys).facts| == |s.facts| + |tys|
    ensures InternFacts(s, owner, tys).facts[..|s.facts|] == s.facts
  {
    if tys != [] {
      var p := InternFacts(s, owner, tys[..|tys| - 1]);
      InternFactsLength(s, owner, tys[..|tys| - 1]);
      assert InternFacts(s, owner, tys).facts[..|s.facts|] == p.facts[..|s.facts|];
    }
  }

  /** Interning records one fact per type, in order, naming the owner and
      the id under which the type is listed. */
  lemma {:induction false} InternFactsFacts(s: Interned, owner: nat, tys: seq<Type>)
    requires ValidTable(s.table)
    ensures |s.facts| <= |InternFacts(s, owner, tys).facts|
    ensures RecordsTypes(InternFacts(s, owner, tys).facts[|s.facts|..], owner, InternFacts(s, owner, tys).table.types, tys)
  {
    if tys != [] {
      var n := |tys| - 1;
      var p := InternFacts(s, owner, tys[..n]);
      var r := InternFacts(s, owner, tys);
      InternFactsFacts(s, owner, tys[..n]);
      InternFactsLength(s, owner, tys[..n]);
      InternFactsTable(s, owner, tys[..n]);
      InternTypeSpec(p.table, tys[n]);
      assert r.table.types[..|p.table.types|] == p.table.types;
      RecordsTypesExtend(p.facts[|s.facts|..], owner, p.table.types, tys[..n], r.table.types, InternType(p.table, tys[n]).1, tys[n]);
      assert r.facts[|s.facts|..] == p.facts[|s.facts|..] + [(owner, InternType(p.table, tys[n]).1)];
      assert tys[..n] + [tys[n]] == tys;
    }
  }

  /** Interning one type appends exactly one fact. */
  lemma InternFactsOne(s: Interned, owner: nat, ty: Type)
    ensures InternFacts(s, owner, [ty]) == Interned(InternType(s.table, ty).0, s.facts + [(owner, InternType(s.table, ty).1)])
  {
    assert [ty][..0] == [];
  }

  /** Interning keeps the table valid, only appends types, and only appends
      facts that name the owner. */
  lemma InternFactsGrow(s: Interned, owner: nat, tys: seq<Type>)
    requires ValidTable(s.table)
    ensures ValidTable(InternFacts(s, owner, tys).table)
    ensures |s.table.types| <= |InternFacts(s, owner, tys).table.types|
    ensures InternFacts(s, owner, tys).table.types[..|s.table.types|] == s.table.types
    ensures Extends(s.facts, InternFacts(s, owner, tys).facts, owner)
  {
    InternFactsTable(s, owner, tys);
    InternFactsLength(s, owner, tys);
  }

  /** The relations `link_types` writes, with the type table it extends. */
  datatype Links = Links(
    table: TypeTable,
    isReferenceTo: seq<(TypeId, TypeId)>,
    tuple: seq<(TypeId, TypeId)>,
    slice: seq<(TypeId, TypeId)>,
    isStructType: seq<(TypeId, StructId)>)

  /** The links of one type: a reference to its referent's id, a tuple to
      each element's id, a slice to its element's id (interning them), a
      struct type to the first struct with the same definition path. */
  function LinkType(l: Links, structs: seq<(StructId, StructData)>, e: (TypeId, Type)): Links
  {
    match e.1
    case Reference(to, _) =>
      var r := InternFacts(Interned(l.table, l.isReferenceTo), e.0, [to]);
      l.(table := r.table, isReferenceTo := r.facts)
    case Tuple(elements) =>
      var r := InternFacts(Interned(l.table, l.tuple), e.0, elements);
      l.(table := r.table, tuple := r.facts)
    case Slice(element) =>
      var r := InternFacts(Interned(l.table, l.slice), e.0, [element]);
      l.(table := r.table, slice := r.facts)
    case Struct(p) =>
      var k := StructWithPath(structs, p);
      if k.None? then l else l.(isStructType := l.isStructType + [(e.0, structs[k.value].0)])
    case _ => l
  }

  /** The reference case as `link_types` writes it: it interns the
      reference type itself rather than the type it refers to. */
  function LinkTypeAsWritten(l: Links, structs: seq<(StructId, StructData)>, e: (TypeId, Type)): Links
  {
    if e.1.Reference? then
      var r := InternFacts(Interned(l.table, l.isReferenceTo), e.0, [e.1]);
      l.(table := r.table, isReferenceTo := r.facts)
    else LinkType(l, structs, e)
  }

  /** As written, every listed reference type is linked to itself. */
  lemma ReferenceLinkedToItself(l: Links, structs: seq<(StructId, StructData)>, i: nat)
    requires ValidTable(l.table) && i < |l.table.types| && l.table.types[i].1.Reference?
    ensures LinkTypeAsWritten(l, structs, l.table.types[i]).isReferenceTo == l.isReferenceTo + [(i, i)]
  {
    var e := l.table.types[i];
    InternFactsOne(Interned(l.table, l.isReferenceTo), e.0, e.1);
  }

  /** A reference type is linked to the id of the type it refers to. */
  lemma LinkTypeReference(l: Links, structs: seq<(StructId, StructData)>, e: (TypeId, Type))
    requires ValidTable(l.table) && e.1.Reference?
    ensures var r := LinkType(l, structs, e);
      |r.isReferenceTo| == |l.isReferenceTo| + 1 &&
      r.isReferenceTo[..|l.isReferenceTo|] == l.isReferenceTo &&
      RecordsTypes(r.isReferenceTo[|l.isReferenceTo|..], e.0, r.table.types, [e.1.to]) &&
      r.tuple == l.tuple && r.slice == l.slice && r.isStructType == l.isStructType
  {
    InternFactsFacts(Interned(l.table, l.isReferenceTo), e.0, [e.1.to]);
    InternFactsLength(Interned(l.table, l.isReferenceTo), e.0, [e.1.to]);
  }

  /** A tuple type gets one fact per element, naming the element's id. */
  lemma LinkTypeTuple(l: Links, structs: seq<(StructId, StructData)>, e: (TypeId, Type))
    requires ValidTable(l.table) && e.1.Tuple?
    ensures var r := LinkType(l, structs, e);
      |r.tuple| == |l.tuple| + |e.1.elements| &&
      r.tuple[..|l.tuple|] == l.tuple &&
      RecordsTypes(r.tuple[|l.tuple|..], e.0, r.table.types, e.1.elements) &&
      r.isReferenceTo == l.isReferenceTo && r.slice == l.slice && r.isStructType == l.isStructType
  {
    InternFactsFacts(Interned(l.table, l.tuple), e.0, e.1.elements);
    InternFactsLength(Interned(l.table, l.tuple), e.0, e.1.elements);
  }

  /** A slice type gets one fact naming its element's id. */
  lemma LinkTypeSlice(l: Links, structs: seq<(StructId, StructData)>, e: (TypeId, Type))
    requires ValidTable(l.table) && e.1.Slice?
    ensures var r := LinkType(l, structs, e);
      |r.slice| == |l.slice| + 1 &&
      r.slice[..|l.slice|] == l.slice &&
      RecordsTypes(r.slice[|l.slice|..], e.0, r.table.types, [e.1.element]) &&
      r.isReferenceTo == l.isReferenceTo && r.tuple == l.tuple && r.isStructType == l.isStructType
  {
    InternFactsFacts(Interned(l.table, l.slice), e.0, [e.1.element]);
    InternFactsLength(Interned(l.table, l.slice), e.0, [e.1.element]);
  }

  /** `k` is the position of the first struct with definition path `p`. */
  predicate StructFirstAt(structs: seq<(StructId, StructData)>, p: GlobalDefPath, k: int) {
    0 <= k < |structs| && structs[k].1.defPath == p && forall j :: 0 <= j < k ==> structs[j].1.defPath != p
  }

  /** A struct type is linked to the first struct with its definition path,
      and to nothing when there is none; no type is interned. */
  lemma LinkTypeStruct(l: Links, structs: seq<(StructId, StructData)>, e: (TypeId, Type))
    requires e.1.Struct?
    ensures var r := LinkType(l, structs, e);
      r.table == l.table && r.isReferenceTo == l.isReferenceTo && r.tuple == l.tuple && r.slice == l.slice &&
      ((forall j :: 0 <= j < |structs| ==> structs[j].1.defPath != e.1.structPath) ==> r.isStructType == l.isStructType) &&
      (forall k :: StructFirstAt(structs, e.1.structPath, k) ==> r.isStructType == l.isStructType + [(e.0, structs[k].0)])
  {
  }

  /** `link_types`: every entry of `entries` linked in order. */
  function LinkAll(l: Links, structs: seq<(StructId, StructData)>, entries: seq<(TypeId, Type)>): Links
  {
    if entries == [] then l
    else LinkType(LinkAll(l, structs, entries[..|entries| - 1]), structs, entries[|entries| - 1])
  }

  /** Linking one type keeps the table valid and only appends types. */
  lemma LinkTypeTable(l: Links, structs: seq<(StructId, StructData)>, e: (TypeId, Type))
    requires ValidTable(l.table)
    ensures ValidTable(LinkType(l, structs, e).table)
    ensures |l.table.types| <= |LinkType(l, structs, e).table.types|
    ensures LinkType(l, structs, e).table.types[..|l.table.types|] == l.table.types
  {
    match e.1
    case Reference(to, _) => InternFactsGrow(Interned(l.table, l.isReferenceTo), e.0, [to]);
    case Tuple(elements) => InternFactsGrow(Interned(l.table, l.tuple), e.0, elements);
    case Slice(element) => InternFactsGrow(Interned(l.table, l.slice), e.0, [element]);
    case _ =>
  }

  /** Linking one type only appends facts, each starting with its id. */
  lemma LinkTypeFacts(l: Links, structs: seq<(StructId, StructData)>, e: (TypeId, Type))
    requires ValidTable(l.table)
    ensures var r := LinkType(l, structs, e);
      Extends(l.isReferenceTo, r.isReferenceTo, e.0) && Extends(l.tuple, r.tuple, e.0) &&
      Extends(l.slice, r.slice, e.0) && Extends(l.isStructType, r.isStructType, e.0)
  {
    match e.1
    case Reference(to, _) => InternFactsGrow(Interned(l.table, l.isReferenceTo), e.0, [to]);
    case Tuple(elements) => InternFactsGrow(Interned(l.table, l.tuple), e.0, elements);
    case Slice(element) => InternFactsGrow(Interned(l.table, l.slice), e.0, [element]);
    case _ =>
  }

  /** `after` is `before` with facts appended whose first component is one
      of the ids in `sources`. */
  predicate ExtendsFrom<B(==)>(before: seq<(TypeId, B)>, after: seq<(TypeId, B)>, sources: set<TypeId>) {
    |before| <= |after| && after[..|before|] == before &&
    forall j :: |before| <= j < |after| ==> after[j].0 in sources
  }

  /** `after` is `before` with facts appended that all start with `id`. */
  predicate Extends<B(==)>(before: seq<(TypeId, B)>, after: seq<(TypeId, B)>, id: TypeId) {
    ExtendsFrom(before, after, {id})
  }

  lemma ExtendsFromTrans<B>(a: seq<(TypeId, B)>, b: seq<(TypeId, B)>, c: seq<(TypeId, B)>, s: set<TypeId>, id: TypeId)
    requires ExtendsFrom(a, b, s) && Extends(b, c, id)
    ensures ExtendsFrom(a, c, s + {id})
  {
    assert c[..|a|] == c[..|b|][..|a|];
  }

  /** `link_types` links only the entries it was given: the table stays
      valid, types are only appended, and every new fact starts with the id
      of one of the entries. Types appended while linking are not linked. */
  lemma {:induction false} LinkAllSources(l: Links, structs: seq<(StructId, StructData)>, entries: seq<(TypeId, Type)>)
    requires ValidTable(l.table)
    ensures var r := LinkAll(l, structs, entries);
      var ids := set e | e in entries :: e.0;
      ValidTable(r.table) &&
      |l.table.types| <= |r.table.types| && r.table.types[..|l.table.types|] == l.table.types &&
      ExtendsFrom(l.isReferenceTo, r.isReferenceTo, ids) && ExtendsFrom(l.tuple, r.tuple, ids) &&
      ExtendsFrom(l.slice, r.slice, ids) && ExtendsFrom(l.isStructType, r.isStructType, ids)
  {
    var ids := set e | e in entries :: e.0;
    if entries == [] {
    } else {
      var init := entries[..|entries| - 1];
      var e := entries[|entries| - 1];
      var p := LinkAll(l, structs, init);
      var r := LinkAll(l, structs, entries);
      var initIds := set x | x in init :: x.0;
      LinkAllSources(l, structs, init);
      LinkTypeTable(p, structs, e);
      LinkTypeFacts(p, structs, e);
      assert entries == init + [e];
      assert initIds + {e.0} == ids;
      ExtendsFromTrans(l.isReferenceTo, p.isReferenceTo, r.isReferenceTo, initIds, e.0);
      ExtendsFromTrans(l.tuple, p.tuple, r.tuple, initIds, e.0);
      ExtendsFromTrans(l.slice, p.slice, r.slice, initIds, e.0);
      ExtendsFromTrans(l.isStructType, p.isStructType, r.isStructType, initIds, e.0);
      assert r.table.types[..|l.table.types|] == r.table.types[..|p.table.types|][..|l.table.types|];
    }
  }

  /** `after` is `before` with facts appended whose first component is below `n`. */
  predicate ExtendsBelow<B(==)>(before: seq<(TypeId, B)>, after: seq<(TypeId, B)>, n: nat) {
    |before| <= |after| && after[..|before|] == before &&
    forall j :: |before| <= j < |after| ==> after[j].0 < n
  }

  lemma ExtendsFromBelow<B>(a: seq<(TypeId, B)>, b: seq<(TypeId, B)>, s: set<TypeId>, n: nat)
    requires ExtendsFrom(a, b, s) && forall x :: x in s ==> x < n
    ensures ExtendsBelow(a, b, n)
  {
  }

  /** Linking a valid table's own types: every new fact of every relation
      starts with the id of a type listed before linking began. */
  lemma LinkTypesSnapshot(l: Links, structs: seq<(StructId, StructData)>)
    requires ValidTable(l.table)
    ensures var r := LinkAll(l, structs, l.table.types);
      var n := |l.table.types|;
      ExtendsBelow(l.isReferenceTo, r.isReferenceTo, n) && ExtendsBelow(l.tuple, r.tuple, n) &&
      ExtendsBelow(l.slice, r.slice, n) && ExtendsBelow(l.isStructType, r.isStructType, n)
  {
    var r := LinkAll(l, structs, l.table.types);
    var ids := set e | e in l.table.types :: e.0;
    var n := |l.table.types|;
    LinkAllSources(l, structs, l.table.types);
    forall id | id in ids
      ensures id < n
    {
      var e :| e in l.table.types && e.0 == id;
      var i :| 0 <= i < |l.table.types| && l.table.types[i] == e;
    }
    ExtendsFromBelow(l.isReferenceTo, r.isReferenceTo, ids, n);
    ExtendsFromBelow(l.tuple, r.tuple, ids, n);
    ExtendsFromBelow(l.slice, r.slice, ids, n);
    ExtendsFromBelow(l.isStructType, r.isStructType, ids, n);
  }

  /** The Datalog relations of a database: `Relation::from` sorts and
      removes duplicates, so each relation is a set. */
  datatype RawDatabase = RawDatabase(
    functions: set<FunctionId>,
    structs: set<StructId>,
    functionCalls: set<(FunctionId, FunctionId)>,
    functionsInModules: set<(FunctionId, ModId)>,
    modulesInCrates: set<(ModId, CrateId)>,
    isUnsafe: set<FunctionId>,
    isType: set<TypeId>,
    isNative: set<TypeId>,
    isReferenceTo: set<(TypeId, TypeId)>,
    tuple: set<(TypeId, TypeId)>,
    slice: set<(TypeId, TypeId)>,
    isSharedReference: set<TypeId>,
    isMutableReference: set<TypeId>,
    argumentTypes: set<(FunctionId, TypeId)>,
    isStructType: set<(TypeId, StructId)>,
    fieldTypes: set<(StructId, TypeId)>,
    returnType: set<(FunctionId, TypeId)>)

  /** `get_crate_of_function` aborts for a function in no module. */
  datatype LookupError = FunctionWithoutModule(f: FunctionId)

  /** The linked database. */
  class Database {
    var crates: seq<(CrateId, CrateIdentifier)>
    var modules: seq<(ModId, Mod)>
    var functions: seq<(FunctionId, Function)>
    var structs: seq<(StructId, StructData)>
    var types: seq<(TypeId, Type)>
    /** `(m, c)`: module m is contained in crate c. */
    var modulesInCrates: seq<(ModId, CrateId)>
    /** `(m1, m2)`: module m2 is the direct parent of module m1. */
    var modulesInModules: seq<(ModId, ModId)>
    var functionsInModules: seq<(FunctionId, ModId)>
    var functionCalls: seq<(FunctionId, FunctionId)>
    var isReferenceTo: seq<(TypeId, TypeId)>
    var tuple: seq<(TypeId, TypeId)>
    var slice: seq<(TypeId, TypeId)>
    var argumentTypes: seq<(FunctionId, TypeId)>
    var isStructType: seq<(TypeId, StructId)>
    var fieldTypes: seq<(StructId, TypeId)>
    var returnType: seq<(FunctionId, TypeId)>
    /** Reverse lookup of functions by crate and definition path. */
    var functionFinder: map<(CrateIdentifier, string), FunctionId>
    var typeFinder: map<Type, TypeId>

    /** `Database::new`: every table and both finders empty. */
    constructor ()
      ensures crates == [] && modules == [] && functions == [] && structs == [] && types == []
      ensures modulesInCrates == [] && modulesInModules == [] && functionsInModules == [] && functionCalls == []
      ensures isReferenceTo == [] && tuple == [] && slice == [] && argumentTypes == []
      ensures isStructType == [] && fieldTypes == [] && returnType == []
      ensures functionFinder == map[] && typeFinder == map[]
    {
      crates := [];
      modules := [];
      functions := [];
      structs := [];
      types := [];
      modulesInCrates := [];
      modulesInModules := [];
      functionsInModules := [];
      functionCalls := [];
      isReferenceTo := [];
      tuple := [];
      slice := [];
      argumentTypes := [];
      isStructType := [];
      fieldTypes := [];
      returnType := [];
      functionFinder := map[];
      typeFinder := map[];
    }

    /** The type list and its finder. */
    function Table(): TypeTable
      reads this
    {
      TypeTable(types, typeFinder)
    }

    /** The relations `link_types` writes, with the type table. */
    function CurrentLinks(): Links
      reads this
    {
      Links(Table(), isReferenceTo, tuple, slice, isStructType)
    }

    /** `get_crate`: the id of the first crate with an equal identifier. */
    function GetCrate(ci: CrateIdentifier): (r: Option<CrateId>)
      reads this
      ensures r.None? <==> forall j :: 0 <= j < |crates| ==> crates[j].1 != ci
      ensures r.Some? ==> exists k :: FirstWithSecondAt(crates, ci, k) && crates[k].0 == r.value
    {
      KeyOf(crates, ci)
    }

    /** `get_module_in_crate`: the first module recorded in the crate; the
        module name is not consulted. */
    function GetModuleInCrate(c: CrateId, modName: string): (r: Option<ModId>)
      reads this
      ensures r.None? <==> forall j :: 0 <= j < |modulesInCrates| ==> modulesInCrates[j].1 != c
      ensures r.Some? ==> exists k :: FirstWithSecondAt(modulesInCrates, c, k) && modulesInCrates[k].0 == r.value
    {
      KeyOf(modulesInCrates, c)
    }

    /** `get_crate_of_function`: the crate of the function's first recorded
        module; aborts when the function is in no module. */
    function GetCrateOfFunction(f: FunctionId): (r: Result<Option<CrateId>, LookupError>)
      reads this
      ensures r.Err? <==> forall j :: 0 <= j < |functionsInModules| ==> functionsInModules[j].0 != f
      ensures r.Ok? ==> exists k :: FirstWithFirstAt(functionsInModules, f, k) &&
                                    r.value == ValueOf(modulesInCrates, functionsInModules[k].1)
    {
      var m := ValueOf(functionsInModules, f);
      if m.None? then Err(FunctionWithoutModule(f)) else Ok(ValueOf(modulesInCrates, m.value))
    }

    /** The function at position `k` lies in crate `c` and has path `def`. */
    predicate FunctionMatches(c: CrateId, def: string, k: nat)
      reads this
      requires k < |functions|
    {
      GetCrateOfFunction(functions[k].0) == Ok(Some(c)) && functions[k].1.defPath == def
    }

    /** The search of `get_function_in_crate` from position `i` on. */
    function FunctionInCrateFrom(c: CrateId, def: string, i: nat): Result<Option<FunctionId>, LookupError>
      reads this
      requires i <= |functions|
      decreases |functions| - i
    {
      if i == |functions| then Ok(None)
      else
        var crate := GetCrateOfFunction(functions[i].0);
        if crate.Err? then Err(crate.error)
        else if crate.value == Some(c) && functions[i].1.defPath == def then Ok(Some(functions[i].0))
        else FunctionInCrateFrom(c, def, i + 1)
    }

    /** `get_function_in_crate`: the first function of crate `c` with path
        `def`; the crate lookup of every function tried aborts as
        `get_crate_of_function` does. */
    function GetFunctionInCrate(c: CrateId, def: string): (r: Result<Option<FunctionId>, LookupError>)
      reads this
      ensures r.Ok? && r.value.Some? ==>
        exists k :: 0 <= k < |functions| && functions[k].0 == r.value.value && FunctionMatches(c, def, k)
      ensures r == Ok(None) ==>
        forall k :: 0 <= k < |functions| ==> GetCrateOfFunction(functions[k].0).Ok? && !FunctionMatches(c, def, k)
      ensures r.Err? ==> exists k :: 0 <= k < |functions| && GetCrateOfFunction(functions[k].0).Err?
    {
      FunctionInCrateSpec(this, c, def, 0);
      FunctionInCrateFrom(c, def, 0)
    }

    /** `get_module_in_module`: the first recorded child of module `m`; the
        module name is not consulted. */
    function GetModuleInModule(m: ModId, modName: string): (r: Option<ModId>)
      reads this
      ensures r.None? <==> forall j :: 0 <= j < |modulesInModules| ==> modulesInModules[j].1 != m
      ensures r.Some? ==> exists k :: FirstWithSecondAt(modulesInModules, m, k) && modulesInModules[k].0 == r.value
    {
      KeyOf(modulesInModules, m)
    }

    /** `get_type`: the id the finder holds for the type. */
    function GetType(ty: Type): (r: Option<TypeId>)
      reads this
      ensures r.Some? <==> ty in typeFinder
      ensures ValidTable(Table()) && r.Some? ==> r.value < |types| && types[r.value].1 == ty
    {
      if ty in typeFinder then Some(typeFinder[ty]) else None
    }

    /** `search_module`: the id of the first module with the given name. */
    function SearchModule(name: string): (r: Option<ModId>)
      reads this
      ensures r.None? <==> forall j :: 0 <= j < |modules| ==> modules[j].1.name != name
      ensures r.Some? ==> exists k :: 0 <= k < |modules| && modules[k].0 == r.value && modules[k].1.name == name
    {
      var k := FirstModuleNamed(modules, name);
      if k.None? then None else Some(modules[k.value].0)
    }

    /** `get_module`: the module stored at position `m`; out of range is an
        index panic. */
    function GetModule(m: ModId): (r: Mod)
      reads this
      requires m < |modules|
      ensures (m, r) in modules || modules[m].0 != m
    {
      modules[m].1
    }

    /** `add_type_or_get` on this database's type list and finder. */
    method AddTypeOrGet(ty: Type) returns (id: TypeId)
      modifies this`types, this`typeFinder
      ensures (Table(), id) == InternType(old(Table()), ty)
    {
      var typeId := if ty in typeFinder then Some(typeFinder[ty]) else None;
      if typeId.None? {
        id := |types|;
        types := types + [(id, ty)];
        typeFinder := typeFinder[ty := id];
      } else {
        id := typeId.value;
      }
    }

    /** Interns each of `tys` and appends `(owner, id)` to the tuple relation. */
    method LinkTupleElements(owner: TypeId, tys: seq<Type>)
      modifies this`types, this`typeFinder, this`tuple
      ensures Interned(Table(), tuple) == InternFacts(Interned(old(Table()), old(tuple)), owner, tys)
    {
      var j := 0;
      while j < |tys|
        invariant j <= |tys|
        invariant Interned(Table(), tuple) == InternFacts(Interned(old(Table()), old(tuple)), owner, tys[..j])
      {
        var added := AddTypeOrGet(tys[j]);
        tuple := tuple + [(owner, added)];
        assert tys[..j + 1][..j] == tys[..j];
        j := j + 1;
      }
      assert tys[..j] == tys;
    }

    /** Links one type, as `link_types` does for each entry. */
    method LinkOne(e: (TypeId, Type))
      modifies this`types, this`typeFinder, this`isReferenceTo, this`tuple, this`slice, this`isStructType
      ensures CurrentLinks() == LinkType(old(CurrentLinks()), structs, e)
    {
      match e.1 {
        case Reference(to, _) =>
          InternFactsOne(Interned(Table(), isReferenceTo), e.0, to);
          var added := AddTypeOrGet(to);
          isReferenceTo := isReferenceTo + [(e.0, added)];
        case Tuple(elements) =>
          LinkTupleElements(e.0, elements);
        case Slice(element) =>
          InternFactsOne(Interned(Table(), slice), e.0, element);
          var added := AddTypeOrGet(element);
          slice := slice + [(e.0, added)];
        case Struct(p) =>
          var k := StructWithPath(structs, p);
          if k.Some? {
            isStructType := isStructType + [(e.0, structs[k.value].0)];
          }
        case _ =>
      }
    }

    /** `link_types`: links every type listed when it starts, in order. */
    method LinkTypes()
      modifies this`types, this`typeFinder, this`isReferenceTo, this`tuple, this`slice, this`isStructType
      ensures CurrentLinks() == LinkAll(old(CurrentLinks()), structs, old(types))
      ensures unchanged(this`crates, this`modules, this`functions, this`structs, this`functionFinder, this`modulesInCrates,
                        this`modulesInModules, this`functionsInModules, this`functionCalls, this`argumentTypes, this`fieldTypes, this`returnType)
    {
      var snapshot := types;
      var i := 0;
      while i < |snapshot|
        invariant i <= |snapshot|
        invariant CurrentLinks() == LinkAll(old(CurrentLinks()), structs, snapshot[..i])
      {
        LinkOne(snapshot[i]);
        assert snapshot[..i + 1][..i] == snapshot[..i];
        i := i + 1;
      }
      assert snapshot[..i] == snapshot;
    }

    /** `get_raw_database`: every relation as a set, with the type flags
        derived from the type list and the unsafe flag from the functions. */
    function GetRawDatabase(): RawDatabase
      reads this
    {
      RawDatabase(
        set e | e in functions :: e.0,
        set e | e in structs :: e.0,
        set e | e in functionCalls,
        set e | e in functionsInModules,
        set e | e in modulesInCrates,
        set e | e in functions && e.1.isUnsafe :: e.0,
        set e | e in types :: e.0,
        set e | e in types && e.1.Native? :: e.0,
        set e | e in isReferenceTo,
        set e | e in tuple,
        set e | e in slice,
        set e | e in types && e.1.Reference? && !e.1.isMutable :: e.0,
        set e | e in types && e.1.Reference? && e.1.isMutable :: e.0,
        set e | e in argumentTypes,
        set e | e in isStructType,
        set e | e in fieldTypes,
        set e | e in returnType)
    }
  }

  /** The search from position `i` finds a matching function at or after
      `i` with every function before it tried, finds none when every
      function from `i` on has a crate and does not match, and aborts only
      on a function in no module. */
  lemma {:induction false} FunctionInCrateSpec(db: Database, c: CrateId, def: string, i: nat)
    requires i <= |db.functions|
    ensures var r := db.FunctionInCrateFrom(c, def, i);
      r.Ok? && r.value.Some? ==>
        exists k :: i <= k < |db.functions| && db.functions[k].0 == r.value.value && db.FunctionMatches(c, def, k)
    ensures db.FunctionInCrateFrom(c, def, i) == Ok(None) ==>
      forall k :: i <= k < |db.functions| ==>
        db.GetCrateOfFunction(db.functions[k].0).Ok? && !db.FunctionMatches(c, def, k)
    ensures db.FunctionInCrateFrom(c, def, i).Err? ==>
      exists k :: i <= k < |db.functions| && db.GetCrateOfFunction(db.functions[k].0).Err?
    decreases |db.functions| - i
  {
    if i < |db.functions| {
      FunctionInCrateSpec(db, c, def, i + 1);
    }
  }

  /** With types numbered by position, `is_mutable_reference` and
      `is_shared_reference` split the reference types by their flag. */
  lemma RawReferencesSplit(db: Database)
    requires ValidTable(db.Table())
    ensures var r := db.GetRawDatabase();
      r.isMutableReference !! r.isSharedReference &&
      (forall i :: 0 <= i < |db.types| ==>
        (i in r.isMutableReference <==> db.types[i].1.Reference? && db.types[i].1.isMutable) &&
        (i in r.isSharedReference <==> db.types[i].1.Reference? && !db.types[i].1.isMutable)) &&
      r.isMutableReference + r.isSharedReference <= r.isType
  {
    var r := db.GetRawDatabase();
    forall t | t in r.isMutableReference
      ensures t !in r.isSharedReference && t in r.isType
    {
      var e :| e in db.types && e.1.Reference? && e.1.isMutable && e.0 == t;
      var i :| 0 <= i < |db.types| && db.types[i] == e;
    }
    forall t | t in r.isSharedReference
      ensures t in r.isType
    {
      var e :| e in db.types && e.1.Reference? && !e.1.isMutable && e.0 == t;
    }
    forall i | 0 <= i < |db.types|
      ensures i in r.isMutableReference <==> db.types[i].1.Reference? && db.types[i].1.isMutable
      ensures i in r.isSharedReference <==> db.types[i].1.Reference? && !db.types[i].1.isMutable
    {
      assert db.types[i] in db.types;
      if i in r.isMutableReference {
        var e :| e in db.types && e.1.Reference? && e.1.isMutable && e.0 == i;
        var j :| 0 <= j < |db.types| && db.types[j] == e;
      }
      if i in r.isSharedReference {
        var e :| e in db.types && e.1.Reference? && !e.1.isMutable && e.0 == i;
        var j :| 0 <= j < |db.types| && db.types[j] == e;
      }
    }
  }

  /** With functions numbered by position, `is_unsafe` holds exactly the
      unsafe functions, all of them in `functions`. */
  lemma RawUnsafeFunctions(db: Database)
    requires forall i :: 0 <= i < |db.functions| ==> db.functions[i].0 == i
    ensures var r := db.GetRawDatabase();
      r.isUnsafe <= r.functions &&
      forall i :: 0 <= i < |db.functions| ==> (i in r.isUnsafe <==> db.functions[i].1.isUnsafe)
  {
    var r := db.GetRawDatabase();
    forall i | 0 <= i < |db.functions|
      ensures i in r.isUnsafe <==> db.functions[i].1.isUnsafe
    {
      assert db.functions[i] in db.functions;
      if i in r.isUnsafe {
        var e :| e in db.functions && e.1.isUnsafe && e.0 == i;
        var j :| 0 <= j < |db.functions| && db.functions[j] == e;
      }
    }
  }
}
