/** Interning tables and relations: the two containers every fact database
    is built from. */
module DataStructures {
  import opened Wrappers

  /** True when no value occurs twice in `s`. */
  predicate NoDuplicates<V(==)>(s: seq<V>) {
    forall i, j :: 0 <= i < j < |s| ==> s[i] != s[j]
  }

  /** The position of the first occurrence of `v` in `s`. */
  function IndexOf<V(==)>(s: seq<V>, v: V): (k: nat)
    requires v in s
    ensures k < |s| && s[k] == v
    ensures forall j :: 0 <= j < k ==> s[j] != v
  {
    if s[0] == v then 0 else 1 + IndexOf(s[1..], v)
  }

  /** `InterningTable::lookup` on a table's contents. */
  function Lookup<V(==)>(contents: seq<V>, value: V): (r: Option<nat>)
    ensures r.Some? ==> r.value < |contents| && contents[r.value] == value
    ensures r.None? <==> value !in contents
  {
    if value in contents then Some(IndexOf(contents, value)) else None
  }

  /** Without duplicates, the first occurrence of a value is its only one. */
  lemma IndexOfDistinct<V>(s: seq<V>, k: nat)
    requires NoDuplicates(s) && k < |s|
    ensures IndexOf(s, s[k]) == k
  {
  }

  /** The inverse map that building a table from a vector produces: every
      value is mapped to its position, and a later position overwrites an
      earlier one. */
  function InverseIndex<V(==)>(s: seq<V>): map<V, nat>
  {
    if s == [] then map[] else InverseIndex(s[..|s| - 1])[s[|s| - 1] := |s| - 1]
  }

  lemma {:induction false} InverseIndexDomain<V>(s: seq<V>)
    ensures forall v :: v in InverseIndex(s) <==> v in s
  {
    if s != [] {
      InverseIndexDomain(s[..|s| - 1]);
      assert s == s[..|s| - 1] + [s[|s| - 1]];
    }
  }

  /** The inverse map sends a value to the last position holding it. */
  lemma {:induction false} InverseIndexLast<V>(s: seq<V>, v: V)
    requires v in s
    ensures v in InverseIndex(s)
    ensures InverseIndex(s)[v] < |s| && s[InverseIndex(s)[v]] == v
    ensures forall j :: InverseIndex(s)[v] < j < |s| ==> s[j] != v
  {
    var n := |s| - 1;
    if s[n] != v {
      assert v in s[..n] by {
        var i :| 0 <= i < |s| && s[i] == v;
        assert i < n && s[..n][i] == v;
      }
      InverseIndexLast(s[..n], v);
    }
  }

  /** Without duplicates the inverse map sends each value back to its position. */
  lemma InverseIndexOfDistinct<V>(s: seq<V>)
    requires NoDuplicates(s)
    ensures forall i :: 0 <= i < |s| ==> s[i] in InverseIndex(s) && InverseIndex(s)[s[i]] == i
  {
    forall i | 0 <= i < |s|
      ensures s[i] in InverseIndex(s) && InverseIndex(s)[s[i]] == i
    {
      InverseIndexLast(s, s[i]);
    }
  }

  /** The (key, value) pairs of a contents vector, numbered from `from`. */
  function Enumerate<V>(s: seq<V>, from: nat): seq<(nat, V)>
  {
    if s == [] then [] else [(from, s[0])] + Enumerate(s[1..], from + 1)
  }

  lemma {:induction false} EnumerateAt<V>(s: seq<V>, from: nat)
    ensures |Enumerate(s, from)| == |s|
    ensures forall i :: 0 <= i < |s| ==> Enumerate(s, from)[i] == (from + i, s[i])
  {
    if s != [] {
      EnumerateAt(s[1..], from + 1);
    }
  }

  /** The contents after interning `value`: unchanged if present, else extended. */
  function InternValue<V(==)>(contents: seq<V>, value: V): (r: seq<V>)
    ensures value in r && |contents| <= |r| && r[..|contents|] == contents
  {
    if value in contents then contents else contents + [value]
  }

  /** A new value is appended and its key is the old length. */
  lemma InternValueNew<V>(contents: seq<V>, value: V)
    requires value !in contents
    ensures InternValue(contents, value) == contents + [value]
    ensures IndexOf(contents + [value], value) == |contents|
  {
    var k := IndexOf(contents + [value], value);
    if k < |contents| {
      assert contents[k] == value;
    }
  }

  /** A value already present leaves the contents unchanged and keeps its key. */
  lemma InternValuePresent<V>(contents: seq<V>, value: V, key: nat)
    requires key < |contents| && contents[key] == value
    requires forall j :: 0 <= j < key ==> contents[j] != value
    ensures InternValue(contents, value) == contents
    ensures IndexOf(contents, value) == key
  {
    var k := IndexOf(contents, value);
    assert !(k < key) && !(key < k);
  }

  /** The contents after interning every element of `values` in order. */
  function InternAll<V(==)>(contents: seq<V>, values: seq<V>): seq<V>
    decreases |values|
  {
    if values == [] then contents
    else InternValue(InternAll(contents, values[..|values| - 1]), values[|values| - 1])
  }

  /** Interning keeps every existing key. */
  lemma {:induction false} InternAllPrefix<V>(contents: seq<V>, values: seq<V>)
    ensures |contents| <= |InternAll(contents, values)|
    ensures InternAll(contents, values)[..|contents|] == contents
    decreases |values|
  {
    if values != [] {
      var init := values[..|values| - 1];
      InternAllPrefix(contents, init);
      var next := InternAll(contents, init);
      var r := InternValue(next, values[|values| - 1]);
      assert r[..|contents|] == r[..|next|][..|contents|];
    }
  }

  /** Interning stores exactly the old values and the interned ones. */
  lemma {:induction false} InternAllMembers<V>(contents: seq<V>, values: seq<V>)
    ensures forall v :: v in InternAll(contents, values) <==> v in contents || v in values
    decreases |values|
  {
    if values != [] {
      var init := values[..|values| - 1];
      InternAllMembers(contents, init);
      assert values == init + [values[|values| - 1]];
    }
  }

  /** Interning keeps every existing key and adds exactly the new values. */
  lemma InternAllExtends<V>(contents: seq<V>, values: seq<V>)
    ensures |contents| <= |InternAll(contents, values)|
    ensures InternAll(contents, values)[..|contents|] == contents
    ensures forall v :: v in InternAll(contents, values) <==> v in contents || v in values
  {
    InternAllPrefix(contents, values);
    InternAllMembers(contents, values);
  }

  lemma InternValueNoDuplicates<V>(contents: seq<V>, value: V)
    requires NoDuplicates(contents)
    ensures NoDuplicates(InternValue(contents, value))
  {
  }

  /** Interning never stores a value twice. */
  lemma {:induction false} InternAllNoDuplicates<V>(contents: seq<V>, values: seq<V>)
    requires NoDuplicates(contents)
    ensures NoDuplicates(InternAll(contents, values))
    decreases |values|
  {
    if values != [] {
      InternAllNoDuplicates(contents, values[..|values| - 1]);
      InternValueNoDuplicates(InternAll(contents, values[..|values| - 1]), values[|values| - 1]);
    }
  }

  /** A relation: an append-only list of facts. */
  class Relation<T> {
    var facts: seq<T>

    constructor Default()
      ensures facts == []
    {
      facts := [];
    }

    /** Wraps a vector of facts as it is. */
    constructor FromVec(v: seq<T>)
      ensures facts == v
    {
      facts := v;
    }

    /** Appends one fact at the end; earlier facts keep their order. */
    method Insert(fact: T)
      modifies this
      ensures facts == old(facts) + [fact]
      ensures |facts| == |old(facts)| + 1
    {
      facts := facts + [fact];
    }

    function Len(): nat
      reads this
    {
      |facts|
    }

    /** The facts, in insertion order. */
    function IntoVec(): seq<T>
      reads this
    {
      facts
    }
  }

  /** Converting a vector into a relation and back gives the same vector. */
  method RelationRoundTrip<T>(v: seq<T>) returns (w: seq<T>)
    ensures w == v
  {
    var r := new Relation<T>.FromVec(v);
    w := r.IntoVec();
  }

  /** A table of interned values: the key of a value is its position in
      `contents`, and `invContents` maps each value back to its key. */
  class InterningTable<V(==)> {
    var contents: seq<V>
    var invContents: map<V, nat>

    /** The key-value bijection: `contents` holds each value once, and the
        inverse map holds exactly the values of `contents`, each with its
        position. */
    ghost predicate Valid()
      reads this
    {
      (forall i :: 0 <= i < |contents| ==> contents[i] in invContents && invContents[contents[i]] == i) &&
      (forall v :: v in invContents ==> invContents[v] < |contents| && contents[invContents[v]] == v)
    }

    lemma ValidHasNoDuplicates()
      requires Valid()
      ensures NoDuplicates(contents)
    {
    }

    constructor Default()
      ensures Valid() && contents == []
    {
      contents := [];
      invContents := map[];
    }

    /** Builds a table from a vector; the later position of a duplicated
        value wins in the inverse map, so only a duplicate-free vector
        gives a valid table. */
    constructor FromVec(v: seq<V>)
      ensures contents == v && invContents == InverseIndex(v)
      ensures NoDuplicates(v) ==> Valid()
    {
      contents := v;
      invContents := InverseIndex(v);
      new;
      if NoDuplicates(v) {
        InverseIndexOfDistinct(v);
        InverseIndexDomain(v);
        forall x | x in invContents
          ensures invContents[x] < |contents| && contents[invContents[x]] == x
        {
          InverseIndexLast(v, x);
        }
      }
    }

    /** Returns the key of `value`, appending it first when it is new. */
    method Intern(value: V) returns (key: nat)
      requires Valid()
      modifies this
      ensures Valid()
      ensures key < |contents| && contents[key] == value
      ensures contents == InternValue(old(contents), value)
      ensures value in old(contents) ==> key == old(invContents)[value] && invContents == old(invContents)
      ensures value !in old(contents) ==> key == |old(contents)| && invContents == old(invContents)[value := key]
    {
      if value in invContents {
        key := invContents[value];
      } else {
        key := |contents|;
        invContents := invContents[value := key];
        contents := contents + [value];
      }
    }

    /** A key is the position of the first, and only, occurrence of its value. */
    lemma KeyIsPosition(key: nat)
      requires Valid() && key < |contents|
      ensures IndexOf(contents, contents[key]) == key
    {
      var k := IndexOf(contents, contents[key]);
      assert invContents[contents[k]] == k;
    }

    /** The key of `value`, if it was interned. Also models `lookup_str`,
        which is the same lookup on a table of strings. */
    function Lookup(value: V): (r: Option<nat>)
      reads this
      requires Valid()
      ensures r.Some? <==> value in contents
      ensures r.Some? ==> r.value < |contents| && contents[r.value] == value
    {
      if value in invContents then Some(invContents[value]) else None
    }

    /** The value with key `key` (the `Index` operator); out-of-range keys abort. */
    function At(key: nat): V
      reads this
      requires key < |contents|
    {
      contents[key]
    }

    function Len(): nat
      reads this
    {
      |contents|
    }

    /** The (key, value) pairs in key order, as `into_iter` and the
        conversion into a vector of pairs yield them. */
    function IntoPairs(): (r: seq<(nat, V)>)
      reads this
      ensures |r| == |contents|
      ensures forall i :: 0 <= i < |r| ==> r[i] == (i, contents[i])
    {
      EnumerateAt(contents, 0);
      Enumerate(contents, 0)
    }
  }
}
