/** Helpers shared by the analysis queries: grouping of non-adjacent equal
    keys, restriction of a relation to the selected builds, and the
    resolvers that turn interned ids into printable tuples. */
module QueryUtils {
  import opened Wrappers
  import opened Text

  // ---------------------------------------------------------------------
  // safe_group_by: a stable sort by key followed by grouping of runs.

  /** The elements of `s` whose key is `k`, in input order. */
  function KeyFilter<T>(s: seq<T>, key: T -> int, k: int): seq<T>
  {
    if s == [] then [] else (if key(s[0]) == k then [s[0]] else []) + KeyFilter(s[1..], key, k)
  }

  predicate SortedByKey<T>(s: seq<T>, key: T -> int)
  {
    forall i, j :: 0 <= i < j < |s| ==> key(s[i]) <= key(s[j])
  }

  /** Inserts `x` after every element whose key is not larger. */
  function InsertByKey<T>(x: T, s: seq<T>, key: T -> int): (r: seq<T>)
    ensures |r| == |s| + 1
  {
    if s == [] then [x] else if key(x) < key(s[0]) then [x] + s else [s[0]] + InsertByKey(x, s[1..], key)
  }

  /** `sorted_by_key`: a stable sort, inserting the elements left to right. */
  function SortByKey<T>(s: seq<T>, key: T -> int): (r: seq<T>)
    ensures |r| == |s|
  {
    if s == [] then [] else InsertByKey(s[|s| - 1], SortByKey(s[..|s| - 1], key), key)
  }

  /** `group_by` on a sorted sequence: runs of equal keys, with their key. */
  function GroupRuns<T>(s: seq<T>, key: T -> int): seq<(int, seq<T>)>
  {
    if s == [] then []
    else
      var g := GroupRuns(s[1..], key);
      if g != [] && g[0].0 == key(s[0]) then [(g[0].0, [s[0]] + g[0].1)] + g[1..]
      else [(key(s[0]), [s[0]])] + g
  }

  /** `safe_group_by`: groups equal keys even when they are not adjacent. */
  function SafeGroupBy<T>(s: seq<T>, key: T -> int): seq<(int, seq<T>)>
  {
    GroupRuns(SortByKey(s, key), key)
  }

  /** The groups' elements, one group after another. */
  function Flatten<T>(groups: seq<(int, seq<T>)>): seq<T>
  {
    if groups == [] then [] else groups[0].1 + Flatten(groups[1..])
  }

  lemma {:induction false} KeyFilterAppend<T>(a: seq<T>, b: seq<T>, key: T -> int, k: int)
    ensures KeyFilter(a + b, key, k) == KeyFilter(a, key, k) + KeyFilter(b, key, k)
  {
    if a == [] {
      assert a + b == b;
    } else {
      assert (a + b)[0] == a[0] && (a + b)[1..] == a[1..] + b;
      KeyFilterAppend(a[1..], b, key, k);
      var h := if key(a[0]) == k then [a[0]] else [];
      var fa, fb := KeyFilter(a[1..], key, k), KeyFilter(b, key, k);
      assert KeyFilter(a + b, key, k) == h + (fa + fb);
      assert h + (fa + fb) == (h + fa) + fb;
    }
  }

  lemma {:induction false} KeyFilterAbove<T>(s: seq<T>, key: T -> int, k: int)
    requires forall j :: 0 <= j < |s| ==> key(s[j]) > k
    ensures KeyFilter(s, key, k) == []
  {
    if s != [] {
      KeyFilterAbove(s[1..], key, k);
    }
  }

  lemma {:induction false} InsertByKeyKeeps<T>(x: T, s: seq<T>, key: T -> int)
    ensures multiset(InsertByKey(x, s, key)) == multiset(s) + multiset{x}
  {
    if s != [] && key(x) >= key(s[0]) {
      InsertByKeyKeeps(x, s[1..], key);
      var t := InsertByKey(x, s[1..], key);
      assert multiset([s[0]] + t) == multiset{s[0]} + multiset(t);
      assert s == [s[0]] + s[1..];
      assert multiset(s) == multiset{s[0]} + multiset(s[1..]);
    }
  }

  lemma {:induction false} InsertByKeySorted<T>(x: T, s: seq<T>, key: T -> int)
    requires SortedByKey(s, key)
    ensures SortedByKey(InsertByKey(x, s, key), key)
    ensures InsertByKey(x, s, key)[0] == x || (s != [] && InsertByKey(x, s, key)[0] == s[0])
  {
    if s != [] && key(x) >= key(s[0]) {
      var t := InsertByKey(x, s[1..], key);
      assert SortedByKey(s[1..], key) by {
        forall i, j | 0 <= i < j < |s[1..]|
          ensures key(s[1..][i]) <= key(s[1..][j])
        {
          assert s[1..][i] == s[i + 1] && s[1..][j] == s[j + 1];
        }
      }
      InsertByKeySorted(x, s[1..], key);
      assert key(s[0]) <= key(t[0]) by {
        if t[0] != x {
          assert t[0] == s[1];
        }
      }
      var r := [s[0]] + t;
      forall i, j | 0 <= i < j < |r|
        ensures key(r[i]) <= key(r[j])
      {
        assert r[j] == t[j - 1];
        if i > 0 {
          assert r[i] == t[i - 1];
        } else if j > 1 {
          assert key(t[0]) <= key(t[j - 1]);
        }
      }
    }
  }

  /** Insertion keeps the earlier elements of `x`'s key ahead of `x`. */
  lemma {:induction false} InsertByKeyStable<T>(x: T, s: seq<T>, key: T -> int, k: int)
    requires SortedByKey(s, key)
    ensures KeyFilter(InsertByKey(x, s, key), key, k) == KeyFilter(s, key, k) + (if key(x) == k then [x] else [])
  {
    if s == [] {
    } else if key(x) < key(s[0]) {
      if key(x) == k {
        KeyFilterAbove(s, key, k);
      }
    } else {
      InsertByKeyStable(x, s[1..], key, k);
      assert InsertByKey(x, s, key)[1..] == InsertByKey(x, s[1..], key);
    }
  }

  /** The sort orders by key and is a permutation. */
  lemma {:induction false} SortByKeyCorrect<T>(s: seq<T>, key: T -> int)
    ensures SortedByKey(SortByKey(s, key), key)
    ensures multiset(SortByKey(s, key)) == multiset(s)
  {
    SortByKeySorted(s, key);
    SortByKeyPermutes(s, key);
  }

  lemma {:induction false} SortByKeySorted<T>(s: seq<T>, key: T -> int)
    ensures SortedByKey(SortByKey(s, key), key)
  {
    if s != [] {
      SortByKeySorted(s[..|s| - 1], key);
      InsertByKeySorted(s[|s| - 1], SortByKey(s[..|s| - 1], key), key);
    }
  }

  lemma {:induction false} SortByKeyPermutes<T>(s: seq<T>, key: T -> int)
    ensures multiset(SortByKey(s, key)) == multiset(s)
  {
    if s != [] {
      var init := s[..|s| - 1];
      SortByKeyPermutes(init, key);
      InsertByKeyKeeps(s[|s| - 1], SortByKey(init, key), key);
      assert s == init + [s[|s| - 1]];
    }
  }

  /** The sort is stable: each key's elements keep their input order. */
  lemma {:induction false} SortByKeyStable<T>(s: seq<T>, key: T -> int, k: int)
    ensures KeyFilter(SortByKey(s, key), key, k) == KeyFilter(s, key, k)
  {
    if s != [] {
      var init := s[..|s| - 1];
      var last := s[|s| - 1];
      SortByKeyStable(init, key, k);
      SortByKeySorted(init, key);
      InsertByKeyStable(last, SortByKey(init, key), key, k);
      assert s == init + [last];
      KeyFilterAppend(init, [last], key, k);
      assert KeyFilter([last], key, k) == (if key(last) == k then [last] else []) by {
        assert [last][1..] == [];
      }
    }
  }

  /** Properties of the runs of a sorted sequence: ascending keys, each
      run exactly the elements of its key, and nothing lost or reordered. */
  ghost predicate GroupsOf<T>(s: seq<T>, key: T -> int, g: seq<(int, seq<T>)>)
  {
    (forall i, j :: 0 <= i < j < |g| ==> g[i].0 < g[j].0) &&
    (forall i :: 0 <= i < |g| ==> g[i].1 != [] && g[i].1 == KeyFilter(s, key, g[i].0)) &&
    Flatten(g) == s
  }

  /** The first element joins the first run of the rest. */
  lemma GroupRunsJoin<T>(s: seq<T>, key: T -> int, g: seq<(int, seq<T>)>)
    requires s != [] && GroupsOf(s[1..], key, g) && g != [] && g[0].0 == key(s[0])
    ensures GroupsOf(s, key, [(g[0].0, [s[0]] + g[0].1)] + g[1..])
  {
    var r := [(g[0].0, [s[0]] + g[0].1)] + g[1..];
    JoinKeys(s, key, g);
    JoinFilters(s, key, g);
    JoinFlatten(s, key, g);
  }

  lemma JoinKeys<T>(s: seq<T>, key: T -> int, g: seq<(int, seq<T>)>)
    requires s != [] && GroupsOf(s[1..], key, g) && g != [] && g[0].0 == key(s[0])
    ensures var r := [(g[0].0, [s[0]] + g[0].1)] + g[1..];
      forall i, j :: 0 <= i < j < |r| ==> r[i].0 < r[j].0
  {
    var r := [(g[0].0, [s[0]] + g[0].1)] + g[1..];
    forall i, j | 0 <= i < j < |r|
      ensures r[i].0 < r[j].0
    {
      assert r[i].0 == g[i].0 && r[j].0 == g[j].0;
    }
  }

  lemma JoinFilters<T>(s: seq<T>, key: T -> int, g: seq<(int, seq<T>)>)
    requires s != [] && GroupsOf(s[1..], key, g) && g != [] && g[0].0 == key(s[0])
    ensures var r := [(g[0].0, [s[0]] + g[0].1)] + g[1..];
      forall i :: 0 <= i < |r| ==> r[i].1 != [] && r[i].1 == KeyFilter(s, key, r[i].0)
  {
    var r := [(g[0].0, [s[0]] + g[0].1)] + g[1..];
    forall i | 0 <= i < |r|
      ensures r[i].1 != [] && r[i].1 == KeyFilter(s, key, r[i].0)
    {
      KeyFilterCons(s, key, r[i].0);
      if i > 0 {
        assert r[i] == g[i];
        assert g[0].0 < g[i].0;
      }
    }
  }

  lemma JoinFlatten<T>(s: seq<T>, key: T -> int, g: seq<(int, seq<T>)>)
    requires s != [] && Flatten(g) == s[1..] && g != []
    ensures Flatten([(g[0].0, [s[0]] + g[0].1)] + g[1..]) == s
  {
    var r := [(g[0].0, [s[0]] + g[0].1)] + g[1..];
    assert r[1..] == g[1..];
    assert Flatten(g) == g[0].1 + Flatten(g[1..]);
    assert Flatten(r) == r[0].1 + Flatten(r[1..]);
    assert s == [s[0]] + s[1..];
  }

  /** One unfolding of `KeyFilter`. */
  lemma KeyFilterCons<T>(s: seq<T>, key: T -> int, k: int)
    requires s != []
    ensures KeyFilter(s, key, k) == (if key(s[0]) == k then [s[0]] else []) + KeyFilter(s[1..], key, k)
  {
  }

  /** The first element starts a run of its own. */
  lemma GroupRunsStart<T>(s: seq<T>, key: T -> int, g: seq<(int, seq<T>)>)
    requires s != [] && SortedByKey(s, key) && GroupsOf(s[1..], key, g) && !(g != [] && g[0].0 == key(s[0]))
    requires g != [] ==> |s| > 1 && g[0].0 == key(s[1])
    ensures GroupsOf(s, key, [(key(s[0]), [s[0]])] + g)
  {
    var t := s[1..];
    var k0 := key(s[0]);
    assert s == [s[0]] + t;
    if g != [] {
      forall j | 0 <= j < |t|
        ensures key(t[j]) > k0
      {
        assert t[j] == s[j + 1] && t[0] == s[1];
        assert key(s[0]) <= key(s[1]);
        if j > 0 {
          assert key(s[1]) <= key(s[j + 1]);
        }
      }
      KeyFilterAbove(t, key, k0);
    }
    var r := [(k0, [s[0]])] + g;
    forall i | 0 <= i < |r|
      ensures r[i].1 != [] && r[i].1 == KeyFilter(s, key, r[i].0)
    {
      if i > 0 {
        assert r[i] == g[i - 1];
        assert g[0].0 <= g[i - 1].0;
      }
    }
  }

  lemma {:induction false} GroupRunsCorrect<T>(s: seq<T>, key: T -> int)
    requires SortedByKey(s, key)
    ensures GroupsOf(s, key, GroupRuns(s, key))
    ensures s != [] ==> GroupRuns(s, key) != [] && GroupRuns(s, key)[0].0 == key(s[0])
  {
    if s != [] {
      var t := s[1..];
      assert SortedByKey(t, key) by {
        forall i, j | 0 <= i < j < |t|
          ensures key(t[i]) <= key(t[j])
        {
          assert t[i] == s[i + 1] && t[j] == s[j + 1];
        }
      }
      GroupRunsCorrect(t, key);
      var g := GroupRuns(t, key);
      if g != [] && g[0].0 == key(s[0]) {
        GroupRunsJoin(s, key, g);
      } else {
        GroupRunsStart(s, key, g);
      }
    }
  }

  /** Every element lies in the group of its key. */
  lemma {:induction false} FlattenMember<T>(g: seq<(int, seq<T>)>, x: T)
    requires x in Flatten(g)
    ensures exists i :: 0 <= i < |g| && x in g[i].1
  {
    if x in g[0].1 {
    } else {
      FlattenMember(g[1..], x);
      var i :| 0 <= i < |g[1..]| && x in g[1..][i].1;
      assert g[i + 1] == g[1..][i];
    }
  }

  /** The elements kept are exactly those of key `k`. */
  lemma {:induction false} KeyFilterMember<T>(s: seq<T>, key: T -> int, k: int, x: T)
    ensures x in KeyFilter(s, key, k) <==> x in s && key(x) == k
  {
    if s != [] {
      KeyFilterMember(s[1..], key, k, x);
      assert s == [s[0]] + s[1..];
    }
  }

  /** `safe_group_by`: the keys are strictly ascending (so each key has one
      group), each group holds exactly the input's elements of its key in
      input order, every element lies in its key's group, and the groups
      together are a permutation of the input. */
  lemma SafeGroupByCorrect<T>(s: seq<T>, key: T -> int)
    ensures var g := SafeGroupBy(s, key);
      (forall i, j :: 0 <= i < j < |g| ==> g[i].0 < g[j].0) &&
      (forall i :: 0 <= i < |g| ==> g[i].1 != [] && g[i].1 == KeyFilter(s, key, g[i].0)) &&
      (forall x :: x in s ==> exists i :: 0 <= i < |g| && g[i].0 == key(x) && x in g[i].1) &&
      multiset(Flatten(g)) == multiset(s)
  {
    var t := SortByKey(s, key);
    var g := GroupRuns(t, key);
    assert GroupsOf(t, key, g) && multiset(t) == multiset(s) by {
      SortByKeyCorrect(s, key);
      GroupRunsCorrect(t, key);
    }
    forall i | 0 <= i < |g|
      ensures g[i].1 == KeyFilter(s, key, g[i].0)
    {
      SortByKeyStable(s, key, g[i].0);
    }
    forall x | x in s
      ensures exists i :: 0 <= i < |g| && g[i].0 == key(x) && x in g[i].1
    {
      assert x in multiset(t);
      FlattenMember(g, x);
      var i :| 0 <= i < |g| && x in g[i].1;
      KeyFilterMember(t, key, g[i].0, x);
    }
  }

  // ---------------------------------------------------------------------
  // `.collect()` of (key, value) pairs into a `HashMap`.

  /** The map a relation collects into: a later row overwrites an earlier
      row with the same key. */
  function CollectMap<T, K(==), V>(rows: seq<T>, key: T -> K, val: T -> V): map<K, V>
  {
    if rows == [] then map[]
    else CollectMap(rows[..|rows| - 1], key, val)[key(rows[|rows| - 1]) := val(rows[|rows| - 1])]
  }

  /** A key is present exactly when some row has it, and it maps to the
      value of the last such row. */
  lemma {:induction false} CollectMapSpec<T, K, V>(rows: seq<T>, key: T -> K, val: T -> V, k: K)
    ensures k in CollectMap(rows, key, val) <==> exists i :: 0 <= i < |rows| && key(rows[i]) == k
    ensures k in CollectMap(rows, key, val) ==>
      exists i ::
        0 <= i < |rows| && key(rows[i]) == k && CollectMap(rows, key, val)[k] == val(rows[i]) &&
        forall j :: i < j < |rows| ==> key(rows[j]) != k
  {
    if rows != [] {
      var n := |rows| - 1;
      var init := rows[..n];
      CollectMapSpec(init, key, val, k);
      forall i | 0 <= i < n
        ensures rows[i] == init[i]
      {
      }
      if key(rows[n]) != k && k in CollectMap(init, key, val) {
        var i :| 0 <= i < n && key(init[i]) == k && CollectMap(init, key, val)[k] == val(init[i]) &&
          forall j :: i < j < n ==> key(init[j]) != k;
        assert forall j :: i < j < |rows| ==> key(rows[j]) != k;
      }
    }
  }

  // ---------------------------------------------------------------------
  // The build and def-path rows the queries share.

  /** A row of `selected_builds`: build, package, version, crate, crate
      hash and edition. */
  datatype SelectedBuild = SelectedBuild(build: nat, package: nat, version: nat, krate: nat, crateHash: nat, edition: nat)

  /** A value of the `def_paths` interning table. */
  datatype DefPathValue = DefPathValue(krate: nat, crateHash: nat, relativeDefId: nat, defPathHash: nat, summaryId: nat)

  /** The build of the last selected build with this crate and hash: the
      map is collected from the list, so a later entry overwrites. */
  function LastBuildFor(selected: seq<SelectedBuild>, krate: nat, crateHash: nat): Option<nat>
  {
    if selected == [] then None
    else
      var b := selected[|selected| - 1];
      if b.krate == krate && b.crateHash == crateHash then Some(b.build)
      else LastBuildFor(selected[..|selected| - 1], krate, crateHash)
  }

  /** The `selected_builds_set` map, built one entry at a time. */
  function SelectedBuildsMap(selected: seq<SelectedBuild>): (m: map<(nat, nat), nat>)
  {
    if selected == [] then map[]
    else
      var b := selected[|selected| - 1];
      SelectedBuildsMap(selected[..|selected| - 1])[(b.krate, b.crateHash) := b.build]
  }

  lemma {:induction false} SelectedBuildsMapLast(selected: seq<SelectedBuild>, krate: nat, crateHash: nat)
    ensures (krate, crateHash) in SelectedBuildsMap(selected) <==> LastBuildFor(selected, krate, crateHash).Some?
    ensures (krate, crateHash) in SelectedBuildsMap(selected) ==>
      SelectedBuildsMap(selected)[(krate, crateHash)] == LastBuildFor(selected, krate, crateHash).value
  {
    if selected != [] {
      SelectedBuildsMapLast(selected[..|selected| - 1], krate, crateHash);
    }
  }

  /** A selected build with this crate and hash exists exactly when the
      lookup finds one, and the one found is the last such entry. */
  lemma {:induction false} LastBuildForSpec(selected: seq<SelectedBuild>, krate: nat, crateHash: nat)
    ensures LastBuildFor(selected, krate, crateHash).Some? <==>
      exists i :: 0 <= i < |selected| && selected[i].krate == krate && selected[i].crateHash == crateHash
    ensures LastBuildFor(selected, krate, crateHash).Some? ==>
      exists i :: 0 <= i < |selected| && selected[i].krate == krate && selected[i].crateHash == crateHash &&
        selected[i].build == LastBuildFor(selected, krate, crateHash).value &&
        forall j :: i < j < |selected| ==> !(selected[j].krate == krate && selected[j].crateHash == crateHash)
  {
    if selected != [] {
      var init := selected[..|selected| - 1];
      LastBuildForSpec(init, krate, crateHash);
      if LastBuildFor(init, krate, crateHash).Some? {
        var i :| 0 <= i < |init| && init[i].krate == krate && init[i].crateHash == crateHash;
        assert selected[i] == init[i];
      }
      var n := |selected| - 1;
      if !(selected[n].krate == krate && selected[n].crateHash == crateHash) {
        if exists i :: 0 <= i < |selected| && selected[i].krate == krate && selected[i].crateHash == crateHash {
          var i :| 0 <= i < |selected| && selected[i].krate == krate && selected[i].crateHash == crateHash;
          assert init[i] == selected[i];
        }
        if LastBuildFor(init, krate, crateHash).Some? {
          var i :| 0 <= i < |init| && init[i].krate == krate && init[i].crateHash == crateHash &&
            init[i].build == LastBuildFor(init, krate, crateHash).value &&
            forall j :: i < j < |init| ==> !(init[j].krate == krate && init[j].crateHash == crateHash);
          assert selected[i] == init[i];
          forall j | i < j < |selected|
            ensures !(selected[j].krate == krate && selected[j].crateHash == crateHash)
          {
            if j < n {
              assert selected[j] == init[j];
            }
          }
        }
      }
    }
  }

  /** What `filter_selected` makes of one element: `None` for an unknown
      def path (a panic in the source), else the element paired with its
      selected build, or nothing. */
  function SelectOne<I, O>(x: I, selected: seq<SelectedBuild>, defPaths: seq<DefPathValue>,
                           defPath: I -> nat, construct: (nat, I) -> O): Option<seq<O>>
  {
    if defPath(x) >= |defPaths| then None
    else
      var d := defPaths[defPath(x)];
      var m := SelectedBuildsMap(selected);
      Some(if (d.krate, d.crateHash) in m then [construct(m[(d.krate, d.crateHash)], x)] else [])
  }

  /** `filter_selected`: keeps the elements whose def path belongs to a
      selected build, paired with that build, in input order. */
  function FilterSelected<I, O>(items: seq<I>, selected: seq<SelectedBuild>, defPaths: seq<DefPathValue>,
                                defPath: I -> nat, construct: (nat, I) -> O): (r: Option<seq<O>>)
    ensures r.Some? <==> forall j :: 0 <= j < |items| ==> defPath(items[j]) < |defPaths|
    ensures r.Some? ==> |r.value| <= |items|
  {
    if items == [] then Some([])
    else
      var acc := FilterSelected(items[..|items| - 1], selected, defPaths, defPath, construct);
      var one := SelectOne(items[|items| - 1], selected, defPaths, defPath, construct);
      if acc.Some? && one.Some? then Some(acc.value + one.value) else None
  }

  /** One element is kept exactly when a selected build has its def path's
      crate and hash, and it is paired with the last such build. */
  lemma FilterSelectedOne<I, O>(x: I, selected: seq<SelectedBuild>, defPaths: seq<DefPathValue>,
                                defPath: I -> nat, construct: (nat, I) -> O)
    requires defPath(x) < |defPaths|
    ensures var d := defPaths[defPath(x)];
      var b := LastBuildFor(selected, d.krate, d.crateHash);
      FilterSelected([x], selected, defPaths, defPath, construct) ==
        Some(if b.Some? then [construct(b.value, x)] else [])
  {
    var d := defPaths[defPath(x)];
    SelectedBuildsMapLast(selected, d.krate, d.crateHash);
    assert [x][..0] == [];
    assert FilterSelected([x][..0], selected, defPaths, defPath, construct) == Some([]);
    var one := SelectOne(x, selected, defPaths, defPath, construct);
    assert FilterSelected([x], selected, defPaths, defPath, construct) == Some([] + one.value);
    assert [] + one.value == one.value;
    if LastBuildFor(selected, d.krate, d.crateHash).Some? {
      assert one.value == [construct(LastBuildFor(selected, d.krate, d.crateHash).value, x)];
    }
  }

  lemma FilterSelectedSnoc<I, O>(items: seq<I>, x: I, selected: seq<SelectedBuild>, defPaths: seq<DefPathValue>,
                                 defPath: I -> nat, construct: (nat, I) -> O)
    ensures var acc := FilterSelected(items, selected, defPaths, defPath, construct);
      var one := SelectOne(x, selected, defPaths, defPath, construct);
      FilterSelected(items + [x], selected, defPaths, defPath, construct) ==
        if acc.Some? && one.Some? then Some(acc.value + one.value) else None
  {
    assert (items + [x])[..|items|] == items;
  }

  /** Filtering distributes over concatenation, so the kept elements stay
      in input order. */
  lemma {:induction false} FilterSelectedAppend<I, O>(a: seq<I>, b: seq<I>, selected: seq<SelectedBuild>,
                                                      defPaths: seq<DefPathValue>, defPath: I -> nat,
                                                      construct: (nat, I) -> O)
    requires FilterSelected(a, selected, defPaths, defPath, construct).Some?
    requires FilterSelected(b, selected, defPaths, defPath, construct).Some?
    ensures FilterSelected(a + b, selected, defPaths, defPath, construct) ==
      Some(FilterSelected(a, selected, defPaths, defPath, construct).value +
           FilterSelected(b, selected, defPaths, defPath, construct).value)
    decreases |b|
  {
    if b == [] {
      assert a + b == a;
      assert FilterSelected(a, selected, defPaths, defPath, construct).value + [] ==
        FilterSelected(a, selected, defPaths, defPath, construct).value;
    } else {
      var init := b[..|b| - 1];
      var x := b[|b| - 1];
      assert b == init + [x];
      FilterSelectedSnoc(init, x, selected, defPaths, defPath, construct);
      FilterSelectedAppend(a, init, selected, defPaths, defPath, construct);
      FilterSelectedAppendStep(a, init, x, selected, defPaths, defPath, construct);
    }
  }

  /** The step of `FilterSelectedAppend` for one more element of `b`. */
  lemma FilterSelectedAppendStep<I, O>(a: seq<I>, init: seq<I>, x: I, selected: seq<SelectedBuild>,
                                       defPaths: seq<DefPathValue>, defPath: I -> nat,
                                       construct: (nat, I) -> O)
    requires FilterSelected(a, selected, defPaths, defPath, construct).Some?
    requires FilterSelected(init + [x], selected, defPaths, defPath, construct).Some?
    requires FilterSelected(init, selected, defPaths, defPath, construct).Some?
    requires FilterSelected(a + init, selected, defPaths, defPath, construct) ==
      Some(FilterSelected(a, selected, defPaths, defPath, construct).value +
           FilterSelected(init, selected, defPaths, defPath, construct).value)
    ensures FilterSelected(a + (init + [x]), selected, defPaths, defPath, construct) ==
      Some(FilterSelected(a, selected, defPaths, defPath, construct).value +
           FilterSelected(init + [x], selected, defPaths, defPath, construct).value)
  {
    assert a + (init + [x]) == (a + init) + [x];
    FilterSelectedSnoc(init, x, selected, defPaths, defPath, construct);
    FilterSelectedSnoc(a + init, x, selected, defPaths, defPath, construct);
    var fa := FilterSelected(a, selected, defPaths, defPath, construct).value;
    var fi := FilterSelected(init, selected, defPaths, defPath, construct).value;
    var one := SelectOne(x, selected, defPaths, defPath, construct).value;
    ConcatAssoc(fa, fi, one);
  }

  lemma ConcatAssoc<T>(a: seq<T>, b: seq<T>, c: seq<T>)
    ensures (a + b) + c == a + (b + c)
  {
  }

  /** The build an element's def path belongs to, if any is selected. */
  function BuildOfDefPath(selected: seq<SelectedBuild>, defPaths: seq<DefPathValue>, defPath: nat): Option<nat>
    requires defPath < |defPaths|
  {
    LastBuildFor(selected, defPaths[defPath].krate, defPaths[defPath].crateHash)
  }

  /** An output of `filter_selected` is exactly an input element whose def
      path belongs to a selected build, paired with that build. */
  lemma {:induction false} FilterSelectedMember<I, O>(items: seq<I>, selected: seq<SelectedBuild>,
                                                      defPaths: seq<DefPathValue>, defPath: I -> nat,
                                                      construct: (nat, I) -> O, o: O)
    requires FilterSelected(items, selected, defPaths, defPath, construct).Some?
    ensures o in FilterSelected(items, selected, defPaths, defPath, construct).value <==>
      exists j :: 0 <= j < |items| && defPath(items[j]) < |defPaths| &&
        BuildOfDefPath(selected, defPaths, defPath(items[j])).Some? &&
        o == construct(BuildOfDefPath(selected, defPaths, defPath(items[j])).value, items[j])
  {
    if items != [] {
      var init := items[..|items| - 1];
      var x := items[|items| - 1];
      FilterSelectedMember(init, selected, defPaths, defPath, construct, o);
      var d := defPaths[defPath(x)];
      SelectedBuildsMapLast(selected, d.krate, d.crateHash);
      var one := SelectOne(x, selected, defPaths, defPath, construct).value;
      var b := BuildOfDefPath(selected, defPaths, defPath(x));
      assert one == if b.Some? then [construct(b.value, x)] else [];
      if exists j :: 0 <= j < |items| && defPath(items[j]) < |defPaths| &&
          BuildOfDefPath(selected, defPaths, defPath(items[j])).Some? &&
          o == construct(BuildOfDefPath(selected, defPaths, defPath(items[j])).value, items[j]) {
        var j :| 0 <= j < |items| && defPath(items[j]) < |defPaths| &&
          BuildOfDefPath(selected, defPaths, defPath(items[j])).Some? &&
          o == construct(BuildOfDefPath(selected, defPaths, defPath(items[j])).value, items[j]);
        if j < |init| {
          assert init[j] == items[j];
        }
      }
      forall j | 0 <= j < |init|
        ensures init[j] == items[j]
      {
      }
    }
  }

  // ---------------------------------------------------------------------
  // Resolvers: interned ids to printable tuples. An unknown id makes the
  // source panic; here it gives `None`.

  /** A value of the manager's `builds` interning table. */
  datatype BuildValue = BuildValue(package: nat, version: nat, krate: nat, crateHash: nat, edition: nat)

  /** The tables `BuildResolver` holds. */
  datatype BuildTables = BuildTables(builds: seq<BuildValue>, packageNames: seq<nat>, packageVersions: seq<nat>,
                                     crateNames: seq<nat>, editions: seq<nat>, strings: seq<string>)

  /** `strings[table[id]]`, the string an interned id stands for. */
  function StringOf(table: seq<nat>, strings: seq<string>, id: nat): Option<string>
  {
    if id < |table| && table[id] < |strings| then Some(strings[table[id]]) else None
  }

  /** `BuildResolver::resolve`: package, version, crate name, crate hash in
      hex and edition. */
  function ResolveBuild(t: BuildTables, build: nat): Option<(string, string, string, string, string)>
  {
    if build >= |t.builds| then None
    else
      var b := t.builds[build];
      var package := StringOf(t.packageNames, t.strings, b.package);
      var version := StringOf(t.packageVersions, t.strings, b.version);
      var krate := StringOf(t.crateNames, t.strings, b.krate);
      var edition := StringOf(t.editions, t.strings, b.edition);
      if package.Some? && version.Some? && krate.Some? && edition.Some?
      then Some((package.value, version.value, krate.value, Hex(b.crateHash), edition.value))
      else None
  }

  /** A build resolves exactly when its id and all its parts are known; the
      hash column reads back as the build's crate hash, and two builds
      that resolve equally have equal hashes. */
  lemma ResolveBuildSpec(t: BuildTables, build: nat, other: nat)
    ensures ResolveBuild(t, build).Some? <==>
      build < |t.builds| &&
      StringOf(t.packageNames, t.strings, t.builds[build].package).Some? &&
      StringOf(t.packageVersions, t.strings, t.builds[build].version).Some? &&
      StringOf(t.crateNames, t.strings, t.builds[build].krate).Some? &&
      StringOf(t.editions, t.strings, t.builds[build].edition).Some?
    ensures ResolveBuild(t, build).Some? ==> HexValue(ResolveBuild(t, build).value.3) == t.builds[build].crateHash
    ensures ResolveBuild(t, build).Some? && ResolveBuild(t, build) == ResolveBuild(t, other) ==>
      t.builds[build].crateHash == t.builds[other].crateHash
  {
    if ResolveBuild(t, build).Some? {
      HexRoundTrip(t.builds[build].crateHash);
      if ResolveBuild(t, build) == ResolveBuild(t, other) {
        HexInjective(t.builds[build].crateHash, t.builds[other].crateHash);
      }
    }
  }

  /** The tables `DefPathResolver` holds. */
  datatype DefPathTables = DefPathTables(defPaths: seq<DefPathValue>, crateNames: seq<nat>,
                                         relativeDefPaths: seq<nat>, summaryKeys: seq<nat>, strings: seq<string>)

  /** `DefPathResolver::resolve`: crate name, crate hash in hex, relative
      def path, def path hash in hex and summary key. */
  function ResolveDefPath(t: DefPathTables, defPath: nat): Option<(string, string, string, string, string)>
  {
    if defPath >= |t.defPaths| then None
    else
      var d := t.defPaths[defPath];
      var krate := StringOf(t.crateNames, t.strings, d.krate);
      var relative := StringOf(t.relativeDefPaths, t.strings, d.relativeDefId);
      var summary := StringOf(t.summaryKeys, t.strings, d.summaryId);
      if krate.Some? && relative.Some? && summary.Some?
      then Some((krate.value, Hex(d.crateHash), relative.value, Hex(d.defPathHash), summary.value))
      else None
  }

  /** Both hash columns read back as the def path's hashes. */
  lemma ResolveDefPathHashes(t: DefPathTables, defPath: nat)
    ensures ResolveDefPath(t, defPath).Some? <==>
      defPath < |t.defPaths| &&
      StringOf(t.crateNames, t.strings, t.defPaths[defPath].krate).Some? &&
      StringOf(t.relativeDefPaths, t.strings, t.defPaths[defPath].relativeDefId).Some? &&
      StringOf(t.summaryKeys, t.strings, t.defPaths[defPath].summaryId).Some?
    ensures ResolveDefPath(t, defPath).Some? ==>
      HexValue(ResolveDefPath(t, defPath).value.1) == t.defPaths[defPath].crateHash &&
      HexValue(ResolveDefPath(t, defPath).value.3) == t.defPaths[defPath].defPathHash
  {
    if defPath < |t.defPaths| {
      HexRoundTrip(t.defPaths[defPath].crateHash);
      HexRoundTrip(t.defPaths[defPath].defPathHash);
    }
  }

  /** The expansion kinds of spans, printed with their variant names. */
  datatype SpanExpansionKind = Root | MacroBang | MacroAttr | MacroDerive | AstPass | Desugaring

  function KindName(k: SpanExpansionKind): string
  {
    match k
    case Root => "Root"
    case MacroBang => "MacroBang"
    case MacroAttr => "MacroAttr"
    case MacroDerive => "MacroDerive"
    case AstPass => "AstPass"
    case Desugaring => "Desugaring"
  }

  /** A row of the `spans` relation. */
  datatype SpanRow = SpanRow(span: nat, callSite: nat, kind: SpanExpansionKind, descr: nat, fileName: nat, line: nat, col: nat)

  datatype SpanInfo = SpanInfo(kind: SpanExpansionKind, descr: nat, fileName: nat, line: nat, col: nat)

  /** The resolver's span map, collected from the rows: a later row for the
      same span replaces an earlier one, and the call site is dropped. */
  function SpanMap(rows: seq<SpanRow>): map<nat, SpanInfo>
  {
    if rows == [] then map[]
    else
      var r := rows[|rows| - 1];
      SpanMap(rows[..|rows| - 1])[r.span := SpanInfo(r.kind, r.descr, r.fileName, r.line, r.col)]
  }

  /** The map knows exactly the spans of the rows, each from its last row. */
  lemma {:induction false} SpanMapLastRow(rows: seq<SpanRow>, span: nat)
    ensures span in SpanMap(rows) <==> exists i :: 0 <= i < |rows| && rows[i].span == span
    ensures span in SpanMap(rows) ==>
      exists i :: 0 <= i < |rows| && rows[i].span == span &&
        SpanMap(rows)[span] == SpanInfo(rows[i].kind, rows[i].descr, rows[i].fileName, rows[i].line, rows[i].col) &&
        forall j :: i < j < |rows| ==> rows[j].span != span
  {
    if rows != [] {
      var init := rows[..|rows| - 1];
      var n := |rows| - 1;
      SpanMapLastRow(init, span);
      if rows[n].span != span {
        if exists i :: 0 <= i < |rows| && rows[i].span == span {
          var i :| 0 <= i < |rows| && rows[i].span == span;
          assert init[i] == rows[i];
        }
        if span in SpanMap(init) {
          var i :| 0 <= i < |init| && init[i].span == span &&
            SpanMap(init)[span] == SpanInfo(init[i].kind, init[i].descr, init[i].fileName, init[i].line, init[i].col) &&
            forall j :: i < j < |init| ==> init[j].span != span;
          assert rows[i] == init[i];
          forall j | i < j < |rows|
            ensures rows[j].span != span
          {
            if j < n {
              assert rows[j] == init[j];
            }
          }
        }
      }
    }
  }

  /** `SpanResolver::resolve`: the span, its kind's name, its description,
      its file name, line and column. */
  function ResolveSpan(spans: map<nat, SpanInfo>, spanFileNames: seq<nat>, strings: seq<string>, span: nat)
    : (r: Option<(nat, string, string, string, nat, nat)>)
    ensures r.Some? ==>
      span in spans && r.value.0 == span && r.value.1 == KindName(spans[span].kind) &&
      r.value.4 == spans[span].line && r.value.5 == spans[span].col
  {
    if span !in spans then None
    else
      var info := spans[span];
      var file := StringOf(spanFileNames, strings, info.fileName);
      if info.descr < |strings| && file.Some?
      then Some((span, KindName(info.kind), strings[info.descr], file.value, info.line, info.col))
      else None
  }

  /** `SpanResolver::get_expansion_kind`. */
  function ExpansionKindOf(spans: map<nat, SpanInfo>, span: nat): Option<SpanExpansionKind>
  {
    if span in spans then Some(spans[span].kind) else None
  }

  /** The printed kind names are distinct, so the resolved kind column and
      `get_expansion_kind` agree. */
  lemma ResolveSpanKind(spans: map<nat, SpanInfo>, spanFileNames: seq<nat>, strings: seq<string>, span: nat,
                        k: SpanExpansionKind)
    requires ResolveSpan(spans, spanFileNames, strings, span).Some?
    ensures ResolveSpan(spans, spanFileNames, strings, span).value.1 == KindName(k) <==> ExpansionKindOf(spans, span) == Some(k)
  {
  }
}
