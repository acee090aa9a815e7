/** The build counting helper of the reports: how many builds there are of
    each crate type, from the counts of the distinct crate-type strings. */
module ReportUtils {
  import opened PyStrings

  /** The crate types of a build, as stored: joined with `", "`. */
  const TypeSeparator: string := ", "

  /** The crate types named by one crate-types string; the empty string
      (a build with no crate type) names the empty type. */
  function CrateTypes(crateTypes: string): (r: seq<string>)
    ensures |r| >= 1
  {
    SplitOn(crateTypes, TypeSeparator)
  }

  function Get(m: map<string, nat>, k: string): nat
  {
    if k in m then m[k] else 0
  }

  /** One `+= count` on the dictionary, starting a missing key at zero. */
  function Add(m: map<string, nat>, k: string, c: nat): map<string, nat>
  {
    m[k := Get(m, k) + c]
  }

  /** The inner loop: `count` added for each piece, in order. */
  function AddPieces(m: map<string, nat>, pieces: seq<string>, c: nat): map<string, nat>
  {
    if pieces == [] then m
    else Add(AddPieces(m, pieces[..|pieces| - 1], c), pieces[|pieces| - 1], c)
  }

  /** The outer loop over `value_counts()`: pairs of a distinct crate-types
      string and its number of builds. */
  function CountBuilds(valueCounts: seq<(string, nat)>): map<string, nat>
  {
    if valueCounts == [] then map[]
    else
      var last := valueCounts[|valueCounts| - 1];
      AddPieces(CountBuilds(valueCounts[..|valueCounts| - 1]), CrateTypes(last.0), last.1)
  }

  /** `count_builds_per_type`, with its two nested loops. */
  method CountBuildsPerType(valueCounts: seq<(string, nat)>) returns (crateTypeCounts: map<string, nat>)
    ensures crateTypeCounts == CountBuilds(valueCounts)
  {
    crateTypeCounts := map[];
    var i := 0;
    while i < |valueCounts|
      invariant i <= |valueCounts|
      invariant crateTypeCounts == CountBuilds(valueCounts[..i])
    {
      var crateTypes := valueCounts[i].0;
      var count := valueCounts[i].1;
      var pieces := CrateTypes(crateTypes);
      ghost var before := crateTypeCounts;
      var j := 0;
      while j < |pieces|
        invariant j <= |pieces|
        invariant crateTypeCounts == AddPieces(before, pieces[..j], count)
      {
        var crateType := pieces[j];
        if crateType !in crateTypeCounts {
          crateTypeCounts := crateTypeCounts[crateType := 0];
        }
        crateTypeCounts := crateTypeCounts[crateType := crateTypeCounts[crateType] + count];
        assert pieces[..j + 1][..j] == pieces[..j];
        j := j + 1;
      }
      assert pieces[..j] == pieces;
      assert valueCounts[..i + 1][..i] == valueCounts[..i];
      i := i + 1;
    }
    assert valueCounts[..i] == valueCounts;
  }

  /** The number of builds of type `k`: each string's count once for every
      time `k` is among its pieces. */
  function TypeCount(valueCounts: seq<(string, nat)>, k: string): nat
  {
    if valueCounts == [] then 0
    else
      var last := valueCounts[|valueCounts| - 1];
      TypeCount(valueCounts[..|valueCounts| - 1], k) + last.1 * multiset(CrateTypes(last.0))[k]
  }

  /** `k` is a piece of some crate-types string. */
  predicate Appears(valueCounts: seq<(string, nat)>, k: string)
  {
    exists i :: 0 <= i < |valueCounts| && k in CrateTypes(valueCounts[i].0)
  }

  lemma {:induction false} AddPiecesSpec(m: map<string, nat>, pieces: seq<string>, c: nat)
    ensures forall k :: k in AddPieces(m, pieces, c) <==> k in m || k in pieces
    ensures forall k :: Get(AddPieces(m, pieces, c), k) == Get(m, k) + c * multiset(pieces)[k]
  {
    if pieces != [] {
      var init := pieces[..|pieces| - 1];
      AddPiecesSpec(m, init, c);
      assert pieces == init + [pieces[|pieces| - 1]];
      forall k
        ensures Get(AddPieces(m, pieces, c), k) == Get(m, k) + c * multiset(pieces)[k]
      {
        AddPiecesCount(m, init, pieces[|pieces| - 1], c, k);
      }
    }
  }

  /** The step of `AddPiecesSpec` for one key and one more piece. */
  lemma AddPiecesCount(m: map<string, nat>, init: seq<string>, last: string, c: nat, k: string)
    requires Get(AddPieces(m, init, c), k) == Get(m, k) + c * multiset(init)[k]
    ensures Get(AddPieces(m, init + [last], c), k) == Get(m, k) + c * multiset(init + [last])[k]
  {
    var pieces := init + [last];
    assert pieces[..|pieces| - 1] == init;
    var n := multiset(init)[k];
    if k == last {
      assert multiset(pieces)[k] == n + 1;
      MulSucc(c, n);
    } else {
      assert multiset(pieces)[k] == n;
    }
  }

  /** The dictionary has a key for every crate type that appears and no
      other, and each key's value is the number of builds of that type. */
  lemma {:induction false} CountBuildsSpec(valueCounts: seq<(string, nat)>)
    ensures forall k :: k in CountBuilds(valueCounts) <==> Appears(valueCounts, k)
    ensures forall k :: Get(CountBuilds(valueCounts), k) == TypeCount(valueCounts, k)
  {
    if valueCounts != [] {
      var init := valueCounts[..|valueCounts| - 1];
      var last := valueCounts[|valueCounts| - 1];
      CountBuildsSpec(init);
      AddPiecesSpec(CountBuilds(init), CrateTypes(last.0), last.1);
      forall k
        ensures Appears(valueCounts, k) <==> Appears(init, k) || k in CrateTypes(last.0)
      {
        if Appears(valueCounts, k) {
          var i :| 0 <= i < |valueCounts| && k in CrateTypes(valueCounts[i].0);
          if i < |init| {
            assert init[i] == valueCounts[i];
          }
        }
        if Appears(init, k) {
          var i :| 0 <= i < |init| && k in CrateTypes(init[i].0);
          assert init[i] == valueCounts[i];
        }
      }
    }
  }

  /** A crate type gets at least the count of every string naming it. */
  lemma CountBuildsAtLeast(valueCounts: seq<(string, nat)>, i: nat, k: string)
    requires i < |valueCounts| && k in CrateTypes(valueCounts[i].0)
    ensures k in CountBuilds(valueCounts)
    ensures CountBuilds(valueCounts)[k] >= valueCounts[i].1
  {
    CountBuildsSpec(valueCounts);
    TypeCountAtLeast(valueCounts, i, k);
  }

  lemma {:induction false} TypeCountAtLeast(valueCounts: seq<(string, nat)>, i: nat, k: string)
    requires i < |valueCounts| && k in CrateTypes(valueCounts[i].0)
    ensures TypeCount(valueCounts, k) >= valueCounts[i].1
  {
    var init := valueCounts[..|valueCounts| - 1];
    var last := valueCounts[|valueCounts| - 1];
    var n := multiset(CrateTypes(last.0))[k];
    assert TypeCount(valueCounts, k) == TypeCount(init, k) + last.1 * n;
    if i < |init| {
      assert init[i] == valueCounts[i];
      TypeCountAtLeast(init, i, k);
    } else {
      MulAtLeast(last.1, n);
    }
  }

  lemma MulAtLeast(a: nat, n: nat)
    requires n >= 1
    ensures a * n >= a
  {
    MulSucc(a, n - 1);
  }

  /** Builds without crate types are counted under the empty type. */
  lemma NoCrateTypes(valueCounts: seq<(string, nat)>, i: nat)
    requires i < |valueCounts| && valueCounts[i].0 == ""
    ensures "" in CountBuilds(valueCounts)
  {
    assert FirstIndex("", TypeSeparator).None?;
    assert CrateTypes("") == [""];
    CountBuildsSpec(valueCounts);
  }

  /** Some key of a non-empty dictionary. */
  ghost function Pick(m: map<string, nat>): (k: string)
    requires |m| > 0
    ensures k in m
  {
    var k :| k in m; k
  }

  /** The sum of a dictionary's values. */
  ghost function SumValues(m: map<string, nat>): nat
    decreases |m|
  {
    if |m| == 0 then 0
    else
      var k := Pick(m);
      assert |(m - {k}).Keys| == |m.Keys - {k}| == |m| - 1;
      m[k] + SumValues(m - {k})
  }

  /** The sum can be taken starting from any key. */
  lemma {:induction false} SumValuesRemove(m: map<string, nat>, k: string)
    requires k in m
    ensures SumValues(m) == m[k] + SumValues(m - {k})
    decreases |m|
  {
    var j := Pick(m);
    if j != k {
      assert |(m - {j}).Keys| == |m.Keys - {j}| == |m| - 1;
      assert |(m - {k}).Keys| == |m.Keys - {k}| == |m| - 1;
      SumValuesRemove(m - {j}, k);
      SumValuesRemove(m - {k}, j);
      assert m - {j} - {k} == m - {k} - {j};
    }
  }

  /** One `+= c` raises the sum by `c`. */
  lemma SumValuesAdd(m: map<string, nat>, k: string, c: nat)
    ensures SumValues(Add(m, k, c)) == SumValues(m) + c
  {
    var a := Add(m, k, c);
    SumValuesRemove(a, k);
    assert a - {k} == m - {k};
    if k in m {
      SumValuesRemove(m, k);
    } else {
      assert m - {k} == m;
    }
  }

  lemma {:induction false} SumAddPieces(m: map<string, nat>, pieces: seq<string>, c: nat)
    ensures SumValues(AddPieces(m, pieces, c)) == SumValues(m) + c * |pieces|
  {
    if pieces != [] {
      var init := pieces[..|pieces| - 1];
      SumAddPieces(m, init, c);
      SumValuesAdd(AddPieces(m, init, c), pieces[|pieces| - 1], c);
      MulSucc(c, |init|);
    }
  }

  lemma MulSucc(c: nat, n: nat)
    ensures c * (n + 1) == c * n + c
  {
  }

  /** Each string's count once for each of its pieces. */
  function PieceTotal(valueCounts: seq<(string, nat)>): nat
  {
    if valueCounts == [] then 0
    else
      var last := valueCounts[|valueCounts| - 1];
      PieceTotal(valueCounts[..|valueCounts| - 1]) + last.1 * |CrateTypes(last.0)|
  }

  /** All values together are the counts times the number of pieces. */
  lemma {:induction false} CountBuildsTotal(valueCounts: seq<(string, nat)>)
    ensures SumValues(CountBuilds(valueCounts)) == PieceTotal(valueCounts)
  {
    if valueCounts != [] {
      var init := valueCounts[..|valueCounts| - 1];
      var last := valueCounts[|valueCounts| - 1];
      CountBuildsTotal(init);
      SumAddPieces(CountBuilds(init), CrateTypes(last.0), last.1);
    }
  }
}
