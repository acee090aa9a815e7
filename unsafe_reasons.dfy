/** The `unsafe_reasons` query: the distinct (function, reason) pairs the
    compiler recorded for why a function needs unsafe blocks, with the
    function's def path and the reason resolved to text. */
module UnsafeReasonsQuery {
  import opened Wrappers
  import opened DataStructures
  import opened QueryUtils

  /** A row of `function_unsafe_reasons`. */
  datatype UnsafeReasonRow = UnsafeReasonRow(defPath: nat, index: nat, reason: nat)

  /** A report row: the resolved def path and the reason. */
  datatype ReasonRow = ReasonRow(defPath: (string, string, string, string, string), reason: string)

  /** The resolver and the strings table panic on unknown ids. */
  datatype ReasonsError = UnknownDefPath(defPath: nat) | UnknownReason(reason: nat)

  /** The rows with the reason index dropped. */
  function Pairs(rows: seq<UnsafeReasonRow>): (r: seq<(nat, nat)>)
    ensures |r| == |rows|
    ensures forall i :: 0 <= i < |rows| ==> r[i] == (rows[i].defPath, rows[i].reason)
  {
    seq(|rows|, i requires 0 <= i < |rows| => (rows[i].defPath, rows[i].reason))
  }

  /** Collecting into a `HashSet`: each distinct pair once, listed in the
      order of its first occurrence. */
  function DistinctPairs(rows: seq<UnsafeReasonRow>): seq<(nat, nat)>
  {
    InternAll([], Pairs(rows))
  }

  lemma {:induction false} InternAllShorter<V>(values: seq<V>)
    ensures |InternAll([], values)| <= |values|
  {
    if values != [] {
      InternAllShorter(values[..|values| - 1]);
    }
  }

  /** The distinct pairs hold every input pair, nothing else, none twice,
      and are no more than the rows. */
  lemma DistinctPairsSpec(rows: seq<UnsafeReasonRow>)
    ensures NoDuplicates(DistinctPairs(rows))
    ensures |DistinctPairs(rows)| <= |rows|
    ensures forall i :: 0 <= i < |rows| ==> (rows[i].defPath, rows[i].reason) in DistinctPairs(rows)
    ensures forall p :: p in DistinctPairs(rows) ==>
      exists i :: 0 <= i < |rows| && p == (rows[i].defPath, rows[i].reason)
  {
    var pairs := Pairs(rows);
    InternAllNoDuplicates([], pairs);
    InternAllShorter(pairs);
    InternAllMembers([], pairs);
    forall i | 0 <= i < |rows|
      ensures (rows[i].defPath, rows[i].reason) in DistinctPairs(rows)
    {
      assert pairs[i] in pairs;
    }
    forall p | p in DistinctPairs(rows)
      ensures exists i :: 0 <= i < |rows| && p == (rows[i].defPath, rows[i].reason)
    {
      var i :| 0 <= i < |pairs| && pairs[i] == p;
    }
  }

  /** One pair resolved: `(def_path_resolver.resolve(def_path), &strings[reason])`. */
  function ResolvePair(t: DefPathTables, p: (nat, nat)): Result<ReasonRow, ReasonsError>
  {
    var d := ResolveDefPath(t, p.0);
    if d.None? then Err(UnknownDefPath(p.0))
    else if p.1 >= |t.strings| then Err(UnknownReason(p.1))
    else Ok(ReasonRow(d.value, t.strings[p.1]))
  }

  /** Every pair resolved in order; the first failure aborts. */
  function ResolveAll(t: DefPathTables, pairs: seq<(nat, nat)>): Result<seq<ReasonRow>, ReasonsError>
  {
    if pairs == [] then Ok([])
    else
      var init := ResolveAll(t, pairs[..|pairs| - 1]);
      var last := ResolvePair(t, pairs[|pairs| - 1]);
      if init.Err? then init
      else if last.Err? then Err(last.error)
      else Ok(init.value + [last.value])
  }

  /** Resolution succeeds exactly when every pair resolves, and then gives
      one row per pair, position by position. */
  lemma {:induction false} ResolveAllSpec(t: DefPathTables, pairs: seq<(nat, nat)>)
    ensures ResolveAll(t, pairs).Ok? <==> forall i :: 0 <= i < |pairs| ==> ResolvePair(t, pairs[i]).Ok?
    ensures ResolveAll(t, pairs).Ok? ==>
      |ResolveAll(t, pairs).value| == |pairs| &&
      forall i :: 0 <= i < |pairs| ==> ResolveAll(t, pairs).value[i] == ResolvePair(t, pairs[i]).value
  {
    if pairs != [] {
      var init := pairs[..|pairs| - 1];
      ResolveAllSpec(t, init);
      assert forall i :: 0 <= i < |init| ==> init[i] == pairs[i];
      if !ResolveAll(t, pairs).Ok? && ResolveAll(t, init).Ok? {
        assert !ResolvePair(t, pairs[|pairs| - 1]).Ok?;
      } else if !ResolveAll(t, init).Ok? {
        var i :| 0 <= i < |init| && !ResolvePair(t, init[i]).Ok?;
        assert !ResolvePair(t, pairs[i]).Ok?;
      }
    }
  }

  /** The report. */
  function UnsafeReasons(t: DefPathTables, rows: seq<UnsafeReasonRow>): Result<seq<ReasonRow>, ReasonsError>
  {
    ResolveAll(t, DistinctPairs(rows))
  }

  /** The report row of each pair resolves its def path through the def
      path tables and its reason through the strings table. */
  lemma ResolvePairSpec(t: DefPathTables, p: (nat, nat))
    ensures ResolvePair(t, p).Ok? <==> ResolveDefPath(t, p.0).Some? && p.1 < |t.strings|
    ensures ResolvePair(t, p).Ok? ==>
      ResolvePair(t, p).value.defPath == ResolveDefPath(t, p.0).value &&
      ResolvePair(t, p).value.reason == t.strings[p.1] &&
      p.0 < |t.defPaths|
  {
  }

  /** The report exists when every input row resolves; it then has one row
      per distinct (def path, reason) pair, holds the resolution of every
      input row, and is no longer than the input. */
  lemma UnsafeReasonsSpec(t: DefPathTables, rows: seq<UnsafeReasonRow>)
    ensures UnsafeReasons(t, rows).Ok? <==>
      forall i :: 0 <= i < |rows| ==> ResolvePair(t, (rows[i].defPath, rows[i].reason)).Ok?
    ensures UnsafeReasons(t, rows).Ok? ==>
      |UnsafeReasons(t, rows).value| == |DistinctPairs(rows)| <= |rows| &&
      forall i :: 0 <= i < |rows| ==>
        ResolvePair(t, (rows[i].defPath, rows[i].reason)).value in UnsafeReasons(t, rows).value
  {
    var d := DistinctPairs(rows);
    DistinctPairsSpec(rows);
    ResolveAllSpec(t, d);
    if forall i :: 0 <= i < |rows| ==> ResolvePair(t, (rows[i].defPath, rows[i].reason)).Ok? {
      forall j | 0 <= j < |d|
        ensures ResolvePair(t, d[j]).Ok?
      {
        assert d[j] in d;
      }
    } else {
      var i :| 0 <= i < |rows| && !ResolvePair(t, (rows[i].defPath, rows[i].reason)).Ok?;
      var j :| 0 <= j < |d| && d[j] == (rows[i].defPath, rows[i].reason);
    }
    if UnsafeReasons(t, rows).Ok? {
      var r := UnsafeReasons(t, rows).value;
      forall i | 0 <= i < |rows|
        ensures ResolvePair(t, (rows[i].defPath, rows[i].reason)).value in r
      {
        var j :| 0 <= j < |d| && d[j] == (rows[i].defPath, rows[i].reason);
        assert r[j] == ResolvePair(t, d[j]).value;
      }
    }
  }

  /** Every report row is the resolution of some input row. */
  lemma UnsafeReasonsFromRows(t: DefPathTables, rows: seq<UnsafeReasonRow>, k: nat)
    requires UnsafeReasons(t, rows).Ok? && k < |UnsafeReasons(t, rows).value|
    ensures exists i ::
              0 <= i < |rows| &&
              Ok(UnsafeReasons(t, rows).value[k]) == ResolvePair(t, (rows[i].defPath, rows[i].reason))
  {
    var d := DistinctPairs(rows);
    DistinctPairsSpec(rows);
    ResolveAllSpec(t, d);
    assert d[k] in d;
    var i :| 0 <= i < |rows| && d[k] == (rows[i].defPath, rows[i].reason);
  }
}
