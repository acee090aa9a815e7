/** The `size` query: per unsafe block, the number of its MIR statements
    and of its terminators. */
module SizeQuery {
  import opened Wrappers
  import opened QueryTypes
  import opened QueryUtils
  import opened CountersQuery

  function ModeIndex(m: BlockCheckMode): (r: nat)
    ensures r < 7
  {
    match m
    case DefaultBlock => 0
    case UnsafeBlockCompilerGenerated => 1
    case UnsafeBlockUserProvided => 2
    case PushUnsafeBlockCompilerGenerated => 3
    case PushUnsafeBlockUserProvided => 4
    case PopUnsafeBlockCompilerGenerated => 5
    case PopUnsafeBlockUserProvided => 6
  }

  /** The grouping key: build, unsafe scope and check mode. */
  type BlockKey = (nat, nat, BlockCheckMode)

  /** The derived order of the key tuple: by build, then by unsafe scope,
      then by check mode in the order the enum declares its variants. */
  predicate KeyLess(a: BlockKey, b: BlockKey)
  {
    a.0 < b.0 || (a.0 == b.0 && (a.1 < b.1 || (a.1 == b.1 && ModeIndex(a.2) < ModeIndex(b.2))))
  }

  /** The key as one integer, for unsafe scopes below `bound`: build,
      scope and check mode as the digits of a mixed-radix number, so that
      the integers are ordered as the tuples are. */
  function KeyCode(k: BlockKey, bound: nat): int
  {
    (k.0 * bound + k.1) * 7 + ModeIndex(k.2)
  }

  lemma MulMonotone(x: nat, y: nat, bound: nat)
    requires x <= y
    ensures x * bound <= y * bound
  {
  }

  /** Below the bound, the integer code orders keys as the tuple order
      does, and two keys share a code only when they are equal. */
  lemma KeyCodeOrder(a: BlockKey, b: BlockKey, bound: nat)
    requires a.1 < bound && b.1 < bound
    ensures KeyCode(a, bound) < KeyCode(b, bound) <==> KeyLess(a, b)
    ensures KeyCode(a, bound) == KeyCode(b, bound) <==> a == b
  {
    var p := a.0 * bound + a.1;
    var q := b.0 * bound + b.1;
    if a.0 < b.0 {
      MulMonotone(a.0 + 1, b.0, bound);
      assert p < (a.0 + 1) * bound <= q;
    } else if b.0 < a.0 {
      MulMonotone(b.0 + 1, a.0, bound);
      assert q < (b.0 + 1) * bound <= p;
    }
    if p < q {
      assert KeyCode(a, bound) < (p + 1) * 7 <= KeyCode(b, bound);
    } else if q < p {
      assert KeyCode(b, bound) < (q + 1) * 7 <= KeyCode(a, bound);
    }
  }

  /** One more than the largest unsafe scope among the keys of `xs`. */
  function ScopeBound<T>(xs: seq<T>, key: T -> BlockKey): (r: nat)
    ensures forall i :: 0 <= i < |xs| ==> key(xs[i]).1 < r
  {
    if xs == [] then 0
    else
      var r := ScopeBound(xs[1..], key);
      assert forall i :: 1 <= i < |xs| ==> xs[i] == xs[1..][i - 1];
      if key(xs[0]).1 < r then r else key(xs[0]).1 + 1
  }

  lemma ScopeBoundMember<T>(xs: seq<T>, key: T -> BlockKey, x: T)
    requires x in xs
    ensures key(x).1 < ScopeBound(xs, key)
  {
    var i :| 0 <= i < |xs| && xs[i] == x;
  }

  function StatementKey(u: UnsafeStatement): BlockKey
  {
    (u.build, u.unsafeScope, u.checkMode)
  }

  function TerminatorKey(t: UnsafeTerminator): BlockKey
  {
    (t.build, t.unsafeScope, t.checkMode)
  }

  function StatementCode(bound: nat): UnsafeStatement -> int
  {
    u => KeyCode(StatementKey(u), bound)
  }

  /** `safe_group_by` over the statements' key tuples. */
  function StatementGroups(statements: seq<UnsafeStatement>): seq<(int, seq<UnsafeStatement>)>
  {
    SafeGroupBy(statements, StatementCode(ScopeBound(statements, StatementKey)))
  }

  /** How many elements have key `k`. */
  function CountKey<T>(xs: seq<T>, key: T -> BlockKey, k: BlockKey): nat
  {
    if xs == [] then 0 else (if key(xs[0]) == k then 1 else 0) + CountKey(xs[1..], key, k)
  }

  /** A group's size is the number of elements with its key. */
  lemma {:induction false} GroupSizeIsCount<T>(xs: seq<T>, key: T -> BlockKey, code: T -> int, k: BlockKey, bound: nat)
    requires forall x :: code(x) == KeyCode(key(x), bound)
    requires forall i :: 0 <= i < |xs| ==> key(xs[i]).1 < bound
    requires k.1 < bound
    ensures |KeyFilter(xs, code, KeyCode(k, bound))| == CountKey(xs, key, k)
  {
    if xs != [] {
      assert forall i :: 0 <= i < |xs| - 1 ==> xs[1..][i] == xs[i + 1];
      GroupSizeIsCount(xs[1..], key, code, k, bound);
      KeyCodeOrder(key(xs[0]), k, bound);
    }
  }

  /** A statement group: its key (that of its first row) and its size. */
  function GroupKey(g: seq<UnsafeStatement>): BlockKey
    requires g != []
  {
    StatementKey(g[0])
  }

  /** The map over the statement groups, with the `seen_scopes` check:
      a scope met in an earlier group aborts with that scope. */
  function StatementSizesSpec(groups: seq<(int, seq<UnsafeStatement>)>): Result<(seq<(BlockKey, nat)>, set<nat>), nat>
    requires forall i :: 0 <= i < |groups| ==> groups[i].1 != []
  {
    if groups == [] then Ok(([], {}))
    else
      var prev := StatementSizesSpec(groups[..|groups| - 1]);
      var k := GroupKey(groups[|groups| - 1].1);
      if prev.Err? then prev
      else if k.1 in prev.value.1 then Err(k.1)
      else Ok((prev.value.0 + [(k, |groups[|groups| - 1].1|)], prev.value.1 + {k.1}))
  }

  method StatementSizes(groups: seq<(int, seq<UnsafeStatement>)>)
    returns (r: Result<(seq<(BlockKey, nat)>, set<nat>), nat>)
    requires forall i :: 0 <= i < |groups| ==> groups[i].1 != []
    ensures r == StatementSizesSpec(groups)
  {
    var seen: set<nat> := {};
    var rows: seq<(BlockKey, nat)> := [];
    var i := 0;
    while i < |groups|
      invariant i <= |groups|
      invariant StatementSizesSpec(groups[..i]) == Ok((rows, seen))
    {
      assert groups[..i + 1][..i] == groups[..i];
      var k := GroupKey(groups[i].1);
      if k.1 in seen {
        StatementSizesStops(groups, i + 1);
        return Err(k.1);
      }
      seen := seen + {k.1};
      rows := rows + [(k, |groups[i].1|)];
      i := i + 1;
    }
    assert groups[..i] == groups;
    r := Ok((rows, seen));
  }

  lemma {:induction false} StatementSizesStops(groups: seq<(int, seq<UnsafeStatement>)>, n: nat)
    requires forall i :: 0 <= i < |groups| ==> groups[i].1 != []
    requires n <= |groups|
    requires StatementSizesSpec(groups[..n]).Err?
    ensures StatementSizesSpec(groups) == StatementSizesSpec(groups[..n])
    decreases |groups| - n
  {
    if n < |groups| {
      assert groups[..n + 1][..n] == groups[..n];
      StatementSizesStops(groups, n + 1);
    } else {
      assert groups[..n] == groups;
    }
  }

  /** The seen-scope assertion holds exactly when no two groups share an unsafe scope;
      then row `i` is group `i`'s key and size, and the seen scopes are the
      groups' scopes. */
  lemma {:induction false} StatementSizesSpecCorrect(groups: seq<(int, seq<UnsafeStatement>)>)
    requires forall i :: 0 <= i < |groups| ==> groups[i].1 != []
    ensures StatementSizesSpec(groups).Ok? <==>
      forall i, j :: 0 <= i < j < |groups| ==> GroupKey(groups[i].1).1 != GroupKey(groups[j].1).1
    ensures StatementSizesSpec(groups).Ok? ==>
      var rows := StatementSizesSpec(groups).value.0;
      |rows| == |groups| &&
      (forall i :: 0 <= i < |groups| ==> rows[i] == (GroupKey(groups[i].1), |groups[i].1|)) &&
      StatementSizesSpec(groups).value.1 == set i | 0 <= i < |groups| :: GroupKey(groups[i].1).1
  {
    StatementSizesRows(groups);
    StatementSizesOk(groups);
  }

  lemma {:induction false} StatementSizesRows(groups: seq<(int, seq<UnsafeStatement>)>)
    requires forall i :: 0 <= i < |groups| ==> groups[i].1 != []
    ensures StatementSizesSpec(groups).Ok? ==>
      var rows := StatementSizesSpec(groups).value.0;
      |rows| == |groups| &&
      (forall i :: 0 <= i < |groups| ==> rows[i] == (GroupKey(groups[i].1), |groups[i].1|)) &&
      StatementSizesSpec(groups).value.1 == set i | 0 <= i < |groups| :: GroupKey(groups[i].1).1
  {
    if groups != [] && StatementSizesSpec(groups).Ok? {
      var n := |groups| - 1;
      var init := groups[..n];
      assert forall i :: 0 <= i < n ==> init[i] == groups[i];
      assert StatementSizesSpec(init).Ok?;
      StatementSizesRows(init);
      var prev := StatementSizesSpec(init).value;
      var k := GroupKey(groups[n].1);
      assert StatementSizesSpec(groups).value == (prev.0 + [(k, |groups[n].1|)], prev.1 + {k.1});
      assert (set i | 0 <= i < |groups| :: GroupKey(groups[i].1).1) ==
        (set i | 0 <= i < n :: GroupKey(init[i].1).1) + {k.1};
    }
  }

  lemma {:induction false} StatementSizesOk(groups: seq<(int, seq<UnsafeStatement>)>)
    requires forall i :: 0 <= i < |groups| ==> groups[i].1 != []
    ensures StatementSizesSpec(groups).Ok? <==>
      forall i, j :: 0 <= i < j < |groups| ==> GroupKey(groups[i].1).1 != GroupKey(groups[j].1).1
  {
    if groups != [] {
      var n := |groups| - 1;
      var init := groups[..n];
      StatementSizesOk(init);
      assert forall i :: 0 <= i < n ==> init[i] == groups[i];
      if StatementSizesSpec(init).Ok? {
        StatementSizesRows(init);
        var seen := StatementSizesSpec(init).value.1;
        if GroupKey(groups[n].1).1 in seen {
          var i :| 0 <= i < n && GroupKey(init[i].1).1 == GroupKey(groups[n].1).1;
          assert GroupKey(groups[i].1).1 == GroupKey(groups[n].1).1;
        }
      } else {
        var i, j :| 0 <= i < j < n && GroupKey(init[i].1).1 == GroupKey(init[j].1).1;
        assert GroupKey(groups[i].1).1 == GroupKey(groups[j].1).1;
      }
    }
  }

  /** A row of the report. */
  datatype BlockSize = BlockSize(build: nat, scope: nat, checkMode: BlockCheckMode, statementCount: nat,
                                 terminatorCount: nat)

  /** The keys of the terminator groups. */
  function TerminatorKeys(terminators: seq<UnsafeTerminator>): set<BlockKey>
  {
    set j | 0 <= j < |terminators| :: TerminatorKey(terminators[j])
  }

  /** The terminator count of a block: its group's size, or 0 without one. */
  function TerminatorCount(terminators: seq<UnsafeTerminator>, k: BlockKey): nat
  {
    CountKey(terminators, TerminatorKey, k)
  }

  lemma {:induction false} CountKeyZero<T>(xs: seq<T>, key: T -> BlockKey, k: BlockKey)
    ensures CountKey(xs, key, k) == 0 <==> forall j :: 0 <= j < |xs| ==> key(xs[j]) != k
  {
    if xs != [] {
      CountKeyZero(xs[1..], key, k);
      assert forall j :: 1 <= j < |xs| ==> xs[1..][j - 1] == xs[j];
    }
  }

  /** The report: the statement groups with their terminator counts, and
      the blocks with terminators but no statements, which come from a
      hash map and so form a set. */
  datatype SizeReport = SizeReport(withStatements: seq<BlockSize>, terminatorOnly: set<BlockSize>)

  function WithTerminators(rows: seq<(BlockKey, nat)>, terminators: seq<UnsafeTerminator>): (r: seq<BlockSize>)
    ensures |r| == |rows|
  {
    seq(|rows|, i requires 0 <= i < |rows| =>
      BlockSize(rows[i].0.0, rows[i].0.1, rows[i].0.2, rows[i].1, TerminatorCount(terminators, rows[i].0)))
  }

  function TerminatorOnly(terminators: seq<UnsafeTerminator>, seen: set<nat>): set<BlockSize>
  {
    set k | k in TerminatorKeys(terminators) && k.1 !in seen :: BlockSize(k.0, k.1, k.2, 0, TerminatorCount(terminators, k))
  }

  /** The whole query; the duplicate-scope check aborts with the scope. */
  function SizeQuerySpec(statements: seq<UnsafeStatement>, terminators: seq<UnsafeTerminator>): Result<SizeReport, nat>
  {
    var groups := StatementGroups(statements);
    SafeGroupByCorrect(statements, StatementCode(ScopeBound(statements, StatementKey)));
    var sizes := StatementSizesSpec(groups);
    if sizes.Err? then Err(sizes.error)
    else Ok(SizeReport(WithTerminators(sizes.value.0, terminators), TerminatorOnly(terminators, sizes.value.1)))
  }

  function SizeKey(b: BlockSize): BlockKey
  {
    (b.build, b.scope, b.checkMode)
  }

  /** A group's integer key is the code of its first row's key, whose
      scope is below the bound. */
  lemma GroupKeyCode(statements: seq<UnsafeStatement>, g: (int, seq<UnsafeStatement>))
    requires var bound := ScopeBound(statements, StatementKey);
      g.1 != [] && g.1 == KeyFilter(statements, StatementCode(bound), g.0)
    ensures var bound := ScopeBound(statements, StatementKey);
      g.0 == KeyCode(GroupKey(g.1), bound) && GroupKey(g.1).1 < bound
  {
    var bound := ScopeBound(statements, StatementKey);
    KeyFilterMember(statements, StatementCode(bound), g.0, g.1[0]);
    ScopeBoundMember(statements, StatementKey, g.1[0]);
  }

  /** A block's statement count is the number of its unsafe statements, and
      its terminator count the number of its unsafe terminators. */
  lemma SizeQueryCounts(statements: seq<UnsafeStatement>, terminators: seq<UnsafeTerminator>, i: nat)
    requires SizeQuerySpec(statements, terminators).Ok?
    requires i < |SizeQuerySpec(statements, terminators).value.withStatements|
    ensures var b := SizeQuerySpec(statements, terminators).value.withStatements[i];
      b.statementCount == CountKey(statements, StatementKey, SizeKey(b)) && b.statementCount > 0 &&
      b.terminatorCount == CountKey(terminators, TerminatorKey, SizeKey(b))
  {
    var bound := ScopeBound(statements, StatementKey);
    var groups := StatementGroups(statements);
    SafeGroupByCorrect(statements, StatementCode(bound));
    StatementSizesSpecCorrect(groups);
    var rows := StatementSizesSpec(groups).value.0;
    var g := groups[i];
    var k := GroupKey(g.1);
    assert rows[i] == (k, |g.1|);
    assert SizeQuerySpec(statements, terminators).value.withStatements[i] ==
      BlockSize(k.0, k.1, k.2, |g.1|, TerminatorCount(terminators, k));
    GroupKeyCode(statements, g);
    GroupSizeIsCount(statements, StatementKey, StatementCode(bound), k, bound);
  }

  /** The blocks with statements come out in strictly ascending order of
      their (build, scope, check mode) tuples, the order of the sorted
      grouping. */
  lemma SizeQueryOrder(statements: seq<UnsafeStatement>, terminators: seq<UnsafeTerminator>)
    requires SizeQuerySpec(statements, terminators).Ok?
    ensures var rows := SizeQuerySpec(statements, terminators).value.withStatements;
      forall i, j :: 0 <= i < j < |rows| ==> KeyLess(SizeKey(rows[i]), SizeKey(rows[j]))
  {
    var bound := ScopeBound(statements, StatementKey);
    var groups := StatementGroups(statements);
    SafeGroupByCorrect(statements, StatementCode(bound));
    StatementSizesSpecCorrect(groups);
    var rows := SizeQuerySpec(statements, terminators).value.withStatements;
    forall i, j | 0 <= i < j < |rows|
      ensures KeyLess(SizeKey(rows[i]), SizeKey(rows[j]))
    {
      assert SizeKey(rows[i]) == GroupKey(groups[i].1);
      assert SizeKey(rows[j]) == GroupKey(groups[j].1);
      GroupKeyCode(statements, groups[i]);
      GroupKeyCode(statements, groups[j]);
      KeyCodeOrder(GroupKey(groups[i].1), GroupKey(groups[j].1), bound);
    }
  }

  /** Terminator-only rows are exactly the blocks with terminators whose
      scope has no statement group, each with statement count 0. */
  lemma SizeQueryTerminatorOnly(statements: seq<UnsafeStatement>, terminators: seq<UnsafeTerminator>, b: BlockSize)
    requires SizeQuerySpec(statements, terminators).Ok?
    ensures b in SizeQuerySpec(statements, terminators).value.terminatorOnly <==>
      b.statementCount == 0 && b.terminatorCount == TerminatorCount(terminators, SizeKey(b)) &&
      b.terminatorCount > 0 && forall j :: 0 <= j < |statements| ==> statements[j].unsafeScope != b.scope
  {
    var bound := ScopeBound(statements, StatementKey);
    var groups := StatementGroups(statements);
    SafeGroupByCorrect(statements, StatementCode(bound));
    StatementSizesSpecCorrect(groups);
    var seen := StatementSizesSpec(groups).value.1;
    var k := SizeKey(b);
    CountKeyZero(terminators, TerminatorKey, k);
    if k in TerminatorKeys(terminators) {
      var j :| 0 <= j < |terminators| && TerminatorKey(terminators[j]) == k;
    }
    if b.scope in seen {
      var i :| 0 <= i < |groups| && GroupKey(groups[i].1).1 == b.scope;
      var x := groups[i].1[0];
      KeyFilterMember(statements, StatementCode(bound), groups[i].0, x);
      var j :| 0 <= j < |statements| && statements[j] == x;
    } else {
      forall j | 0 <= j < |statements|
        ensures statements[j].unsafeScope != b.scope
      {
        var x := statements[j];
        assert x in statements;
        var i :| 0 <= i < |groups| && groups[i].0 == StatementCode(bound)(x) && x in groups[i].1;
        GroupKeyCode(statements, groups[i]);
        ScopeBoundMember(statements, StatementKey, x);
        KeyCodeOrder(StatementKey(x), GroupKey(groups[i].1), bound);
      }
    }
  }
}
