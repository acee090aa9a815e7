/** The `unsafe_block_groups` query: the calls made from unsafe blocks,
    how many each block makes, the blocks that make none, and the split of
    the calls into those with and without a constant target. */
module UnsafeBlockGroupsQuery {
  import opened QueryTypes
  import opened QueryUtils
  import opened CountersQuery
  import opened SizeQuery

  /** A row of `terminators_call`, with the columns the queries read. */
  datatype TerminatorCall = TerminatorCall(block: nat, call: nat, func: nat, unsafety: nat, abi: nat, returnTy: nat)

  /** A row of `unsafe_block_calls`. */
  datatype UnsafeBlockCall = UnsafeBlockCall(build: nat, block: nat, unsafeScope: nat, checkMode: BlockCheckMode,
                                             call: nat, unsafety: nat, abi: nat, returnTy: nat)

  /** The Datalog rule: an unsafe terminator joined with the call
      terminator of the same basic block. */
  function BlockCalls(unsafeTerminators: set<UnsafeTerminator>, calls: set<TerminatorCall>): set<UnsafeBlockCall>
  {
    set t, c | t in unsafeTerminators && c in calls && t.block == c.block ::
      UnsafeBlockCall(t.build, t.block, t.unsafeScope, t.checkMode, c.call, c.unsafety, c.abi, c.returnTy)
  }

  /** Every call of an unsafe block is a call terminator of a block with an
      unsafe terminator, and carries that terminator's build, scope and
      check mode. */
  lemma BlockCallsSpec(unsafeTerminators: set<UnsafeTerminator>, calls: set<TerminatorCall>, u: UnsafeBlockCall)
    requires u in BlockCalls(unsafeTerminators, calls)
    ensures exists t ::
              t in unsafeTerminators && t.block == u.block && t.build == u.build &&
              t.unsafeScope == u.unsafeScope && t.checkMode == u.checkMode
    ensures exists c :: c in calls && c.block == u.block && c.call == u.call && c.abi == u.abi
  {
    var t, c :| t in unsafeTerminators && c in calls && t.block == c.block &&
      u == UnsafeBlockCall(t.build, t.block, t.unsafeScope, t.checkMode, c.call, c.unsafety, c.abi, c.returnTy);
  }

  // ---------------------------------------------------------------------
  // Call counts per block.

  function CallKey(u: UnsafeBlockCall): BlockKey
  {
    (u.build, u.unsafeScope, u.checkMode)
  }

  function CallCode(bound: nat): UnsafeBlockCall -> int
  {
    u => KeyCode(CallKey(u), bound)
  }

  /** `safe_group_by` over the calls' key tuples. */
  function CallGroups(elements: seq<UnsafeBlockCall>): seq<(int, seq<UnsafeBlockCall>)>
  {
    SafeGroupBy(elements, CallCode(ScopeBound(elements, CallKey)))
  }

  /** A row of `unsafe_block_call_counts`. */
  datatype CallCount = CallCount(build: nat, unsafeScope: nat, checkMode: BlockCheckMode, callCount: nat)

  function CountKeyOf(r: CallCount): BlockKey
  {
    (r.build, r.unsafeScope, r.checkMode)
  }

  /** Each group becomes its key and its size. */
  function CountsOf(groups: seq<(int, seq<UnsafeBlockCall>)>): (r: seq<CallCount>)
    requires forall i :: 0 <= i < |groups| ==> groups[i].1 != []
    ensures |r| == |groups|
  {
    if groups == [] then []
    else
      var g := groups[0].1;
      [CallCount(g[0].build, g[0].unsafeScope, g[0].checkMode, |g|)] + CountsOf(groups[1..])
  }

  /** `unsafe_block_call_counts_relation`, grouping the relation's elements
      by (build, unsafe scope, check mode). */
  function CallCounts(elements: seq<UnsafeBlockCall>): seq<CallCount>
  {
    SafeGroupByCorrect(elements, CallCode(ScopeBound(elements, CallKey)));
    CountsOf(CallGroups(elements))
  }

  function TotalCalls(r: seq<CallCount>): nat
  {
    if r == [] then 0 else r[0].callCount + TotalCalls(r[1..])
  }

  lemma {:induction false} CountsOfTotal(groups: seq<(int, seq<UnsafeBlockCall>)>)
    requires forall i :: 0 <= i < |groups| ==> groups[i].1 != []
    ensures TotalCalls(CountsOf(groups)) == |Flatten(groups)|
  {
    if groups != [] {
      CountsOfTotal(groups[1..]);
    }
  }

  /** Row `i` of the counts is the key and size of group `i`. */
  lemma CountsOfAt(groups: seq<(int, seq<UnsafeBlockCall>)>, i: nat)
    requires forall j :: 0 <= j < |groups| ==> groups[j].1 != []
    requires i < |groups|
    ensures CountKeyOf(CountsOf(groups)[i]) == CallKey(groups[i].1[0])
    ensures CountsOf(groups)[i].callCount == |groups[i].1|
  {
    if i > 0 {
      CountsOfAt(groups[1..], i - 1);
    }
  }

  /** Each block with calls has one row, whose count is the number of its
      calls; the rows are strictly ascending in the (build, scope, check
      mode) tuple order, so no key has two rows; the counts add up to the
      number of calls. */
  lemma CallCountsSpec(elements: seq<UnsafeBlockCall>)
    ensures var r := CallCounts(elements);
      forall i :: 0 <= i < |r| ==> r[i].callCount == CountKey(elements, CallKey, CountKeyOf(r[i])) > 0
    ensures var r := CallCounts(elements);
      forall i, j :: 0 <= i < j < |r| ==> KeyLess(CountKeyOf(r[i]), CountKeyOf(r[j]))
    ensures var r := CallCounts(elements);
      forall i, j :: 0 <= i < j < |r| ==> CountKeyOf(r[i]) != CountKeyOf(r[j])
    ensures forall u :: u in elements ==> exists i :: 0 <= i < |CallCounts(elements)| && CountKeyOf(CallCounts(elements)[i]) == CallKey(u)
    ensures TotalCalls(CallCounts(elements)) == |elements|
  {
    var bound := ScopeBound(elements, CallKey);
    var g := CallGroups(elements);
    SafeGroupByCorrect(elements, CallCode(bound));
    var r := CountsOf(g);
    forall i | 0 <= i < |g|
      ensures CountKeyOf(r[i]) == CallKey(g[i].1[0]) && CountKeyOf(r[i]).1 < bound
      ensures KeyCode(CountKeyOf(r[i]), bound) == g[i].0
      ensures r[i].callCount == CountKey(elements, CallKey, CountKeyOf(r[i])) > 0
    {
      CountsOfAt(g, i);
      KeyFilterMember(elements, CallCode(bound), g[i].0, g[i].1[0]);
      ScopeBoundMember(elements, CallKey, g[i].1[0]);
      GroupSizeIsCount(elements, CallKey, CallCode(bound), CountKeyOf(r[i]), bound);
    }
    forall i, j | 0 <= i < j < |r|
      ensures KeyLess(CountKeyOf(r[i]), CountKeyOf(r[j])) && CountKeyOf(r[i]) != CountKeyOf(r[j])
    {
      KeyCodeOrder(CountKeyOf(r[i]), CountKeyOf(r[j]), bound);
    }
    forall u | u in elements
      ensures exists i :: 0 <= i < |r| && CountKeyOf(r[i]) == CallKey(u)
    {
      var i :| 0 <= i < |g| && g[i].0 == CallCode(bound)(u) && u in g[i].1;
      ScopeBoundMember(elements, CallKey, u);
      KeyCodeOrder(CountKeyOf(r[i]), CallKey(u), bound);
    }
    CountsOfTotal(g);
    assert |multiset(Flatten(g))| == |multiset(elements)|;
  }

  // ---------------------------------------------------------------------
  // Blocks without calls.

  /** `blocks_with_calls`: the unsafe scopes of the count rows. */
  function BlocksWithCalls(counts: seq<CallCount>): set<nat>
  {
    set r | r in counts :: r.unsafeScope
  }

  /** `unsafe_block_no_calls_relation`: the unsafe blocks, in order, whose
      scope has no call count. */
  function NoCallBlocks(blocks: seq<UnsafeBlock>, withCalls: set<nat>): seq<UnsafeBlock>
  {
    if blocks == [] then []
    else
      var b := blocks[|blocks| - 1];
      NoCallBlocks(blocks[..|blocks| - 1], withCalls) + (if b.scope in withCalls then [] else [b])
  }

  lemma {:induction false} NoCallBlocksMember(blocks: seq<UnsafeBlock>, withCalls: set<nat>, b: UnsafeBlock)
    ensures b in NoCallBlocks(blocks, withCalls) <==> b in blocks && b.scope !in withCalls
  {
    if blocks != [] {
      var init := blocks[..|blocks| - 1];
      NoCallBlocksMember(init, withCalls, b);
      assert blocks == init + [blocks[|blocks| - 1]];
    }
  }

  /** A block is reported as making no calls exactly when no unsafe-block
      call has its scope. */
  lemma NoCallBlocksSpec(blocks: seq<UnsafeBlock>, elements: seq<UnsafeBlockCall>, b: UnsafeBlock)
    ensures b in NoCallBlocks(blocks, BlocksWithCalls(CallCounts(elements))) <==>
      b in blocks && forall u :: u in elements ==> u.unsafeScope != b.scope
  {
    var r := CallCounts(elements);
    NoCallBlocksMember(blocks, BlocksWithCalls(r), b);
    CallCountsSpec(elements);
    if b.scope in BlocksWithCalls(r) {
      var row :| row in r && row.unsafeScope == b.scope;
      var i :| 0 <= i < |r| && r[i] == row;
      CountKeyPositive(elements, CountKeyOf(row));
    }
  }

  /** A key with a positive count belongs to some element. */
  lemma {:induction false} CountKeyPositive(xs: seq<UnsafeBlockCall>, k: BlockKey)
    requires CountKey(xs, CallKey, k) > 0
    ensures exists u :: u in xs && CallKey(u) == k
  {
    if CallKey(xs[0]) != k {
      CountKeyPositive(xs[1..], k);
      var u :| u in xs[1..] && CallKey(u) == k;
    }
  }

  // ---------------------------------------------------------------------
  // Calls with and without a constant target.

  /** `report_non_const_call_targets`: the calls, in order, whose call has
      no constant target. */
  function NonConstCalls(calls: seq<UnsafeBlockCall>, constCalls: set<nat>): seq<UnsafeBlockCall>
  {
    if calls == [] then []
    else
      var u := calls[|calls| - 1];
      NonConstCalls(calls[..|calls| - 1], constCalls) + (if u.call in constCalls then [] else [u])
  }

  /** `report_const_call_targets`: the calls, in order, that have a
      constant target, each with its target's def path. */
  function ConstCalls(calls: seq<UnsafeBlockCall>, targets: map<nat, nat>): seq<(UnsafeBlockCall, nat)>
  {
    if calls == [] then []
    else
      var u := calls[|calls| - 1];
      ConstCalls(calls[..|calls| - 1], targets) + (if u.call in targets then [(u, targets[u.call])] else [])
  }

  function TargetCall(t: (nat, nat)): nat
  {
    t.0
  }

  function TargetDefPath(t: (nat, nat)): nat
  {
    t.1
  }

  /** The two reports split the calls: every call lands in exactly one of
      them, in input order, and together they are as long as the input. */
  lemma {:induction false} CallPartition(calls: seq<UnsafeBlockCall>, constTargets: seq<(nat, nat)>, u: UnsafeBlockCall)
    ensures var m := CollectMap(constTargets, TargetCall, TargetDefPath);
      |NonConstCalls(calls, m.Keys)| + |ConstCalls(calls, m)| == |calls|
    ensures var m := CollectMap(constTargets, TargetCall, TargetDefPath);
      u in NonConstCalls(calls, m.Keys) <==> u in calls && forall t :: t in constTargets ==> t.0 != u.call
    ensures var m := CollectMap(constTargets, TargetCall, TargetDefPath);
      forall d :: (u, d) in ConstCalls(calls, m) <==> u in calls && u.call in m && d == m[u.call]
  {
    var m := CollectMap(constTargets, TargetCall, TargetDefPath);
    CollectMapSpec(constTargets, TargetCall, TargetDefPath, u.call);
    if calls != [] {
      var init := calls[..|calls| - 1];
      CallPartition(init, constTargets, u);
      assert calls == init + [calls[|calls| - 1]];
    }
  }
}
