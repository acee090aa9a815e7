/** The `counters` query: the scopes of the selected MIR bodies, the unsafe
    blocks among them (one root scope per explicit-unsafe group), the
    statements and terminators inside unsafe blocks, and the number of
    unsafe blocks per function. */
module CountersQuery {
  import opened Wrappers
  import opened QueryTypes
  import opened QueryUtils
  import opened PrepareItems
  import Closures

  /** A row of `subscopes`. */
  datatype Subscope = Subscope(parent: nat, child: nat, safety: ScopeSafety, group: u32,
                               checkMode: BlockCheckMode, span: nat)

  /** A row of `selected_scopes`. */
  datatype ScopeRow = ScopeRow(build: nat, body: nat, scope: nat, parent: nat, safety: ScopeSafety, group: u32,
                               checkMode: BlockCheckMode, span: nat)

  /** A subscope row tagged with the (build, MIR body) it was reached from. */
  type Tagged = ((nat, nat), Subscope)

  function RowOf(x: Tagged): ScopeRow
  {
    ScopeRow(x.0.0, x.0.1, x.1.child, x.1.parent, x.1.safety, x.1.group, x.1.checkMode, x.1.span)
  }

  /** The first rule: the subscopes of a selected body's root scope. */
  function ScopeSeed(cfgs: seq<SelectedMirCfg>, subscopes: set<Subscope>): set<Tagged>
  {
    set j, s | 0 <= j < |cfgs| && s in subscopes && s.parent == cfgs[j].rootScope :: ((cfgs[j].build, cfgs[j].bodyDefPath), s)
  }

  /** The recursive rule joins a selected scope with the subscopes whose
      parent it is. */
  function ScopeEdges(subscopes: set<Subscope>): set<(Subscope, Subscope)>
  {
    set a, b | a in subscopes && b in subscopes && b.parent == a.child :: (a, b)
  }

  function SelectedScopeFacts(cfgs: seq<SelectedMirCfg>, subscopes: set<Subscope>): set<Tagged>
  {
    Closures.Closure(ScopeSeed(cfgs, subscopes), ScopeEdges(subscopes))
  }

  /** `selected_scopes`. */
  function SelectedScopes(cfgs: seq<SelectedMirCfg>, subscopes: set<Subscope>): set<ScopeRow>
  {
    set x | x in SelectedScopeFacts(cfgs, subscopes) :: RowOf(x)
  }

  lemma SelectedScopeFactNode(cfgs: seq<SelectedMirCfg>, subscopes: set<Subscope>, x: Tagged)
    requires x in SelectedScopeFacts(cfgs, subscopes)
    ensures x.1 in subscopes
  {
    Closures.ClosureNodes(ScopeSeed(cfgs, subscopes), ScopeEdges(subscopes), x);
  }

  /** Both rules hold of `selected_scopes`. */
  lemma SelectedScopesRules(cfgs: seq<SelectedMirCfg>, subscopes: set<Subscope>)
    ensures forall j, s :: 0 <= j < |cfgs| && s in subscopes && s.parent == cfgs[j].rootScope ==>
      RowOf(((cfgs[j].build, cfgs[j].bodyDefPath), s)) in SelectedScopes(cfgs, subscopes)
    ensures forall r, s :: r in SelectedScopes(cfgs, subscopes) && s in subscopes && s.parent == r.scope ==>
      RowOf(((r.build, r.body), s)) in SelectedScopes(cfgs, subscopes)
  {
    var seed := ScopeSeed(cfgs, subscopes);
    var edges := ScopeEdges(subscopes);
    Closures.ClosureCorrect(seed, edges);
    forall j, s | 0 <= j < |cfgs| && s in subscopes && s.parent == cfgs[j].rootScope
      ensures RowOf(((cfgs[j].build, cfgs[j].bodyDefPath), s)) in SelectedScopes(cfgs, subscopes)
    {
      assert ((cfgs[j].build, cfgs[j].bodyDefPath), s) in seed;
    }
    forall r, s | r in SelectedScopes(cfgs, subscopes) && s in subscopes && s.parent == r.scope
      ensures RowOf(((r.build, r.body), s)) in SelectedScopes(cfgs, subscopes)
    {
      var x :| x in SelectedScopeFacts(cfgs, subscopes) && r == RowOf(x);
      SelectedScopeFactNode(cfgs, subscopes, x);
      assert (x.1, s) in edges;
      assert (x.0, s) in SelectedScopeFacts(cfgs, subscopes);
    }
  }

  /** Nothing else is derived: every set of rows obeying both rules
      contains `selected_scopes`. */
  lemma SelectedScopesLeast(cfgs: seq<SelectedMirCfg>, subscopes: set<Subscope>, t: set<ScopeRow>)
    requires forall j, s :: 0 <= j < |cfgs| && s in subscopes && s.parent == cfgs[j].rootScope ==>
      RowOf(((cfgs[j].build, cfgs[j].bodyDefPath), s)) in t
    requires forall r, s :: r in t && s in subscopes && s.parent == r.scope ==> RowOf(((r.build, r.body), s)) in t
    ensures SelectedScopes(cfgs, subscopes) <= t
  {
    var seed := ScopeSeed(cfgs, subscopes);
    var edges := ScopeEdges(subscopes);
    var u := Closures.Universe(seed, edges);
    var t' := set x | x in u && RowOf(x) in t;
    Closures.SeedInUniverse(seed, edges);
    Closures.UniverseClosed(seed, edges);
    forall x | x in seed
      ensures x in t'
    {
      var j, s :| 0 <= j < |cfgs| && s in subscopes && s.parent == cfgs[j].rootScope &&
        x == ((cfgs[j].build, cfgs[j].bodyDefPath), s);
    }
    forall x, e | x in t' && e in edges && x.1 == e.0
      ensures (x.0, e.1) in t'
    {
      assert (x.0, e.1) in Closures.Step(u, edges);
      assert RowOf((x.0, e.1)) == RowOf(((RowOf(x).build, RowOf(x).body), e.1));
    }
    Closures.ClosureLeast(seed, edges, t');
  }

  /** Every selected scope is tagged with a selected MIR body and its build. */
  lemma SelectedScopesTags(cfgs: seq<SelectedMirCfg>, subscopes: set<Subscope>, r: ScopeRow)
    requires r in SelectedScopes(cfgs, subscopes)
    ensures exists j :: 0 <= j < |cfgs| && cfgs[j].build == r.build && cfgs[j].bodyDefPath == r.body
  {
    var seed := ScopeSeed(cfgs, subscopes);
    var x :| x in SelectedScopeFacts(cfgs, subscopes) && r == RowOf(x);
    Closures.ClosureTags(seed, ScopeEdges(subscopes), x);
    var y :| y in seed && y.0 == x.0;
    var j, s :| 0 <= j < |cfgs| && s in subscopes && s.parent == cfgs[j].rootScope &&
      y == ((cfgs[j].build, cfgs[j].bodyDefPath), s);
  }

  // ---------------------------------------------------------------------
  // Unsafe blocks: one root scope per explicit-unsafe group.

  /** The grouping key `(mir_body_def_path, explicit_unsafe_group)`, as one
      integer ordered like the pair. */
  function UnsafeGroupKey(r: ScopeRow): int
  {
    r.body * 0x1_0000_0000 + r.group as int
  }

  lemma UnsafeGroupKeyInjective(a: ScopeRow, b: ScopeRow)
    ensures UnsafeGroupKey(a) == UnsafeGroupKey(b) <==> a.body == b.body && a.group == b.group
  {
    if a.body < b.body {
      assert UnsafeGroupKey(a) < (a.body + 1) * 0x1_0000_0000 <= UnsafeGroupKey(b);
    } else if b.body < a.body {
      assert UnsafeGroupKey(b) < (b.body + 1) * 0x1_0000_0000 <= UnsafeGroupKey(a);
    }
  }

  /** The explicit-unsafe rows, in order. */
  function ExplicitUnsafeRows(rows: seq<ScopeRow>): (r: seq<ScopeRow>)
    ensures forall x :: x in r <==> x in rows && x.safety == ExplicitUnsafe
  {
    if rows == [] then []
    else
      ExplicitUnsafeRows(rows[..|rows| - 1]) +
        (if rows[|rows| - 1].safety == ExplicitUnsafe then [rows[|rows| - 1]] else [])
  }

  /** The groups the loop walks through. */
  function UnsafeGroups(rows: seq<ScopeRow>): seq<(int, seq<ScopeRow>)>
  {
    SafeGroupBy(ExplicitUnsafeRows(rows), UnsafeGroupKey)
  }

  /** A group holds exactly the explicit-unsafe rows of one MIR body and
      one `explicit_unsafe_group`. */
  lemma UnsafeGroupsSpec(rows: seq<ScopeRow>, i: nat, x: ScopeRow)
    requires i < |UnsafeGroups(rows)|
    ensures UnsafeGroups(rows)[i].1 != []
    ensures var g := UnsafeGroups(rows)[i].1;
      x in g <==> x in rows && x.safety == ExplicitUnsafe && x.body == g[0].body && x.group == g[0].group
  {
    var e := ExplicitUnsafeRows(rows);
    var g := UnsafeGroups(rows)[i];
    SafeGroupByCorrect(e, UnsafeGroupKey);
    assert g.1 == KeyFilter(e, UnsafeGroupKey, g.0);
    KeyFilterMember(e, UnsafeGroupKey, g.0, x);
    KeyFilterMember(e, UnsafeGroupKey, g.0, g.1[0]);
    UnsafeGroupKeyInjective(x, g.1[0]);
  }

  /** The scopes of a group: the source's `children`. */
  function Children(group: seq<ScopeRow>): set<nat>
  {
    set i | 0 <= i < |group| :: group[i].scope
  }

  /** The rows of a group whose parent lies outside `children`, in order. */
  function Roots(group: seq<ScopeRow>, children: set<nat>): (r: seq<ScopeRow>)
    ensures forall x :: x in r <==> x in group && x.parent !in children
  {
    if group == [] then []
    else
      Roots(group[..|group| - 1], children) +
        (if group[|group| - 1].parent !in children then [group[|group| - 1]] else [])
  }

  lemma {:induction false} RootsAppend(a: seq<ScopeRow>, b: seq<ScopeRow>, children: set<nat>)
    ensures Roots(a + b, children) == Roots(a, children) + Roots(b, children)
    decreases |b|
  {
    if b == [] {
      assert a + b == a;
    } else {
      var init := b[..|b| - 1];
      assert (a + b)[..|a + b| - 1] == a + init;
      RootsAppend(a, init, children);
    }
  }

  /** A row of `unsafe_blocks`. */
  datatype UnsafeBlock = UnsafeBlock(build: nat, body: nat, scope: nat, expansionKind: SpanExpansionKind,
                                     checkMode: BlockCheckMode, span: nat)

  /** What `unsafe_root_scopes` maps a scope of an unsafe block to. */
  datatype RootInfo = RootInfo(scope: nat, build: nat, checkMode: BlockCheckMode)

  /** The source's panics while finding unsafe blocks. */
  datatype BlockError = NoRootScope | SeveralRootScopes | UnknownSpan | NonSelectedBuild

  function BlockOf(root: ScopeRow, spans: map<nat, SpanInfo>): UnsafeBlock
    requires root.span in spans
  {
    UnsafeBlock(root.build, root.body, root.scope, spans[root.span].kind, root.checkMode, root.span)
  }

  /** One group's unsafe block, checked in the order the loop meets them:
      the first root's span and build, then a second root, then none. */
  function GroupOutcome(group: seq<ScopeRow>, spans: map<nat, SpanInfo>, selectedBuilds: set<nat>)
    : Result<UnsafeBlock, BlockError>
  {
    RootsOutcome(Roots(group, Children(group)), spans, selectedBuilds)
  }

  /** The outcome decided by a group's roots alone. */
  function RootsOutcome(roots: seq<ScopeRow>, spans: map<nat, SpanInfo>, selectedBuilds: set<nat>)
    : Result<UnsafeBlock, BlockError>
  {
    if roots == [] then Err(NoRootScope)
    else if roots[0].span !in spans then Err(UnknownSpan)
    else if roots[0].build !in selectedBuilds then Err(NonSelectedBuild)
    else if |roots| > 1 then Err(SeveralRootScopes)
    else Ok(BlockOf(roots[0], spans))
  }

  /** Row `i` is the one row of the group whose parent lies outside `children`. */
  predicate UniqueRoot(group: seq<ScopeRow>, children: set<nat>, i: int)
  {
    0 <= i < |group| && group[i].parent !in children &&
    forall j :: 0 <= j < |group| && group[j].parent !in children ==> j == i
  }

  /** A group has exactly one root row exactly when exactly one index is a
      root, and then that row is the only root. */
  ghost predicate SingleRootExact(group: seq<ScopeRow>, children: set<nat>) {
    (|Roots(group, children)| == 1 <==> exists i :: UniqueRoot(group, children, i)) &&
    forall i :: UniqueRoot(group, children, i) ==> Roots(group, children) == [group[i]]
  }

  lemma {:induction false} RootsSingle(group: seq<ScopeRow>, children: set<nat>)
    ensures |Roots(group, children)| == 1 <==> exists i :: UniqueRoot(group, children, i)
    ensures forall i :: UniqueRoot(group, children, i) ==> Roots(group, children) == [group[i]]
  {
    if group != [] {
      RootsSingle(group[..|group| - 1], children);
      if group[|group| - 1].parent !in children {
        RootsSingleLastRoot(group, children);
      } else {
        RootsSingleLastInner(group, children);
      }
    }
  }

  /** The step of `RootsSingle` when the last row is a root. */
  lemma RootsSingleLastRoot(group: seq<ScopeRow>, children: set<nat>)
    requires group != [] && group[|group| - 1].parent !in children
    requires SingleRootExact(group[..|group| - 1], children)
    ensures SingleRootExact(group, children)
  {
    var n := |group| - 1;
    var init := group[..n];
    forall i | 0 <= i < n
      ensures init[i] == group[i]
    {
    }
    if Roots(init, children) == [] {
      assert UniqueRoot(group, children, n);
    } else {
      assert Roots(init, children)[0] in init;
    }
  }

  /** The step of `RootsSingle` when the last row is not a root. */
  lemma RootsSingleLastInner(group: seq<ScopeRow>, children: set<nat>)
    requires group != [] && group[|group| - 1].parent in children
    requires SingleRootExact(group[..|group| - 1], children)
    ensures SingleRootExact(group, children)
  {
    var n := |group| - 1;
    var init := group[..n];
    forall i | 0 <= i < n
      ensures init[i] == group[i]
    {
    }
    forall i | UniqueRoot(group, children, i)
      ensures UniqueRoot(init, children, i)
    {
    }
    forall i | UniqueRoot(init, children, i)
      ensures UniqueRoot(group, children, i)
    {
    }
  }

  /** A group yields a block exactly when one single scope of it has its
      parent outside the group, that scope's span is known and its build
      is selected; the block is that scope. */
  lemma GroupOutcomeSpec(group: seq<ScopeRow>, spans: map<nat, SpanInfo>, selectedBuilds: set<nat>)
    ensures GroupOutcome(group, spans, selectedBuilds).Ok? <==>
      exists i :: UniqueRoot(group, Children(group), i) && group[i].span in spans && group[i].build in selectedBuilds
    ensures GroupOutcome(group, spans, selectedBuilds).Ok? ==>
      forall i | UniqueRoot(group, Children(group), i) ::
        GroupOutcome(group, spans, selectedBuilds).value == BlockOf(group[i], spans)
  {
    RootsSingle(group, Children(group));
  }

  /** The first loop over a group: its scopes. */
  method CollectChildren(group: seq<ScopeRow>) returns (children: set<nat>)
    ensures children == Children(group)
  {
    children := {};
    var i := 0;
    while i < |group|
      invariant i <= |group|
      invariant children == Children(group[..i])
    {
      assert Children(group[..i + 1]) == Children(group[..i]) + {group[i].scope} by {
        assert forall j :: 0 <= j < i ==> group[..i + 1][j] == group[..i][j];
      }
      children := children + {group[i].scope};
      i := i + 1;
    }
    assert group[..i] == group;
  }

  /** The roots met in a prefix of the group: none, or one that passed
      both checks and became `block`. */
  predicate RootsSoFar(roots: seq<ScopeRow>, spans: map<nat, SpanInfo>, selectedBuilds: set<nat>,
                       found: bool, block: Option<UnsafeBlock>)
  {
    (found <==> roots != []) &&
    (found ==> |roots| == 1 && roots[0].span in spans && roots[0].build in selectedBuilds &&
               block == Some(BlockOf(roots[0], spans)))
  }

  /** One step of the second loop: the roots of the next prefix, and the
      roots of the whole group starting with them. */
  lemma RootsStep(group: seq<ScopeRow>, k: nat, children: set<nat>)
    requires k < |group|
    ensures Roots(group[..k + 1], children) ==
      Roots(group[..k], children) + (if group[k].parent !in children then [group[k]] else [])
    ensures Roots(group, children) == Roots(group[..k + 1], children) + Roots(group[k + 1..], children)
  {
    assert group[..k + 1][..k] == group[..k];
    TakeDrop(group, k + 1);
    RootsAppend(group[..k + 1], group[k + 1..], children);
  }

  /** A root after none: the first root of the group. */
  lemma RootsFirst(group: seq<ScopeRow>, k: nat, children: set<nat>)
    requires k < |group| && Roots(group[..k], children) == [] && group[k].parent !in children
    ensures Roots(group, children) != [] && Roots(group, children)[0] == group[k]
  {
    RootsStep(group, k, children);
    assert Roots(group[..k + 1], children) == [group[k]];
  }

  /** A root after one: the group has two roots or more, the first kept. */
  lemma RootsSecond(group: seq<ScopeRow>, k: nat, children: set<nat>)
    requires k < |group| && |Roots(group[..k], children)| == 1 && group[k].parent !in children
    ensures |Roots(group, children)| > 1 && Roots(group, children)[0] == Roots(group[..k], children)[0]
  {
    RootsStep(group, k, children);
    var pre := Roots(group[..k], children);
    assert Roots(group[..k + 1], children) == pre + [group[k]];
  }

  lemma TakeDrop(group: seq<ScopeRow>, i: nat)
    requires i <= |group|
    ensures group[..i] + group[i..] == group
  {
  }

  /** The second loop over a group, with the `found` flag. */
  method FindRoot(group: seq<ScopeRow>, children: set<nat>, spans: map<nat, SpanInfo>, selectedBuilds: set<nat>)
    returns (r: Result<UnsafeBlock, BlockError>)
    requires children == Children(group)
    ensures r == GroupOutcome(group, spans, selectedBuilds)
  {
    ghost var roots := Roots(group, children);
    assert GroupOutcome(group, spans, selectedBuilds) == RootsOutcome(roots, spans, selectedBuilds);
    var found := false;
    var block: Option<UnsafeBlock> := None;
    var k := 0;
    while k < |group|
      invariant k <= |group|
      invariant RootsSoFar(Roots(group[..k], children), spans, selectedBuilds, found, block)
    {
      var row := group[k];
      RootsStep(group, k, children);
      if row.parent !in children {
        if found {
          RootsSecond(group, k, children);
          return Err(SeveralRootScopes);
        }
        RootsFirst(group, k, children);
        found := true;
        if row.span !in spans {
          return Err(UnknownSpan);
        }
        var b := UnsafeBlock(row.build, row.body, row.scope, spans[row.span].kind, row.checkMode, row.span);
        if row.build !in selectedBuilds {
          return Err(NonSelectedBuild);
        }
        block := Some(b);
      }
      k := k + 1;
    }
    assert group[..k] == group;
    if !found {
      return Err(NoRootScope);
    }
    r := Ok(block.value);
  }

  /** The loop body for one group. */
  method ProcessGroup(group: seq<ScopeRow>, spans: map<nat, SpanInfo>, selectedBuilds: set<nat>)
    returns (r: Result<UnsafeBlock, BlockError>, children: set<nat>)
    ensures children == Children(group)
    ensures r == GroupOutcome(group, spans, selectedBuilds)
  {
    children := CollectChildren(group);
    r := FindRoot(group, children, spans, selectedBuilds);
  }

  /** The unsafe blocks found so far and `unsafe_root_scopes`. */
  datatype BlockState = BlockState(blocks: seq<UnsafeBlock>, roots: map<nat, RootInfo>)

  function InfoOf(b: UnsafeBlock): RootInfo
  {
    RootInfo(b.scope, b.build, b.checkMode)
  }

  /** Each of a group's scopes mapped to the group's root block. */
  function RootsFor(scopes: set<nat>, b: UnsafeBlock): (m: map<nat, RootInfo>)
    ensures m.Keys == scopes && forall s :: s in scopes ==> m[s] == InfoOf(b)
  {
    map s | s in scopes :: InfoOf(b)
  }

  /** A group's scopes and its outcome. */
  type GroupResult = (set<nat>, Result<UnsafeBlock, BlockError>)

  function Outcomes(groups: seq<(int, seq<ScopeRow>)>, spans: map<nat, SpanInfo>, selectedBuilds: set<nat>)
    : (r: seq<GroupResult>)
    ensures |r| == |groups|
    ensures forall i :: 0 <= i < |groups| ==>
      r[i] == (Children(groups[i].1), GroupOutcome(groups[i].1, spans, selectedBuilds))
  {
    seq(|groups|, i requires 0 <= i < |groups| =>
      (Children(groups[i].1), GroupOutcome(groups[i].1, spans, selectedBuilds)))
  }

  /** The loop over the groups: each group adds its block, and maps each of
      its scopes to the block's root; the first failing group aborts. */
  function FoldBlocks(os: seq<GroupResult>): Result<BlockState, BlockError>
  {
    if os == [] then Ok(BlockState([], map[]))
    else
      var prev := FoldBlocks(os[..|os| - 1]);
      var o := os[|os| - 1];
      if prev.Err? then prev
      else if o.1.Err? then Err(o.1.error)
      else Ok(BlockState(prev.value.blocks + [o.1.value], prev.value.roots + RootsFor(o.0, o.1.value)))
  }

  function FindBlocksSpec(groups: seq<(int, seq<ScopeRow>)>, spans: map<nat, SpanInfo>, selectedBuilds: set<nat>)
    : Result<BlockState, BlockError>
  {
    FoldBlocks(Outcomes(groups, spans, selectedBuilds))
  }

  method FindUnsafeBlocks(groups: seq<(int, seq<ScopeRow>)>, spans: map<nat, SpanInfo>, selectedBuilds: set<nat>)
    returns (r: Result<BlockState, BlockError>)
    ensures r == FindBlocksSpec(groups, spans, selectedBuilds)
  {
    ghost var os := Outcomes(groups, spans, selectedBuilds);
    var blocks: seq<UnsafeBlock> := [];
    var roots: map<nat, RootInfo> := map[];
    var i := 0;
    while i < |groups|
      invariant i <= |groups|
      invariant FoldBlocks(os[..i]) == Ok(BlockState(blocks, roots))
    {
      var o, children := ProcessGroup(groups[i].1, spans, selectedBuilds);
      assert os[i] == (children, o);
      FoldBlocksStep(os, i);
      if o.Err? {
        FoldBlocksStops(os, i + 1);
        return Err(o.error);
      }
      blocks := blocks + [o.value];
      roots := roots + RootsFor(children, o.value);
      i := i + 1;
    }
    assert os[..i] == os;
    r := Ok(BlockState(blocks, roots));
  }

  /** One more group: its failure, or its block and its scopes' roots. */
  lemma FoldBlocksStep(os: seq<GroupResult>, i: nat)
    requires i < |os| && FoldBlocks(os[..i]).Ok?
    ensures os[i].1.Err? ==> FoldBlocks(os[..i + 1]) == Err(os[i].1.error)
    ensures os[i].1.Ok? ==>
      FoldBlocks(os[..i + 1]) ==
        Ok(BlockState(FoldBlocks(os[..i]).value.blocks + [os[i].1.value],
                      FoldBlocks(os[..i]).value.roots + RootsFor(os[i].0, os[i].1.value)))
  {
    assert os[..i + 1][..i] == os[..i];
  }

  /** A failure stays a failure as later groups are processed. */
  lemma {:induction false} FoldBlocksStops(os: seq<GroupResult>, n: nat)
    requires n <= |os|
    requires FoldBlocks(os[..n]).Err?
    ensures FoldBlocks(os) == FoldBlocks(os[..n])
    decreases |os| - n
  {
    if n < |os| {
      assert os[..n + 1][..n] == os[..n];
      FoldBlocksStops(os, n + 1);
    } else {
      assert os[..n] == os;
    }
  }

  lemma {:induction false} FoldBlocksAll(os: seq<GroupResult>)
    ensures FoldBlocks(os).Ok? <==> forall i :: 0 <= i < |os| ==> os[i].1.Ok?
    ensures FoldBlocks(os).Ok? ==>
      |FoldBlocks(os).value.blocks| == |os| &&
      forall i :: 0 <= i < |os| ==> FoldBlocks(os).value.blocks[i] == os[i].1.value
  {
    if os != [] {
      var init := os[..|os| - 1];
      FoldBlocksAll(init);
      assert forall i :: 0 <= i < |init| ==> init[i] == os[i];
    }
  }

  lemma {:induction false} FoldBlocksRoots(os: seq<GroupResult>, s: nat)
    requires FoldBlocks(os).Ok?
    ensures s in FoldBlocks(os).value.roots <==> exists i :: 0 <= i < |os| && s in os[i].0
    ensures forall i | 0 <= i < |os| && s in os[i].0 && (forall j :: i < j < |os| ==> s !in os[j].0) ::
      os[i].1.Ok? && FoldBlocks(os).value.roots[s] == InfoOf(os[i].1.value)
  {
    if os != [] {
      var n := |os| - 1;
      var init := os[..n];
      assert FoldBlocks(init).Ok? && os[n].1.Ok?;
      FoldBlocksRoots(init, s);
      var prev := FoldBlocks(init).value.roots;
      var last := RootsFor(os[n].0, os[n].1.value);
      assert FoldBlocks(os).value.roots == prev + last;
      assert forall i :: 0 <= i < n ==> init[i] == os[i];
      forall i | 0 <= i < |os| && s in os[i].0 && (forall j :: i < j < |os| ==> s !in os[j].0)
        ensures os[i].1.Ok? && FoldBlocks(os).value.roots[s] == InfoOf(os[i].1.value)
      {
        if i < n {
          assert s !in os[n].0;
          assert forall j :: i < j < |init| ==> s !in init[j].0;
        }
      }
    }
  }

  /** The loop succeeds exactly when every group yields a block, and then
      block `i` is group `i`'s. */
  lemma FindBlocksAll(groups: seq<(int, seq<ScopeRow>)>, spans: map<nat, SpanInfo>, selectedBuilds: set<nat>)
    ensures FindBlocksSpec(groups, spans, selectedBuilds).Ok? <==>
      forall i :: 0 <= i < |groups| ==> GroupOutcome(groups[i].1, spans, selectedBuilds).Ok?
    ensures FindBlocksSpec(groups, spans, selectedBuilds).Ok? ==>
      |FindBlocksSpec(groups, spans, selectedBuilds).value.blocks| == |groups| &&
      forall i :: 0 <= i < |groups| ==>
        FindBlocksSpec(groups, spans, selectedBuilds).value.blocks[i] == GroupOutcome(groups[i].1, spans, selectedBuilds).value
  {
    FoldBlocksAll(Outcomes(groups, spans, selectedBuilds));
  }

  /** `unsafe_root_scopes` maps exactly the scopes of the groups, each to
      the root of the last group holding it. */
  lemma FindBlocksRoots(groups: seq<(int, seq<ScopeRow>)>, spans: map<nat, SpanInfo>, selectedBuilds: set<nat>, s: nat)
    requires FindBlocksSpec(groups, spans, selectedBuilds).Ok?
    ensures s in FindBlocksSpec(groups, spans, selectedBuilds).value.roots <==>
      exists i :: 0 <= i < |groups| && s in Children(groups[i].1)
    ensures forall i | 0 <= i < |groups| && s in Children(groups[i].1) &&
        (forall j :: i < j < |groups| ==> s !in Children(groups[j].1)) ::
      GroupOutcome(groups[i].1, spans, selectedBuilds).Ok? &&
      FindBlocksSpec(groups, spans, selectedBuilds).value.roots[s] ==
        InfoOf(GroupOutcome(groups[i].1, spans, selectedBuilds).value)
  {
    FindBlocksRootsKeys(groups, spans, selectedBuilds, s);
    FindBlocksRootsLast(groups, spans, selectedBuilds, s);
  }

  lemma FindBlocksRootsKeys(groups: seq<(int, seq<ScopeRow>)>, spans: map<nat, SpanInfo>, selectedBuilds: set<nat>, s: nat)
    requires FindBlocksSpec(groups, spans, selectedBuilds).Ok?
    ensures s in FindBlocksSpec(groups, spans, selectedBuilds).value.roots <==>
      exists i :: 0 <= i < |groups| && s in Children(groups[i].1)
  {
    var os := Outcomes(groups, spans, selectedBuilds);
    FoldBlocksRoots(os, s);
    if s in FindBlocksSpec(groups, spans, selectedBuilds).value.roots {
      var i :| 0 <= i < |os| && s in os[i].0;
      assert s in Children(groups[i].1);
    }
  }

  lemma FindBlocksRootsLast(groups: seq<(int, seq<ScopeRow>)>, spans: map<nat, SpanInfo>, selectedBuilds: set<nat>, s: nat)
    requires FindBlocksSpec(groups, spans, selectedBuilds).Ok?
    ensures forall i | 0 <= i < |groups| && s in Children(groups[i].1) &&
        (forall j :: i < j < |groups| ==> s !in Children(groups[j].1)) ::
      GroupOutcome(groups[i].1, spans, selectedBuilds).Ok? &&
      s in FindBlocksSpec(groups, spans, selectedBuilds).value.roots &&
      FindBlocksSpec(groups, spans, selectedBuilds).value.roots[s] ==
        InfoOf(GroupOutcome(groups[i].1, spans, selectedBuilds).value)
  {
    var os := Outcomes(groups, spans, selectedBuilds);
    FoldBlocksRoots(os, s);
    forall i | 0 <= i < |groups| && s in Children(groups[i].1) &&
        (forall j :: i < j < |groups| ==> s !in Children(groups[j].1))
      ensures GroupOutcome(groups[i].1, spans, selectedBuilds).Ok? &&
        s in FindBlocksSpec(groups, spans, selectedBuilds).value.roots &&
        FindBlocksSpec(groups, spans, selectedBuilds).value.roots[s] ==
          InfoOf(GroupOutcome(groups[i].1, spans, selectedBuilds).value)
    {
      assert os[i].0 == Children(groups[i].1);
      assert forall j :: i < j < |os| ==> s !in os[j].0;
    }
  }

  /** Every unsafe block found comes from a selected build and is a scope
      of its group whose parent lies outside the group. */
  lemma UnsafeBlocksFromSelected(groups: seq<(int, seq<ScopeRow>)>, spans: map<nat, SpanInfo>,
                                 selectedBuilds: set<nat>, i: nat)
    requires FindBlocksSpec(groups, spans, selectedBuilds).Ok?
    requires i < |groups|
    ensures i < |FindBlocksSpec(groups, spans, selectedBuilds).value.blocks|
    ensures FindBlocksSpec(groups, spans, selectedBuilds).value.blocks[i].build in selectedBuilds
    ensures exists k ::
      UniqueRoot(groups[i].1, Children(groups[i].1), k) &&
      FindBlocksSpec(groups, spans, selectedBuilds).value.blocks[i].scope == groups[i].1[k].scope
  {
    FindBlocksAll(groups, spans, selectedBuilds);
    GroupOutcomeSpec(groups[i].1, spans, selectedBuilds);
  }

  // ---------------------------------------------------------------------
  // Statements and terminators inside unsafe blocks.

  /** Keeps the elements whose scope lies in an unsafe block, tagged with
      that block's root, in input order. */
  function TagInside<T, O>(xs: seq<T>, scopeOf: T -> nat, roots: map<nat, RootInfo>, tag: (T, RootInfo) -> O)
    : (r: seq<O>)
    ensures |r| <= |xs|
  {
    if xs == [] then []
    else
      var x := xs[|xs| - 1];
      TagInside(xs[..|xs| - 1], scopeOf, roots, tag) + (if scopeOf(x) in roots then [tag(x, roots[scopeOf(x)])] else [])
  }

  lemma {:induction false} TagInsideMember<T, O>(xs: seq<T>, scopeOf: T -> nat, roots: map<nat, RootInfo>,
                                                 tag: (T, RootInfo) -> O, o: O)
    ensures o in TagInside(xs, scopeOf, roots, tag) <==>
      exists j :: 0 <= j < |xs| && scopeOf(xs[j]) in roots && o == tag(xs[j], roots[scopeOf(xs[j])])
  {
    if xs != [] {
      var init := xs[..|xs| - 1];
      TagInsideMember(init, scopeOf, roots, tag, o);
      assert forall j :: 0 <= j < |init| ==> init[j] == xs[j];
    }
  }

  /** A row of `statements`. */
  datatype Statement = Statement(stmt: nat, block: nat, index: nat, kind: nat, scope: nat)

  /** A row of `unsafe_statements`. */
  datatype UnsafeStatement = UnsafeStatement(build: nat, stmt: nat, block: nat, index: nat, kind: nat,
                                             unsafeScope: nat, checkMode: BlockCheckMode)

  /** A row of `terminators`. */
  datatype Terminator = Terminator(block: nat, kind: nat, scope: nat)

  /** A row of `unsafe_terminators`. */
  datatype UnsafeTerminator = UnsafeTerminator(build: nat, block: nat, kind: nat, unsafeScope: nat,
                                               checkMode: BlockCheckMode)

  function StatementScope(st: Statement): nat
  {
    st.scope
  }

  function TagStatement(st: Statement, root: RootInfo): UnsafeStatement
  {
    UnsafeStatement(root.build, st.stmt, st.block, st.index, st.kind, root.scope, root.checkMode)
  }

  function TerminatorScope(t: Terminator): nat
  {
    t.scope
  }

  function TagTerminator(t: Terminator, root: RootInfo): UnsafeTerminator
  {
    UnsafeTerminator(root.build, t.block, t.kind, root.scope, root.checkMode)
  }

  function UnsafeStatements(statements: seq<Statement>, roots: map<nat, RootInfo>): seq<UnsafeStatement>
  {
    TagInside(statements, StatementScope, roots, TagStatement)
  }

  function UnsafeTerminators(terminators: seq<Terminator>, roots: map<nat, RootInfo>): seq<UnsafeTerminator>
  {
    TagInside(terminators, TerminatorScope, roots, TagTerminator)
  }

  /** A statement is unsafe exactly when its scope lies in an unsafe block,
      and it is tagged with that block's root scope, build and check mode. */
  lemma UnsafeStatementsSpec(statements: seq<Statement>, roots: map<nat, RootInfo>, u: UnsafeStatement)
    ensures u in UnsafeStatements(statements, roots) <==>
      exists j :: 0 <= j < |statements| && statements[j].scope in roots &&
        u == TagStatement(statements[j], roots[statements[j].scope])
  {
    TagInsideMember(statements, StatementScope, roots, TagStatement, u);
  }

  lemma UnsafeTerminatorsSpec(terminators: seq<Terminator>, roots: map<nat, RootInfo>, u: UnsafeTerminator)
    ensures u in UnsafeTerminators(terminators, roots) <==>
      exists j :: 0 <= j < |terminators| && terminators[j].scope in roots &&
        u == TagTerminator(terminators[j], roots[terminators[j].scope])
  {
    TagInsideMember(terminators, TerminatorScope, roots, TagTerminator, u);
  }

  // ---------------------------------------------------------------------
  // Unsafe blocks per function.

  /** A row of `functions_unsafe_blocks`. */
  datatype FunctionBlock = FunctionBlock(build: nat, fn: nat, scope: nat, expansionKind: SpanExpansionKind,
                                         checkMode: BlockCheckMode)

  /** The join of `unsafe_blocks` with `selected_mir_cfgs` on build and MIR
      body. */
  function FunctionsUnsafeBlocks(blocks: seq<UnsafeBlock>, cfgs: seq<SelectedMirCfg>): set<FunctionBlock>
  {
    set i, j | 0 <= i < |blocks| && 0 <= j < |cfgs| && blocks[i].build == cfgs[j].build &&
      blocks[i].body == cfgs[j].bodyDefPath ::
      FunctionBlock(blocks[i].build, cfgs[j].item, blocks[i].scope, blocks[i].expansionKind, blocks[i].checkMode)
  }

  /** The size of the function's group, and 0 when it has none. */
  function BlockCount(fub: set<FunctionBlock>, fn: nat): nat
  {
    |set x | x in fub && x.fn == fn|
  }

  /** The same count over the blocks the user wrote. */
  function UserBlockCount(fub: set<FunctionBlock>, fn: nat): nat
  {
    |set x | x in fub && x.fn == fn && x.checkMode == UnsafeBlockUserProvided|
  }

  lemma SubsetCard<T>(a: set<T>, b: set<T>)
    requires a <= b
    ensures |a| <= |b|
  {
    assert b == a + (b - a);
  }

  /** A function without unsafe blocks counts 0, and the user-written
      blocks are among all its blocks. */
  lemma BlockCountsSpec(fub: set<FunctionBlock>, fn: nat)
    ensures BlockCount(fub, fn) == 0 <==> forall x :: x in fub ==> x.fn != fn
    ensures UserBlockCount(fub, fn) <= BlockCount(fub, fn)
  {
    var all := set x | x in fub && x.fn == fn;
    var user := set x | x in fub && x.fn == fn && x.checkMode == UnsafeBlockUserProvided;
    SubsetCard(user, all);
    if exists x :: x in fub && x.fn == fn {
      var x :| x in fub && x.fn == fn;
      assert x in all;
    }
  }

  /** A row of the `selected_function_definitions` report, without the
      rendered strings. */
  datatype FunctionReport = FunctionReport(build: nat, item: nat, defPath: nat, usesUnsafe: bool,
                                           unsafeBlockCount: nat, userUnsafeBlockCount: nat, isTraitItem: bool)

  function ReportOf(f: SelectedFunction, fub: set<FunctionBlock>, traitItems: set<nat>): FunctionReport
  {
    FunctionReport(f.build, f.definition.item, f.definition.defPath, f.usesUnsafe,
                   BlockCount(fub, f.definition.item), UserBlockCount(fub, f.definition.item),
                   f.definition.defPath in traitItems)
  }

  /** One report row per selected function, in order. */
  function FunctionReports(functions: seq<SelectedFunction>, fub: set<FunctionBlock>, traitItems: set<nat>)
    : (r: seq<FunctionReport>)
    ensures |r| == |functions|
    ensures forall i :: 0 <= i < |functions| ==> r[i] == ReportOf(functions[i], fub, traitItems)
  {
    seq(|functions|, i requires 0 <= i < |functions| => ReportOf(functions[i], fub, traitItems))
  }

  /** Every report row counts no more user-written blocks than blocks. */
  lemma FunctionReportsBounded(functions: seq<SelectedFunction>, fub: set<FunctionBlock>, traitItems: set<nat>)
    ensures forall r :: r in FunctionReports(functions, fub, traitItems) ==> r.userUnsafeBlockCount <= r.unsafeBlockCount
  {
    forall i | 0 <= i < |functions|
      ensures UserBlockCount(fub, functions[i].definition.item) <= BlockCount(fub, functions[i].definition.item)
    {
      BlockCountsSpec(fub, functions[i].definition.item);
    }
  }
}
