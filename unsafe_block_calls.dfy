/** The `unsafe_block_calls` query: one report row per call made from an
    unsafe block, and one per call terminator, describing the call target
    or marking it "non-const" when the callee is not a constant. */
module UnsafeBlockCallsQuery {
  import opened Wrappers
  import opened Text
  import opened QueryUtils
  import opened UnsafeBlockGroupsQuery

  /** The target columns of a call row. */
  datatype TargetFields = TargetFields(crateName: string, crateHash: string, defPath: string, summaryKey: string,
                                       isTraitItem: bool)

  const NON_CONST: string := "non-const"

  /** Indexing a table or map with a missing key panics in the source. */
  datatype CallsError = UnknownTarget(target: nat) | UnknownScopeSpan(scope: nat)

  /** The target columns of one call: from its constant target's def path,
      or "non-const" everywhere. */
  function TargetOf(call: nat, targets: map<nat, nat>, traitItems: set<nat>, t: DefPathTables)
    : Result<TargetFields, CallsError>
  {
    if call !in targets then Ok(TargetFields(NON_CONST, NON_CONST, NON_CONST, NON_CONST, false))
    else
      var target := targets[call];
      var r := ResolveDefPath(t, target);
      if r.None? then Err(UnknownTarget(target))
      else Ok(TargetFields(r.value.0, r.value.1, r.value.2, r.value.4, target in traitItems))
  }

  /** A constant target's hash column reads back as its crate hash and is
      never "non-const", so the hash column tells constant targets apart;
      only a constant target can be a trait item. */
  lemma TargetOfSpec(call: nat, targets: map<nat, nat>, traitItems: set<nat>, t: DefPathTables)
    requires TargetOf(call, targets, traitItems, t).Ok?
    ensures var f := TargetOf(call, targets, traitItems, t).value;
      f.crateHash == NON_CONST <==> call !in targets
    ensures var f := TargetOf(call, targets, traitItems, t).value;
      call in targets ==>
        targets[call] < |t.defPaths| && HexValue(f.crateHash) == t.defPaths[targets[call]].crateHash &&
        (f.isTraitItem <==> targets[call] in traitItems)
    ensures var f := TargetOf(call, targets, traitItems, t).value;
      call !in targets ==> f == TargetFields(NON_CONST, NON_CONST, NON_CONST, NON_CONST, false)
  {
    if call in targets {
      var f := TargetOf(call, targets, traitItems, t).value;
      ResolveDefPathHashes(t, targets[call]);
      assert IsHexDigit(f.crateHash[0]);
      assert !IsHexDigit(NON_CONST[0]);
    }
  }

  /** A row of the `unsafe_block_calls` report. */
  datatype BlockCallRow = BlockCallRow(build: nat, block: nat, unsafeScope: nat, span: nat, call: nat, unsafety: nat,
                                       abi: nat, target: TargetFields)

  /** `report_unsafe_block_calls`: the target is resolved first, then the
      unsafe scope's span is looked up. */
  function BlockCallRows(calls: seq<UnsafeBlockCall>, targets: map<nat, nat>, traitItems: set<nat>, t: DefPathTables,
                         scopeSpans: map<nat, nat>): Result<seq<BlockCallRow>, CallsError>
  {
    if calls == [] then Ok([])
    else
      var prev := BlockCallRows(calls[..|calls| - 1], targets, traitItems, t, scopeSpans);
      var u := calls[|calls| - 1];
      var target := TargetOf(u.call, targets, traitItems, t);
      if prev.Err? then prev
      else if target.Err? then Err(target.error)
      else if u.unsafeScope !in scopeSpans then Err(UnknownScopeSpan(u.unsafeScope))
      else Ok(prev.value + [BlockCallRow(u.build, u.block, u.unsafeScope, scopeSpans[u.unsafeScope], u.call,
                                         u.unsafety, u.abi, target.value)])
  }

  /** One row per call, in order, each with its call's columns, the span of
      its unsafe scope and its target's columns; the report fails exactly
      when a target cannot be resolved or a scope has no span. */
  lemma {:induction false} BlockCallRowsSpec(calls: seq<UnsafeBlockCall>, targets: map<nat, nat>, traitItems: set<nat>,
                                             t: DefPathTables, scopeSpans: map<nat, nat>)
    ensures BlockCallRows(calls, targets, traitItems, t, scopeSpans).Ok? <==>
      forall i :: 0 <= i < |calls| ==>
        TargetOf(calls[i].call, targets, traitItems, t).Ok? && calls[i].unsafeScope in scopeSpans
    ensures BlockCallRows(calls, targets, traitItems, t, scopeSpans).Ok? ==>
      var rows := BlockCallRows(calls, targets, traitItems, t, scopeSpans).value;
      |rows| == |calls| &&
      forall i :: 0 <= i < |calls| ==>
        var u := calls[i];
        rows[i] == BlockCallRow(u.build, u.block, u.unsafeScope, scopeSpans[u.unsafeScope], u.call, u.unsafety, u.abi,
                                TargetOf(u.call, targets, traitItems, t).value)
  {
    if calls != [] {
      var init := calls[..|calls| - 1];
      BlockCallRowsSpec(init, targets, traitItems, t, scopeSpans);
      forall i | 0 <= i < |init|
        ensures init[i] == calls[i]
      {
      }
    }
  }

  /** A row of the `all_calls` report. */
  datatype AllCallRow = AllCallRow(call: nat, func: nat, unsafety: nat, abi: nat, callTarget: string, isTraitItem: bool)

  /** The target columns of `report_all_calls`: the summary key of the
      constant target, or "non-const". */
  function AllCallTarget(call: nat, targets: map<nat, nat>, traitItems: set<nat>, t: DefPathTables)
    : Result<(string, bool), CallsError>
  {
    if call !in targets then Ok((NON_CONST, false))
    else
      var target := targets[call];
      if target >= |t.defPaths| then Err(UnknownTarget(target))
      else
        var summary := StringOf(t.summaryKeys, t.strings, t.defPaths[target].summaryId);
        if summary.None? then Err(UnknownTarget(target)) else Ok((summary.value, target in traitItems))
  }

  /** `report_all_calls`. */
  function AllCallRows(calls: seq<TerminatorCall>, targets: map<nat, nat>, traitItems: set<nat>, t: DefPathTables)
    : Result<seq<AllCallRow>, CallsError>
  {
    if calls == [] then Ok([])
    else
      var prev := AllCallRows(calls[..|calls| - 1], targets, traitItems, t);
      var c := calls[|calls| - 1];
      var target := AllCallTarget(c.call, targets, traitItems, t);
      if prev.Err? then prev
      else if target.Err? then Err(target.error)
      else Ok(prev.value + [AllCallRow(c.call, c.func, c.unsafety, c.abi, target.value.0, target.value.1)])
  }

  /** One row per call terminator, in order; a call without a constant
      target is "non-const" and not a trait item, and a constant target's
      summary key agrees with the unsafe-block report's column. */
  lemma {:induction false} AllCallRowsSpec(calls: seq<TerminatorCall>, targets: map<nat, nat>, traitItems: set<nat>,
                                           t: DefPathTables)
    requires AllCallRows(calls, targets, traitItems, t).Ok?
    ensures var rows := AllCallRows(calls, targets, traitItems, t).value;
      |rows| == |calls| &&
      forall i :: 0 <= i < |calls| ==>
        rows[i].call == calls[i].call && rows[i].func == calls[i].func &&
        (calls[i].call !in targets ==> rows[i].callTarget == NON_CONST && !rows[i].isTraitItem) &&
        (TargetOf(calls[i].call, targets, traitItems, t).Ok? ==>
           rows[i].callTarget == TargetOf(calls[i].call, targets, traitItems, t).value.summaryKey &&
           rows[i].isTraitItem == TargetOf(calls[i].call, targets, traitItems, t).value.isTraitItem)
  {
    if calls != [] {
      var init := calls[..|calls| - 1];
      AllCallRowsSpec(init, targets, traitItems, t);
      forall i | 0 <= i < |init|
        ensures init[i] == calls[i]
      {
      }
    }
  }
}
