/** The `resolved_calls` query: one row per distinct description of a call
    with a constant target (receiver, target, generics, the crates on both
    sides and the macro it comes from), with the number of calls it
    describes, sorted by target; and the subset that crosses crates. */
module ResolvedCallsQuery {
  import opened Wrappers
  import opened Text
  import opened QueryUtils
  import opened UnsafeBlockGroupsQuery

  /** A value of `terminators_call_const_target_desc`. */
  datatype TargetDesc = TargetDesc(desc: nat, functionGenerics: nat, typeGenerics: nat)

  /** A value of `type_description`. */
  datatype TypeDesc = TypeDesc(desc: nat, generics: nat)

  /** The maps and tables the query loads. */
  datatype CallTables = CallTables(callTarget: map<nat, nat>, callTargetSelf: map<nat, nat>,
                                   callTargetDesc: map<nat, TargetDesc>, callTargetMacro: map<nat, nat>,
                                   strings: seq<string>, defPaths: seq<DefPathValue>, crateNames: seq<nat>,
                                   typeDescriptions: map<nat, TypeDesc>, blockDefPaths: map<nat, nat>)

  /** The description of one call. */
  datatype CallRow = CallRow(receiverName: string, receiverGenerics: string, target: string, typeGenerics: string,
                             functionGenerics: string, callerCrate: string, targetCrate: string, macroPath: string)

  /** A missing map entry or an index out of range panics in the source. */
  datatype CallsError =
    | MissingTargetDesc(call: nat)
    | MissingBlockDefPath(block: nat)
    | UnknownCallerCrate(block: nat)
    | UnknownTargetCrate(target: nat)
    | UnknownReceiver(call: nat)
    | UnknownMacroPath(call: nat)
    | UnknownTargetStrings(call: nat)

  function Str(strings: seq<string>, id: nat): Option<string>
  {
    if id < |strings| then Some(strings[id]) else None
  }

  /** `strings[crate_names[krate]]` for the crate of a def path. */
  function CrateOf(t: CallTables, defPath: nat): Option<string>
  {
    if defPath < |t.defPaths| && t.defPaths[defPath].krate < |t.crateNames|
    then Str(t.strings, t.crateNames[t.defPaths[defPath].krate])
    else None
  }

  /** The receiver's description and generics, or two empty strings when no
      self type is recorded for the call. */
  function ReceiverOf(t: CallTables, call: nat): Option<(string, string)>
  {
    if call !in t.callTargetSelf then Some(("", ""))
    else
      var typ := t.callTargetSelf[call];
      if typ !in t.typeDescriptions then None
      else
        var desc := Str(t.strings, t.typeDescriptions[typ].desc);
        var generics := Str(t.strings, t.typeDescriptions[typ].generics);
        if desc.Some? && generics.Some? then Some((desc.value, generics.value)) else None
  }

  /** The macro path, or the empty string when none is recorded. */
  function MacroOf(t: CallTables, call: nat): Option<string>
  {
    if call !in t.callTargetMacro then Some("") else Str(t.strings, t.callTargetMacro[call])
  }

  /** The closure given to `filter_map`: `Ok(None)` drops a call without a
      constant target; the lookups that panic in the source are tried in
      the source's order. */
  function RowOf(t: CallTables, c: TerminatorCall): Result<Option<CallRow>, CallsError>
  {
    if c.call !in t.callTarget then Ok(None)
    else if c.call !in t.callTargetDesc then Err(MissingTargetDesc(c.call))
    else if c.block !in t.blockDefPaths then Err(MissingBlockDefPath(c.block))
    else
      var d := t.callTargetDesc[c.call];
      var caller := CrateOf(t, t.blockDefPaths[c.block]);
      var target := CrateOf(t, t.callTarget[c.call]);
      var receiver := ReceiverOf(t, c.call);
      var macroPath := MacroOf(t, c.call);
      if caller.None? then Err(UnknownCallerCrate(c.block))
      else if target.None? then Err(UnknownTargetCrate(t.callTarget[c.call]))
      else if receiver.None? then Err(UnknownReceiver(c.call))
      else if macroPath.None? then Err(UnknownMacroPath(c.call))
      else if d.desc >= |t.strings| || d.typeGenerics >= |t.strings| || d.functionGenerics >= |t.strings|
      then Err(UnknownTargetStrings(c.call))
      else Ok(Some(CallRow(receiver.value.0, receiver.value.1, t.strings[d.desc], t.strings[d.typeGenerics],
                           t.strings[d.functionGenerics], caller.value, target.value, macroPath.value)))
  }

  /** A call is dropped exactly when it has no constant target; a kept
      call's row has empty receiver columns exactly when no self type is
      recorded, an empty macro path when no macro is recorded, and the
      target and crate names the tables give. */
  lemma RowOfSpec(t: CallTables, c: TerminatorCall)
    requires RowOf(t, c).Ok?
    ensures RowOf(t, c).value.None? <==> c.call !in t.callTarget
    ensures RowOf(t, c).value.Some? ==>
      var r := RowOf(t, c).value.value;
      (c.call !in t.callTargetSelf ==> r.receiverName == "" && r.receiverGenerics == "") &&
      (c.call in t.callTargetSelf ==>
        var typ := t.callTargetSelf[c.call];
        typ in t.typeDescriptions && Str(t.strings, t.typeDescriptions[typ].desc) == Some(r.receiverName) &&
        Str(t.strings, t.typeDescriptions[typ].generics) == Some(r.receiverGenerics))
    ensures RowOf(t, c).value.Some? ==>
      var r := RowOf(t, c).value.value;
      (c.call !in t.callTargetMacro ==> r.macroPath == "") &&
      (c.call in t.callTargetMacro ==> Str(t.strings, t.callTargetMacro[c.call]) == Some(r.macroPath))
    ensures RowOf(t, c).value.Some? ==>
      var r := RowOf(t, c).value.value;
      c.call in t.callTargetDesc && c.block in t.blockDefPaths &&
      Str(t.strings, t.callTargetDesc[c.call].desc) == Some(r.target) &&
      CrateOf(t, t.blockDefPaths[c.block]) == Some(r.callerCrate) &&
      CrateOf(t, t.callTarget[c.call]) == Some(r.targetCrate)
  {
  }

  /** The rows of the kept calls, in call order; the first panic aborts. */
  function Rows(t: CallTables, calls: seq<TerminatorCall>): Result<seq<CallRow>, CallsError>
  {
    if calls == [] then Ok([])
    else
      var init := Rows(t, calls[..|calls| - 1]);
      var last := RowOf(t, calls[|calls| - 1]);
      if init.Err? then init
      else if last.Err? then Err(last.error)
      else Ok(init.value + if last.value.Some? then [last.value.value] else [])
  }

  /** The calls that have a constant target. */
  function Kept(t: CallTables, calls: seq<TerminatorCall>): seq<TerminatorCall>
  {
    if calls == [] then []
    else Kept(t, calls[..|calls| - 1]) + if calls[|calls| - 1].call in t.callTarget then [calls[|calls| - 1]] else []
  }

  /** The rows exist exactly when no call panics; there is one row per kept
      call, and a row is present exactly when some call produces it. */
  lemma {:induction false} RowsSpec(t: CallTables, calls: seq<TerminatorCall>, row: CallRow)
    ensures Rows(t, calls).Ok? <==> forall i :: 0 <= i < |calls| ==> RowOf(t, calls[i]).Ok?
    ensures Rows(t, calls).Ok? ==> |Rows(t, calls).value| == |Kept(t, calls)|
    ensures Rows(t, calls).Ok? ==>
      (row in Rows(t, calls).value <==> exists i :: 0 <= i < |calls| && RowOf(t, calls[i]) == Ok(Some(row)))
  {
    if calls != [] {
      var init := calls[..|calls| - 1];
      var c := calls[|calls| - 1];
      RowsSpec(t, init, row);
      assert calls == init + [c];
      if Rows(t, calls).Ok? {
        var rs := Rows(t, init).value;
        if RowOf(t, c).value.None? {
          RowOfSpec(t, c);
          assert Rows(t, calls).value == rs + [];
          assert Kept(t, calls) == Kept(t, init) + [];
        }
        if row in Rows(t, calls).value && row !in rs {
          assert RowOf(t, calls[|calls| - 1]) == Ok(Some(row));
        }
        if exists i :: 0 <= i < |calls| && RowOf(t, calls[i]) == Ok(Some(row)) {
          var i :| 0 <= i < |calls| && RowOf(t, calls[i]) == Ok(Some(row));
          if i < |init| {
            assert init[i] == calls[i];
          }
        }
      } else if Rows(t, init).Ok? {
        assert !RowOf(t, calls[|calls| - 1]).Ok?;
      } else {
        var i :| 0 <= i < |init| && !RowOf(t, init[i]).Ok?;
        assert calls[i] == init[i];
      }
    }
  }

  // ---------------------------------------------------------------------
  // Counting equal rows.

  /** A row of the report: a call description and how often it occurs. */
  datatype RowCount = RowCount(row: CallRow, count: nat)

  /** `*counts.entry(row).or_insert(0) += 1` on the map held as a list of
      entries in insertion order. */
  function Bump(entries: seq<RowCount>, row: CallRow): seq<RowCount>
  {
    if entries == [] then [RowCount(row, 1)]
    else if entries[0].row == row then [RowCount(row, entries[0].count + 1)] + entries[1..]
    else [entries[0]] + Bump(entries[1..], row)
  }

  /** The fold that counts the rows. */
  function Tally(rows: seq<CallRow>): seq<RowCount>
  {
    if rows == [] then [] else Bump(Tally(rows[..|rows| - 1]), rows[|rows| - 1])
  }

  /** The count the entries give a row (zero when it has none). */
  function CountOf(entries: seq<RowCount>, row: CallRow): nat
  {
    if entries == [] then 0 else (if entries[0].row == row then entries[0].count else 0) + CountOf(entries[1..], row)
  }

  /** The sum of all counts. */
  function Total(entries: seq<RowCount>): nat
  {
    if entries == [] then 0 else entries[0].count + Total(entries[1..])
  }

  /** No row has two entries. */
  predicate DistinctRows(entries: seq<RowCount>)
  {
    forall i, j :: 0 <= i < j < |entries| ==> entries[i].row != entries[j].row
  }

  predicate HasEntry(entries: seq<RowCount>, row: CallRow)
  {
    exists i :: 0 <= i < |entries| && entries[i].row == row
  }

  /** Bumping adds one to the row's count and to the total. */
  lemma {:induction false} BumpCount(entries: seq<RowCount>, row: CallRow, other: CallRow)
    ensures CountOf(Bump(entries, row), other) == CountOf(entries, other) + if other == row then 1 else 0
    ensures Total(Bump(entries, row)) == Total(entries) + 1
  {
    if entries != [] && entries[0].row != row {
      BumpCount(entries[1..], row, other);
    }
  }

  /** Bumping gives the row an entry and no other row one. */
  lemma {:induction false} BumpHas(entries: seq<RowCount>, row: CallRow, other: CallRow)
    ensures HasEntry(Bump(entries, row), other) <==> HasEntry(entries, other) || other == row
  {
    var b := Bump(entries, row);
    if entries == [] {
      assert b[0].row == row;
    } else {
      if entries[0].row == row {
        assert b[0].row == row;
        if HasEntry(entries, other) {
          var i :| 0 <= i < |entries| && entries[i].row == other;
          assert b[i].row == other;
        }
        if HasEntry(b, other) {
          var i :| 0 <= i < |b| && b[i].row == other;
          assert entries[i].row == other;
        }
      } else {
        BumpHas(entries[1..], row, other);
        var rest := Bump(entries[1..], row);
        assert b == [entries[0]] + rest;
        assert b[0].row == entries[0].row;
        if HasEntry(entries, other) && other != entries[0].row {
          var i :| 0 <= i < |entries| && entries[i].row == other;
          assert entries[1..][i - 1].row == other;
        }
        if HasEntry(rest, other) {
          var i :| 0 <= i < |rest| && rest[i].row == other;
          assert b[i + 1].row == other;
        }
        if HasEntry(b, other) && other != entries[0].row {
          var i :| 0 <= i < |b| && b[i].row == other;
          assert rest[i - 1].row == other;
        }
        if HasEntry(entries[1..], other) {
          var i :| 0 <= i < |entries[1..]| && entries[1..][i].row == other;
          assert entries[i + 1].row == other;
        }
      }
    }
  }

  /** Bumping keeps the rows distinct. */
  lemma {:induction false} BumpDistinct(entries: seq<RowCount>, row: CallRow)
    requires DistinctRows(entries)
    ensures DistinctRows(Bump(entries, row))
  {
    if entries != [] && entries[0].row != row {
      var b := Bump(entries, row);
      var rest := Bump(entries[1..], row);
      BumpDistinct(entries[1..], row);
      forall j | 0 <= j < |rest|
        ensures rest[j].row != entries[0].row
      {
        BumpHas(entries[1..], row, rest[j].row);
        assert HasEntry(rest, rest[j].row);
        if rest[j].row != row {
          var i :| 0 <= i < |entries[1..]| && entries[1..][i].row == rest[j].row;
          assert entries[i + 1].row == rest[j].row;
        }
      }
      forall i, j | 0 <= i < j < |b|
        ensures b[i].row != b[j].row
      {
        if i > 0 {
          assert b[i].row == rest[i - 1].row && b[j].row == rest[j - 1].row;
        }
      }
    }
  }

  /** With distinct rows, a row's count is the count of its one entry. */
  lemma {:induction false} CountOfEntry(entries: seq<RowCount>, i: nat)
    requires DistinctRows(entries) && i < |entries|
    ensures CountOf(entries, entries[i].row) == entries[i].count
  {
    if i == 0 {
      CountOfAbsent(entries[1..], entries[0].row);
    } else {
      CountOfEntry(entries[1..], i - 1);
    }
  }

  lemma {:induction false} CountOfAbsent(entries: seq<RowCount>, row: CallRow)
    requires forall i :: 0 <= i < |entries| ==> entries[i].row != row
    ensures CountOf(entries, row) == 0
  {
    if entries != [] {
      CountOfAbsent(entries[1..], row);
    }
  }

  /** The counts: each row occurs once, exactly when some kept call produced
      it, its count is the number of calls that produced it, and the counts
      add up to the number of rows. */
  lemma {:induction false} TallySpec(rows: seq<CallRow>, row: CallRow)
    ensures DistinctRows(Tally(rows))
    ensures HasEntry(Tally(rows), row) <==> row in rows
    ensures CountOf(Tally(rows), row) == multiset(rows)[row]
    ensures Total(Tally(rows)) == |rows|
  {
    if rows != [] {
      var init := rows[..|rows| - 1];
      var last := rows[|rows| - 1];
      TallySpec(init, row);
      BumpCount(Tally(init), last, row);
      BumpHas(Tally(init), last, row);
      BumpDistinct(Tally(init), last);
      assert rows == init + [last];
    }
  }

  /** Every entry counts at least one call. */
  lemma {:induction false} TallyPositive(rows: seq<CallRow>, i: nat)
    requires i < |Tally(rows)|
    ensures Tally(rows)[i].count >= 1
  {
    var e := Tally(rows);
    TallySpec(rows, e[i].row);
    CountOfEntry(e, i);
    assert HasEntry(e, e[i].row);
  }

  // ---------------------------------------------------------------------
  // The reports.

  function TargetOfRow(e: RowCount): string
  {
    e.row.target
  }

  /** The `all_calls` report: the counted rows sorted by target. */
  function AllCalls(t: CallTables, calls: seq<TerminatorCall>): Result<seq<RowCount>, CallsError>
  {
    var rows := Rows(t, calls);
    if rows.Err? then Err(rows.error) else Ok(SortBy(Tally(rows.value), TargetOfRow))
  }

  predicate CrossesCrates(e: RowCount)
  {
    e.row.callerCrate != e.row.targetCrate
  }

  /** The `cross_crate_calls` report. */
  function CrossCrateCalls(all: seq<RowCount>): seq<RowCount>
  {
    if all == [] then []
    else CrossCrateCalls(all[..|all| - 1]) + if CrossesCrates(all[|all| - 1]) then [all[|all| - 1]] else []
  }

  /** Sorting keeps the total. */
  lemma {:induction false} TotalInsert(x: RowCount, s: seq<RowCount>)
    ensures Total(InsertBy(x, s, TargetOfRow)) == Total(s) + x.count
  {
    if s != [] && !StringLe(TargetOfRow(x), TargetOfRow(s[0])) {
      TotalInsert(x, s[1..]);
    }
  }

  lemma {:induction false} TotalSort(s: seq<RowCount>)
    ensures Total(SortBy(s, TargetOfRow)) == Total(s)
  {
    if s != [] {
      TotalSort(s[1..]);
      TotalInsert(s[0], SortBy(s[1..], TargetOfRow));
    }
  }

  /** The `all_calls` report is sorted by target, holds the counted rows
      (no more, no fewer), and its counts add up to the number of calls
      with a constant target. */
  lemma AllCallsSpec(t: CallTables, calls: seq<TerminatorCall>)
    requires AllCalls(t, calls).Ok?
    ensures SortedBy(AllCalls(t, calls).value, TargetOfRow)
    ensures multiset(AllCalls(t, calls).value) == multiset(Tally(Rows(t, calls).value))
    ensures Total(AllCalls(t, calls).value) == |Kept(t, calls)|
  {
    var rows := Rows(t, calls).value;
    SortByCorrect(Tally(rows), TargetOfRow);
    TotalSort(Tally(rows));
    TallySpec(rows, CallRow("", "", "", "", "", "", "", ""));
    RowsSpec(t, calls, CallRow("", "", "", "", "", "", "", ""));
  }

  /** A report row describes calls that some call produced, and how many. */
  lemma AllCallsMember(t: CallTables, calls: seq<TerminatorCall>, e: RowCount)
    requires AllCalls(t, calls).Ok? && e in AllCalls(t, calls).value
    ensures e.count == multiset(Rows(t, calls).value)[e.row] && e.count >= 1
    ensures exists i :: 0 <= i < |calls| && RowOf(t, calls[i]) == Ok(Some(e.row))
  {
    var rows := Rows(t, calls).value;
    var tally := Tally(rows);
    SortByCorrect(tally, TargetOfRow);
    assert e in multiset(tally);
    var i :| 0 <= i < |tally| && tally[i] == e;
    TallySpec(rows, e.row);
    CountOfEntry(tally, i);
    TallyPositive(rows, i);
    assert HasEntry(tally, e.row);
    RowsSpec(t, calls, e.row);
  }

  /** The cross-crate report keeps, in order, exactly the rows whose caller
      crate differs from the target crate. */
  lemma {:induction false} CrossCrateCallsSpec(all: seq<RowCount>, e: RowCount)
    ensures e in CrossCrateCalls(all) <==> e in all && CrossesCrates(e)
    ensures |CrossCrateCalls(all)| <= |all|
  {
    if all != [] {
      var init := all[..|all| - 1];
      CrossCrateCallsSpec(init, e);
      assert all == init + [all[|all| - 1]];
      if !CrossesCrates(all[|all| - 1]) {
        assert CrossCrateCalls(all) == CrossCrateCalls(init) + [];
      }
    }
  }

  /** The cross-crate report of a sorted report is sorted too. */
  lemma {:induction false} CrossCrateCallsSorted(all: seq<RowCount>)
    requires SortedBy(all, TargetOfRow)
    ensures SortedBy(CrossCrateCalls(all), TargetOfRow)
  {
    if all != [] {
      var init := all[..|all| - 1];
      var last := all[|all| - 1];
      assert SortedBy(init, TargetOfRow) by {
        forall i, j | 0 <= i < j < |init|
          ensures StringLe(TargetOfRow(init[i]), TargetOfRow(init[j]))
        {
          assert init[i] == all[i] && init[j] == all[j];
        }
      }
      CrossCrateCallsSorted(init);
      var c := CrossCrateCalls(init);
      if CrossesCrates(last) {
        var r := c + [last];
        forall i, j | 0 <= i < j < |r|
          ensures StringLe(TargetOfRow(r[i]), TargetOfRow(r[j]))
        {
          if j == |c| {
            CrossCrateCallsSpec(init, r[i]);
            assert r[i] in init;
            var k :| 0 <= k < |init| && init[k] == r[i];
            assert all[k] == r[i];
          }
        }
      }
    }
  }
}
