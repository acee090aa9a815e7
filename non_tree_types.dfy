/** The `non_tree_types` query: the selected ADTs that have a raw-pointer
    field and so may be non-tree data structures. */
module NonTreeTypesQuery {
  import opened TypesQuery

  /** The Datalog rule: an ADT with a field whose type is a raw pointer. */
  function NonTreeTypes(fields: set<AdtFieldRow>, rawPtrs: set<nat>): set<nat>
  {
    set f | f in fields && f.typ in rawPtrs :: f.adt
  }

  /** The reported rows: the selected ADTs whose type is non-tree, in
      selected-ADT order. `c_repr` is carried along but does not filter. */
  function NonTreeAdts(selectedAdts: seq<SelectedAdt>, nonTree: set<nat>): seq<SelectedAdt>
  {
    if selectedAdts == [] then []
    else
      var a := selectedAdts[|selectedAdts| - 1];
      NonTreeAdts(selectedAdts[..|selectedAdts| - 1], nonTree) + (if a.def.typ in nonTree then [a] else [])
  }

  lemma {:induction false} NonTreeAdtsAppend(a: seq<SelectedAdt>, b: seq<SelectedAdt>, nonTree: set<nat>)
    ensures NonTreeAdts(a + b, nonTree) == NonTreeAdts(a, nonTree) + NonTreeAdts(b, nonTree)
    decreases |b|
  {
    if b == [] {
      assert a + b == a;
    } else {
      var init := b[..|b| - 1];
      assert a + b == (a + init) + [b[|b| - 1]];
      assert (a + b)[..|a + b| - 1] == a + init;
      NonTreeAdtsAppend(a, init, nonTree);
    }
  }

  lemma {:induction false} NonTreeAdtsMember(selectedAdts: seq<SelectedAdt>, nonTree: set<nat>, a: SelectedAdt)
    ensures a in NonTreeAdts(selectedAdts, nonTree) <==> a in selectedAdts && a.def.typ in nonTree
  {
    if selectedAdts != [] {
      var init := selectedAdts[..|selectedAdts| - 1];
      NonTreeAdtsMember(init, nonTree, a);
      assert selectedAdts == init + [selectedAdts[|selectedAdts| - 1]];
    }
  }

  /** A reported row is a selected ADT with a raw-pointer field, whatever
      its `c_repr` flag; the rows keep the input's order. */
  lemma NonTreeAdtsSpec(selectedAdts: seq<SelectedAdt>, fields: set<AdtFieldRow>, rawPtrs: set<nat>, a: SelectedAdt)
    ensures a in NonTreeAdts(selectedAdts, NonTreeTypes(fields, rawPtrs)) <==>
      a in selectedAdts && exists f :: f in fields && f.adt == a.def.typ && f.typ in rawPtrs
    ensures forall i :: 0 <= i <= |selectedAdts| ==>
      NonTreeAdts(selectedAdts, NonTreeTypes(fields, rawPtrs)) ==
        NonTreeAdts(selectedAdts[..i], NonTreeTypes(fields, rawPtrs)) + NonTreeAdts(selectedAdts[i..], NonTreeTypes(fields, rawPtrs))
  {
    var nonTree := NonTreeTypes(fields, rawPtrs);
    NonTreeAdtsMember(selectedAdts, nonTree, a);
    assert a.def.typ in nonTree <==> exists f :: f in fields && f.adt == a.def.typ && f.typ in rawPtrs;
    NonTreeAdtsSplit(selectedAdts, nonTree);
  }

  /** The rows of a sequence are the rows of any prefix, then those of the rest. */
  lemma NonTreeAdtsSplit(selectedAdts: seq<SelectedAdt>, nonTree: set<nat>)
    ensures forall i :: 0 <= i <= |selectedAdts| ==>
      NonTreeAdts(selectedAdts, nonTree) == NonTreeAdts(selectedAdts[..i], nonTree) + NonTreeAdts(selectedAdts[i..], nonTree)
  {
    forall i | 0 <= i <= |selectedAdts|
      ensures NonTreeAdts(selectedAdts, nonTree) == NonTreeAdts(selectedAdts[..i], nonTree) + NonTreeAdts(selectedAdts[i..], nonTree)
    {
      assert selectedAdts == selectedAdts[..i] + selectedAdts[i..];
      NonTreeAdtsAppend(selectedAdts[..i], selectedAdts[i..], nonTree);
    }
  }
}
