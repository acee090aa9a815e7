/** The `traits` query: all traits, the traits of the selected builds with
    how many impls name each, and the selected impl definitions of traits. */
module TraitsQuery {
  import opened Wrappers
  import opened QueryUtils

  /** A row of `traits`. */
  datatype TraitRow = TraitRow(item: nat, defPath: nat, name: nat, visibility: nat, isAuto: bool, isMarker: bool,
                               unsafety: nat)

  /** A row of `all_traits`: the resolved def path and the trait's flags. */
  datatype AllTraitRow = AllTraitRow(defPath: (string, string, string, string, string), item: nat, visibility: nat,
                                     unsafety: nat, isAuto: bool, isMarker: bool)

  /** `all_traits`; resolving an unknown def path panics in the source. */
  function AllTraits(traits: seq<TraitRow>, t: DefPathTables): Result<seq<AllTraitRow>, nat>
  {
    if traits == [] then Ok([])
    else
      var prev := AllTraits(traits[..|traits| - 1], t);
      var r := traits[|traits| - 1];
      var d := ResolveDefPath(t, r.defPath);
      if prev.Err? then prev
      else if d.None? then Err(r.defPath)
      else Ok(prev.value + [AllTraitRow(d.value, r.item, r.visibility, r.unsafety, r.isAuto, r.isMarker)])
  }

  /** One row per trait, in input order. */
  lemma {:induction false} AllTraitsSpec(traits: seq<TraitRow>, t: DefPathTables)
    ensures AllTraits(traits, t).Ok? <==> forall i :: 0 <= i < |traits| ==> ResolveDefPath(t, traits[i].defPath).Some?
    ensures AllTraits(traits, t).Ok? ==>
      var rows := AllTraits(traits, t).value;
      |rows| == |traits| &&
      forall i :: 0 <= i < |traits| ==>
        rows[i] == AllTraitRow(ResolveDefPath(t, traits[i].defPath).value, traits[i].item, traits[i].visibility,
                               traits[i].unsafety, traits[i].isAuto, traits[i].isMarker)
  {
    if traits != [] {
      var init := traits[..|traits| - 1];
      AllTraitsSpec(init, t);
      forall i | 0 <= i < |init|
        ensures init[i] == traits[i]
      {
      }
    }
  }

  function TraitDefPath(r: TraitRow): nat
  {
    r.defPath
  }

  function SelectedTrait(build: nat, r: TraitRow): (nat, TraitRow)
  {
    (build, r)
  }

  /** `selected_traits_relation`. */
  function SelectedTraits(traits: seq<TraitRow>, selected: seq<SelectedBuild>, defPaths: seq<DefPathValue>)
    : Option<seq<(nat, TraitRow)>>
  {
    FilterSelected(traits, selected, defPaths, TraitDefPath, SelectedTrait)
  }

  /** A row of `trait_impls`: impl item, implementing type, trait. */
  datatype TraitImpl = TraitImpl(item: nat, typ: nat, traitDefPath: nat)

  function ImplTrait(i: TraitImpl): int
  {
    i.traitDefPath
  }

  /** The group sizes, collected into a map. */
  function GroupCounts<T>(groups: seq<(int, seq<T>)>): map<int, nat>
  {
    if groups == [] then map[]
    else GroupCounts(groups[..|groups| - 1])[groups[|groups| - 1].0 := |groups[|groups| - 1].1|]
  }

  /** `trait_impl_counts`. */
  function TraitImplCounts(impls: seq<TraitImpl>): map<int, nat>
  {
    GroupCounts(SafeGroupBy(impls, ImplTrait))
  }

  /** `trait_impl_counts.get(&def_path).cloned().unwrap_or(0)`. */
  function ImplCount(counts: map<int, nat>, defPath: nat): nat
  {
    if defPath in counts then counts[defPath] else 0
  }

  lemma {:induction false} GroupCountsAt<T>(groups: seq<(int, seq<T>)>, k: int)
    requires forall i, j :: 0 <= i < j < |groups| ==> groups[i].0 < groups[j].0
    ensures k in GroupCounts(groups) <==> exists i :: 0 <= i < |groups| && groups[i].0 == k
    ensures forall i :: 0 <= i < |groups| && groups[i].0 == k ==> GroupCounts(groups)[k] == |groups[i].1|
  {
    if groups != [] {
      var init := groups[..|groups| - 1];
      GroupCountsAt(init, k);
      forall i | 0 <= i < |init|
        ensures init[i] == groups[i]
      {
      }
    }
  }

  /** A trait's impl count is the number of `trait_impls` rows naming it,
      and 0 when there are none. */
  lemma TraitImplCountsSpec(impls: seq<TraitImpl>, defPath: nat)
    ensures ImplCount(TraitImplCounts(impls), defPath) == |KeyFilter(impls, ImplTrait, defPath)|
  {
    var g := SafeGroupBy(impls, ImplTrait);
    SafeGroupByCorrect(impls, ImplTrait);
    GroupCountsAt(g, defPath);
    var own := KeyFilter(impls, ImplTrait, defPath);
    if own != [] {
      KeyFilterMember(impls, ImplTrait, defPath, own[0]);
      var i :| 0 <= i < |g| && g[i].0 == ImplTrait(own[0]) && own[0] in g[i].1;
    } else {
      forall i | 0 <= i < |g|
        ensures g[i].0 != defPath
      {
        assert g[i].1 != [] && g[i].1 == KeyFilter(impls, ImplTrait, g[i].0);
      }
    }
  }

  /** A row of `selected_traits`: build, trait and its impl count. */
  datatype SelectedTraitRow = SelectedTraitRow(build: nat, trait_: TraitRow, implCount: nat)

  function WithImplCounts(selectedTraits: seq<(nat, TraitRow)>, counts: map<int, nat>): seq<SelectedTraitRow>
  {
    if selectedTraits == [] then []
    else
      var p := selectedTraits[|selectedTraits| - 1];
      WithImplCounts(selectedTraits[..|selectedTraits| - 1], counts) + [SelectedTraitRow(p.0, p.1, ImplCount(counts, p.1.defPath))]
  }

  lemma {:induction false} WithImplCountsMember(selectedTraits: seq<(nat, TraitRow)>, counts: map<int, nat>,
                                                s: SelectedTraitRow)
    ensures s in WithImplCounts(selectedTraits, counts) <==>
      (s.build, s.trait_) in selectedTraits && s.implCount == ImplCount(counts, s.trait_.defPath)
  {
    if selectedTraits != [] {
      var init := selectedTraits[..|selectedTraits| - 1];
      WithImplCountsMember(init, counts, s);
      var p := selectedTraits[|selectedTraits| - 1];
      assert selectedTraits == init + [p];
      assert s == SelectedTraitRow(p.0, p.1, ImplCount(counts, p.1.defPath)) <==>
        (s.build, s.trait_) == p && s.implCount == ImplCount(counts, s.trait_.defPath);
    }
  }

  /** A selected trait row is a trait of a selected build with the number
      of impls that name it. */
  lemma SelectedTraitRowsSpec(traits: seq<TraitRow>, selected: seq<SelectedBuild>, defPaths: seq<DefPathValue>,
                              impls: seq<TraitImpl>, s: SelectedTraitRow)
    requires SelectedTraits(traits, selected, defPaths).Some?
    ensures s in WithImplCounts(SelectedTraits(traits, selected, defPaths).value, TraitImplCounts(impls)) <==>
      (exists j ::
         0 <= j < |traits| && traits[j] == s.trait_ &&
         BuildOfDefPath(selected, defPaths, traits[j].defPath) == Some(s.build)) &&
      s.implCount == |KeyFilter(impls, ImplTrait, s.trait_.defPath)|
  {
    WithImplCountsMember(SelectedTraits(traits, selected, defPaths).value, TraitImplCounts(impls), s);
    FilterSelectedMember(traits, selected, defPaths, TraitDefPath, SelectedTrait, (s.build, s.trait_));
    TraitImplCountsSpec(impls, s.trait_.defPath);
  }

  /** A row of `impl_definitions`, with the columns the report reads. */
  datatype ImplDefinition = ImplDefinition(defPath: nat, item: nat, visibility: nat, unsafety: nat, polarity: nat,
                                           defaultness: nat, constness: nat, typ: nat)

  function ImplDefPath(d: ImplDefinition): nat
  {
    d.defPath
  }

  function SelectedImpl(build: nat, d: ImplDefinition): (nat, ImplDefinition)
  {
    (build, d)
  }

  function ImplItem(i: TraitImpl): nat
  {
    i.item
  }

  function ImplTraitDefPath(i: TraitImpl): nat
  {
    i.traitDefPath
  }

  /** `impl_traits`: impl item to the trait it implements. */
  function ImplTraits(impls: seq<TraitImpl>): map<nat, nat>
  {
    CollectMap(impls, ImplItem, ImplTraitDefPath)
  }

  /** The `selected_impl_definitions` rows: build, impl definition and the
      implemented trait, for the impls whose item implements a trait. */
  function ImplsOfTraits(selectedImpls: seq<(nat, ImplDefinition)>, implTraits: map<nat, nat>)
    : seq<(nat, ImplDefinition, nat)>
  {
    if selectedImpls == [] then []
    else
      var p := selectedImpls[|selectedImpls| - 1];
      ImplsOfTraits(selectedImpls[..|selectedImpls| - 1], implTraits) +
        (if p.1.item in implTraits then [(p.0, p.1, implTraits[p.1.item])] else [])
  }

  lemma {:induction false} ImplsOfTraitsMember(selectedImpls: seq<(nat, ImplDefinition)>, implTraits: map<nat, nat>,
                                               r: (nat, ImplDefinition, nat))
    ensures r in ImplsOfTraits(selectedImpls, implTraits) <==>
      (r.0, r.1) in selectedImpls && r.1.item in implTraits && r.2 == implTraits[r.1.item]
  {
    if selectedImpls != [] {
      var init := selectedImpls[..|selectedImpls| - 1];
      ImplsOfTraitsMember(init, implTraits, r);
      var p := selectedImpls[|selectedImpls| - 1];
      assert selectedImpls == init + [p];
      if p.1.item in implTraits {
        assert r == (p.0, p.1, implTraits[p.1.item]) <==> (r.0, r.1) == p && r.2 == implTraits[p.1.item];
      }
    }
  }

  /** An impl definition is reported only when it belongs to a selected
      build and its item implements a trait, and then with the trait of the
      last `trait_impls` row for that item. */
  lemma ImplsOfTraitsSpec(defs: seq<ImplDefinition>, selected: seq<SelectedBuild>, defPaths: seq<DefPathValue>,
                          impls: seq<TraitImpl>, r: (nat, ImplDefinition, nat))
    requires FilterSelected(defs, selected, defPaths, ImplDefPath, SelectedImpl).Some?
    requires r in ImplsOfTraits(FilterSelected(defs, selected, defPaths, ImplDefPath, SelectedImpl).value, ImplTraits(impls))
    ensures exists j :: 0 <= j < |defs| && defs[j] == r.1 && BuildOfDefPath(selected, defPaths, defs[j].defPath) == Some(r.0)
    ensures exists i ::
              0 <= i < |impls| && impls[i].item == r.1.item && impls[i].traitDefPath == r.2 &&
              forall j :: i < j < |impls| ==> impls[j].item != r.1.item
  {
    var sel := FilterSelected(defs, selected, defPaths, ImplDefPath, SelectedImpl).value;
    ImplsOfTraitsMember(sel, ImplTraits(impls), r);
    FilterSelectedMember(defs, selected, defPaths, ImplDefPath, SelectedImpl, (r.0, r.1));
    CollectMapSpec(impls, ImplItem, ImplTraitDefPath, r.1.item);
  }
}
