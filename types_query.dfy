/** The `types` query: the type definitions of the selected builds, the
    ADTs among them, and the fields of those ADTs with their types' kinds. */
module TypesQuery {
  import opened Wrappers
  import opened QueryUtils

  /** The visibility of a type or field. */
  datatype TyVisibility = Public | Restricted | Invisible

  datatype AdtKind = Struct | Union | Enum

  /** A row of `type_defs`: item, type, def path, name, visibility and the
      kind of definition. */
  datatype TypeDefRow = TypeDefRow(item: nat, typ: nat, defPath: nat, name: nat, visibility: TyVisibility, defKind: nat)

  /** A row of `selected_type_defs`: a type definition with its build and
      the kind of its type. */
  datatype SelectedTypeDef = SelectedTypeDef(build: nat, item: nat, typ: nat, defPath: nat, name: nat,
                                             visibility: TyVisibility, typeKind: nat, defKind: nat)

  /** A row of `types_adt_def`. */
  datatype AdtDefRow = AdtDefRow(typ: nat, defPath: nat, kind: AdtKind, cRepr: bool, isPhantom: bool)

  /** What the `adts` map holds for a type. */
  datatype AdtInfo = AdtInfo(resolvedDefPath: nat, kind: AdtKind, cRepr: bool, isPhantom: bool)

  /** A row of `selected_adts`. */
  datatype SelectedAdt = SelectedAdt(def: SelectedTypeDef, info: AdtInfo)

  /** A row of `types_adt_field`: field, ADT, variant, def path, name,
      visibility and the field's type. */
  datatype AdtFieldRow = AdtFieldRow(field: nat, adt: nat, variant: nat, defPath: nat, name: nat,
                                     visibility: TyVisibility, typ: nat)

  /** A row of `selected_adt_field_types`. */
  datatype SelectedAdtField = SelectedAdtField(adt: SelectedAdt, field: AdtFieldRow, fieldTypeKind: nat)

  /** Indexing a map with a missing key panics in the source. */
  datatype TypesError = UnknownDefPath | UnknownType(typ: nat)

  function TypeDefPath(t: TypeDefRow): nat
  {
    t.defPath
  }

  function PairWithBuild(build: nat, t: TypeDefRow): (nat, TypeDefRow)
  {
    (build, t)
  }

  /** `types[&typ]` for every selected type definition. */
  function WithTypeKinds(pairs: seq<(nat, TypeDefRow)>, typeKinds: map<nat, nat>): Result<seq<SelectedTypeDef>, TypesError>
  {
    if pairs == [] then Ok([])
    else
      var prev := WithTypeKinds(pairs[..|pairs| - 1], typeKinds);
      var (build, t) := pairs[|pairs| - 1];
      if prev.Err? then prev
      else if t.typ !in typeKinds then Err(UnknownType(t.typ))
      else Ok(prev.value + [SelectedTypeDef(build, t.item, t.typ, t.defPath, t.name, t.visibility, typeKinds[t.typ], t.defKind)])
  }

  /** `selected_type_defs_relation`. */
  function SelectedTypeDefs(typeDefs: seq<TypeDefRow>, selected: seq<SelectedBuild>, defPaths: seq<DefPathValue>,
                            typeKinds: map<nat, nat>): Result<seq<SelectedTypeDef>, TypesError>
  {
    var pairs := FilterSelected(typeDefs, selected, defPaths, TypeDefPath, PairWithBuild);
    if pairs.None? then Err(UnknownDefPath) else WithTypeKinds(pairs.value, typeKinds)
  }

  lemma {:induction false} WithTypeKindsSpec(pairs: seq<(nat, TypeDefRow)>, typeKinds: map<nat, nat>, s: SelectedTypeDef)
    ensures WithTypeKinds(pairs, typeKinds).Ok? <==> forall p :: p in pairs ==> p.1.typ in typeKinds
    ensures WithTypeKinds(pairs, typeKinds).Ok? ==>
      (s in WithTypeKinds(pairs, typeKinds).value <==>
        exists p :: p in pairs && p.1.typ in typeKinds &&
          s == SelectedTypeDef(p.0, p.1.item, p.1.typ, p.1.defPath, p.1.name, p.1.visibility, typeKinds[p.1.typ], p.1.defKind))
  {
    if pairs != [] {
      var init := pairs[..|pairs| - 1];
      WithTypeKindsSpec(init, typeKinds, s);
      assert pairs == init + [pairs[|pairs| - 1]];
    }
  }

  /** A selected type definition is exactly a type definition from a
      selected build, paired with that build and with its type's kind; the
      query fails when a selected type has no kind. */
  lemma SelectedTypeDefsSpec(typeDefs: seq<TypeDefRow>, selected: seq<SelectedBuild>, defPaths: seq<DefPathValue>,
                             typeKinds: map<nat, nat>, s: SelectedTypeDef)
    requires forall j :: 0 <= j < |typeDefs| ==> typeDefs[j].defPath < |defPaths|
    requires forall j :: 0 <= j < |typeDefs| ==> typeDefs[j].typ in typeKinds
    ensures SelectedTypeDefs(typeDefs, selected, defPaths, typeKinds).Ok?
    ensures s in SelectedTypeDefs(typeDefs, selected, defPaths, typeKinds).value <==>
      exists j ::
        0 <= j < |typeDefs| && BuildOfDefPath(selected, defPaths, typeDefs[j].defPath).Some? &&
        var t := typeDefs[j];
        s == SelectedTypeDef(BuildOfDefPath(selected, defPaths, t.defPath).value, t.item, t.typ, t.defPath, t.name,
                             t.visibility, typeKinds[t.typ], t.defKind)
  {
    var pairs := FilterSelected(typeDefs, selected, defPaths, TypeDefPath, PairWithBuild).value;
    forall p | p in pairs
      ensures p.1.typ in typeKinds
      ensures exists j ::
                0 <= j < |typeDefs| && BuildOfDefPath(selected, defPaths, typeDefs[j].defPath).Some? &&
                p == (BuildOfDefPath(selected, defPaths, typeDefs[j].defPath).value, typeDefs[j])
    {
      FilterSelectedMember(typeDefs, selected, defPaths, TypeDefPath, PairWithBuild, p);
    }
    WithTypeKindsSpec(pairs, typeKinds, s);
    if exists j ::
        0 <= j < |typeDefs| && BuildOfDefPath(selected, defPaths, typeDefs[j].defPath).Some? &&
        var t := typeDefs[j];
        s == SelectedTypeDef(BuildOfDefPath(selected, defPaths, t.defPath).value, t.item, t.typ, t.defPath, t.name,
                             t.visibility, typeKinds[t.typ], t.defKind) {
      var j :|
        0 <= j < |typeDefs| && BuildOfDefPath(selected, defPaths, typeDefs[j].defPath).Some? &&
        var t := typeDefs[j];
        s == SelectedTypeDef(BuildOfDefPath(selected, defPaths, t.defPath).value, t.item, t.typ, t.defPath, t.name,
                             t.visibility, typeKinds[t.typ], t.defKind);
      var p := (BuildOfDefPath(selected, defPaths, typeDefs[j].defPath).value, typeDefs[j]);
      FilterSelectedMember(typeDefs, selected, defPaths, TypeDefPath, PairWithBuild, p);
    }
  }

  function AdtDefType(r: AdtDefRow): nat
  {
    r.typ
  }

  function AdtDefInfo(r: AdtDefRow): AdtInfo
  {
    AdtInfo(r.defPath, r.kind, r.cRepr, r.isPhantom)
  }

  /** The `adts` map: type to its ADT definition. */
  function AdtMap(adtDefs: seq<AdtDefRow>): map<nat, AdtInfo>
  {
    CollectMap(adtDefs, AdtDefType, AdtDefInfo)
  }

  /** `selected_adts_relation`: the selected type definitions with an ADT
      definition, in order. */
  function SelectedAdts(defs: seq<SelectedTypeDef>, adts: map<nat, AdtInfo>): (r: seq<SelectedAdt>)
  {
    if defs == [] then []
    else
      var d := defs[|defs| - 1];
      SelectedAdts(defs[..|defs| - 1], adts) + (if d.typ in adts then [SelectedAdt(d, adts[d.typ])] else [])
  }

  /** At most one ADT row per selected type definition, and exactly the
      definitions whose type has an ADT definition. */
  lemma {:induction false} SelectedAdtsSpec(defs: seq<SelectedTypeDef>, adts: map<nat, AdtInfo>, a: SelectedAdt)
    ensures |SelectedAdts(defs, adts)| <= |defs|
    ensures a in SelectedAdts(defs, adts) <==> a.def in defs && a.def.typ in adts && a.info == adts[a.def.typ]
  {
    if defs != [] {
      var init := defs[..|defs| - 1];
      SelectedAdtsSpec(init, adts, a);
      assert defs == init + [defs[|defs| - 1]];
    }
  }

  function SelectedAdtType(a: SelectedAdt): nat
  {
    a.def.typ
  }

  function SelectedAdtSelf(a: SelectedAdt): SelectedAdt
  {
    a
  }

  /** `selected_adts_map`: type to its selected ADT row. */
  function SelectedAdtsMap(selectedAdts: seq<SelectedAdt>): map<nat, SelectedAdt>
  {
    CollectMap(selectedAdts, SelectedAdtType, SelectedAdtSelf)
  }

  /** `selected_adt_field_types_relation`: the fields of selected ADTs with
      their ADT's row and the kind of the field's type. */
  function SelectedAdtFields(fields: seq<AdtFieldRow>, adtsMap: map<nat, SelectedAdt>, typeKinds: map<nat, nat>)
    : Result<seq<SelectedAdtField>, TypesError>
  {
    if fields == [] then Ok([])
    else
      var prev := SelectedAdtFields(fields[..|fields| - 1], adtsMap, typeKinds);
      var f := fields[|fields| - 1];
      if prev.Err? then prev
      else if f.adt !in adtsMap then prev
      else if f.typ !in typeKinds then Err(UnknownType(f.typ))
      else Ok(prev.value + [SelectedAdtField(adtsMap[f.adt], f, typeKinds[f.typ])])
  }

  /** Field rows exist exactly for the fields of selected ADTs; each reuses
      its ADT's row (build, item, def paths) and carries the kind of the
      field's type. The query fails exactly when such a field's type has no
      kind. */
  lemma {:induction false} SelectedAdtFieldsSpec(fields: seq<AdtFieldRow>, adtsMap: map<nat, SelectedAdt>,
                                                 typeKinds: map<nat, nat>, r: SelectedAdtField)
    ensures SelectedAdtFields(fields, adtsMap, typeKinds).Ok? <==>
      forall f :: f in fields && f.adt in adtsMap ==> f.typ in typeKinds
    ensures SelectedAdtFields(fields, adtsMap, typeKinds).Ok? ==>
      (r in SelectedAdtFields(fields, adtsMap, typeKinds).value <==>
        r.field in fields && r.field.adt in adtsMap && r.adt == adtsMap[r.field.adt] &&
        r.field.typ in typeKinds && r.fieldTypeKind == typeKinds[r.field.typ])
  {
    if fields != [] {
      var init := fields[..|fields| - 1];
      SelectedAdtFieldsSpec(init, adtsMap, typeKinds, r);
      assert fields == init + [fields[|fields| - 1]];
    }
  }

  /** A field row's ADT is a selected ADT of that type. */
  lemma SelectedAdtFieldFromSelected(defs: seq<SelectedTypeDef>, adts: map<nat, AdtInfo>, fields: seq<AdtFieldRow>,
                                     typeKinds: map<nat, nat>, r: SelectedAdtField)
    requires SelectedAdtFields(fields, SelectedAdtsMap(SelectedAdts(defs, adts)), typeKinds).Ok?
    requires r in SelectedAdtFields(fields, SelectedAdtsMap(SelectedAdts(defs, adts)), typeKinds).value
    ensures r.adt in SelectedAdts(defs, adts) && r.adt.def.typ == r.field.adt
    ensures r.adt.def in defs
  {
    var sa := SelectedAdts(defs, adts);
    var m := SelectedAdtsMap(sa);
    SelectedAdtFieldsSpec(fields, m, typeKinds, r);
    CollectMapSpec(sa, SelectedAdtType, SelectedAdtSelf, r.field.adt);
    SelectedAdtsSpec(defs, adts, r.adt);
  }
}
