/** The rustql linker: reads every crate summary and links them into one
    database, filling its tables step by step. */
module RustqlLinker {
  import opened RustqlData
  import opened RustqlTuples
  import opened RustqlLinkSpec

  /** The `modules_in_crates` and `modules_in_modules` facts of one crate. */
  method AddModuleFacts(db: Database, mods: seq<Mod>, modOffset: nat, krateId: CrateId)
    modifies db`modulesInCrates, db`modulesInModules
    ensures db.modulesInCrates == old(db.modulesInCrates) + ModCrateFacts(mods, modOffset, krateId)
    ensures db.modulesInModules == old(db.modulesInModules) + ParentFacts(mods, modOffset)
    ensures unchanged(db`crates, db`types, db`typeFinder, db`functionCalls, db`argumentTypes, db`isReferenceTo, db`tuple, db`slice, db`isStructType, db`fieldTypes, db`returnType)
  {
    var j := 0;
    while j < |mods|
      invariant j <= |mods|
      invariant db.modulesInCrates == old(db.modulesInCrates) + ModCrateFacts(mods[..j], modOffset, krateId)
      invariant db.modulesInModules == old(db.modulesInModules) + ParentFacts(mods[..j], modOffset)
    {
      var m := mods[j];
      db.modulesInCrates := db.modulesInCrates + [(modOffset + j, krateId)];
      if m.parentMod.Some? {
        db.modulesInModules := db.modulesInModules + [(modOffset + j, modOffset + m.parentMod.value)];
      }
      assert mods[..j + 1][..j] == mods[..j];
      j := j + 1;
    }
    assert mods[..j] == mods;
  }

  /** The `functions_in_modules` facts of one crate. */
  method AddFunctionModules(db: Database, fs: seq<Function>, fnOffset: nat, modOffset: nat)
    modifies db`functionsInModules
    ensures db.functionsInModules == old(db.functionsInModules) + FnModFacts(fs, fnOffset, modOffset)
    ensures unchanged(db`crates, db`types, db`typeFinder, db`functionCalls, db`argumentTypes, db`isReferenceTo, db`tuple, db`slice, db`isStructType, db`fieldTypes, db`returnType)
  {
    var j := 0;
    while j < |fs|
      invariant j <= |fs|
      invariant db.functionsInModules == old(db.functionsInModules) + FnModFacts(fs[..j], fnOffset, modOffset)
    {
      db.functionsInModules := db.functionsInModules + [(fnOffset + j, modOffset + fs[j].containingMod)];
      j := j + 1;
    }
    assert fs[..j] == fs;
  }

  /** Adds one crate: its modules, functions and structs numbered after
      those already held, the finder entries of its functions, and its
      module and function facts. */
  method AddCrate(db: Database, krateId: CrateId, krate: Crate)
    modifies db`modules, db`functions, db`functionFinder, db`structs
    modifies db`modulesInCrates, db`modulesInModules, db`functionsInModules
    ensures TablesIn(db) == PlaceCrate(old(TablesIn(db)), krateId, krate)
    ensures unchanged(db`crates, db`types, db`typeFinder, db`functionCalls, db`argumentTypes, db`isReferenceTo, db`tuple, db`slice, db`isStructType, db`fieldTypes, db`returnType)
  {
    var modOffset := |db.modules|;
    var fnOffset := |db.functions|;
    db.modules := db.modules + Numbered(krate.mods, modOffset);
    db.functions := db.functions + Numbered(krate.functions, fnOffset);
    db.functionFinder := FinderInsert(db.functionFinder, krate.metadata, krate.functions, fnOffset);
    db.structs := db.structs + Numbered(krate.structs, |db.structs|);
    AddModuleFacts(db, krate.mods, modOffset, krateId);
    AddFunctionModules(db, krate.functions, fnOffset, modOffset);
  }

  /** Adds the crates in order, each numbered after those before it. */
  method AddCrates(db: Database, crates: seq<Crate>)
    requires HoldsCrates(db, [])
    modifies db`modules, db`functions, db`functionFinder, db`structs
    modifies db`modulesInCrates, db`modulesInModules, db`functionsInModules
    ensures HoldsCrates(db, crates)
    ensures unchanged(db`crates, db`types, db`typeFinder, db`functionCalls, db`argumentTypes, db`isReferenceTo, db`tuple, db`slice, db`isStructType, db`fieldTypes, db`returnType)
  {
    var k := 0;
    while k < |crates|
      invariant k <= |crates|
      invariant HoldsCrates(db, crates[..k])
      invariant unchanged(db`crates, db`types, db`typeFinder, db`functionCalls, db`argumentTypes, db`isReferenceTo, db`tuple, db`slice, db`isStructType, db`fieldTypes, db`returnType)
    {
      TablesSnoc(crates, k);
      AddCrate(db, k, crates[k]);
      k := k + 1;
    }
    assert crates[..k] == crates;
  }

  /** Links one function's calls through the finder, returning how many it
      does not know. */
  method LinkFunctionCalls(db: Database, fId: FunctionId, calls: seq<GlobalDefPath>) returns (misses: nat)
    modifies db`functionCalls
    ensures db.functionCalls == old(db.functionCalls) + CallsOf(fId, calls, db.functionFinder)
    ensures misses == MissesOf(calls, db.functionFinder)
    ensures unchanged(db`functions, db`functionFinder)
  {
    misses := 0;
    var c := 0;
    while c < |calls|
      invariant c <= |calls|
      invariant db.functionCalls == old(db.functionCalls) + CallsOf(fId, calls[..c], db.functionFinder)
      invariant misses == MissesOf(calls[..c], db.functionFinder)
    {
      var call := calls[c];
      var key := (call.crateIdent, call.defPath);
      if key in db.functionFinder {
        db.functionCalls := db.functionCalls + [(fId, db.functionFinder[key])];
      } else {
        misses := misses + 1;
      }
      assert calls[..c + 1][..c] == calls[..c];
      c := c + 1;
    }
    assert calls[..c] == calls;
  }

  /** Interns one function's argument types into `argument_types`. */
  method InternArguments(db: Database, fId: FunctionId, tys: seq<Type>)
    modifies db`types, db`typeFinder, db`argumentTypes
    ensures Interned(TypeTable(db.types, db.typeFinder), db.argumentTypes) == InternFacts(Interned(TypeTable(old(db.types), old(db.typeFinder)), old(db.argumentTypes)), fId, tys)
    ensures unchanged(db`functions, db`functionFinder, db`functionCalls)
  {
    var a := 0;
    while a < |tys|
      invariant a <= |tys|
      invariant Interned(TypeTable(db.types, db.typeFinder), db.argumentTypes) == InternFacts(Interned(TypeTable(old(db.types), old(db.typeFinder)), old(db.argumentTypes)), fId, tys[..a])
    {
      var typeId := db.AddTypeOrGet(tys[a]);
      db.argumentTypes := db.argumentTypes + [(fId, typeId)];
      assert tys[..a + 1][..a] == tys[..a];
      a := a + 1;
    }
    assert tys[..a] == tys;
  }

  /** Links every function's calls through the finder, counting the calls
      it does not know, and interns every argument type. */
  method LinkCalls(db: Database) returns (fails: nat)
    modifies db`functionCalls, db`types, db`typeFinder, db`argumentTypes
    ensures db.functionCalls == old(db.functionCalls) + CallFacts(db.functions, db.functionFinder)
    ensures fails == Misses(db.functions, db.functionFinder)
    ensures Interned(TypeTable(db.types, db.typeFinder), db.argumentTypes) ==
            InternOwners(Interned(TypeTable(old(db.types), old(db.typeFinder)), old(db.argumentTypes)), ArgOwners(db.functions))
  {
    var fs := db.functions;
    ghost var finder := db.functionFinder;
    ghost var start := Interned(TypeTable(db.types, db.typeFinder), db.argumentTypes);
    fails := 0;
    var i := 0;
    while i < |fs|
      invariant i <= |fs|
      invariant db.functions == fs && db.functionFinder == finder
      invariant db.functionCalls == old(db.functionCalls) + CallFacts(fs[..i], finder)
      invariant fails == Misses(fs[..i], finder)
      invariant Interned(TypeTable(db.types, db.typeFinder), db.argumentTypes) == InternOwners(start, ArgOwners(fs[..i]))
    {
      var (fId, func) := fs[i];
      var misses := LinkFunctionCalls(db, fId, func.calls);
      fails := fails + misses;
      InternArguments(db, fId, func.argumentTypes);
      assert fs[..i + 1][..i] == fs[..i];
      assert ArgOwners(fs[..i + 1])[..i] == ArgOwners(fs[..i]);
      i := i + 1;
    }
    assert fs[..i] == fs;
  }

  /** Interns every field type of every struct into `field_types`. */
  method AddFieldTypes(db: Database)
    modifies db`types, db`typeFinder, db`fieldTypes
    ensures Interned(TypeTable(db.types, db.typeFinder), db.fieldTypes) ==
            InternOwners(Interned(TypeTable(old(db.types), old(db.typeFinder)), old(db.fieldTypes)), FieldOwners(db.structs))
  {
    var i := 0;
    while i < |db.structs|
      invariant i <= |db.structs|
      invariant Interned(TypeTable(db.types, db.typeFinder), db.fieldTypes) ==
                InternOwners(Interned(TypeTable(old(db.types), old(db.typeFinder)), old(db.fieldTypes)), FieldOwners(db.structs[..i]))
    {
      var (sId, st) := db.structs[i];
      var start := Interned(TypeTable(db.types, db.typeFinder), db.fieldTypes);
      var j := 0;
      while j < |st.fields|
        invariant j <= |st.fields|
        invariant Interned(TypeTable(db.types, db.typeFinder), db.fieldTypes) == InternFacts(start, sId, FieldTypes(st.fields)[..j])
      {
        var typeId := db.AddTypeOrGet(st.fields[j].1);
        db.fieldTypes := db.fieldTypes + [(sId, typeId)];
        assert FieldTypes(st.fields)[..j + 1][..j] == FieldTypes(st.fields)[..j];
        j := j + 1;
      }
      assert FieldTypes(st.fields)[..j] == FieldTypes(st.fields);
      assert db.structs[..i + 1][..i] == db.structs[..i];
      assert FieldOwners(db.structs[..i + 1])[..i] == FieldOwners(db.structs[..i]);
      i := i + 1;
    }
    assert db.structs[..i] == db.structs;
  }

  /** Interns every function's return type into `return_type`. */
  method AddReturnTypes(db: Database)
    modifies db`types, db`typeFinder, db`returnType
    ensures Interned(TypeTable(db.types, db.typeFinder), db.returnType) ==
            InternOwners(Interned(TypeTable(old(db.types), old(db.typeFinder)), old(db.returnType)), ReturnOwners(db.functions))
  {
    var i := 0;
    while i < |db.functions|
      invariant i <= |db.functions|
      invariant Interned(TypeTable(db.types, db.typeFinder), db.returnType) ==
                InternOwners(Interned(TypeTable(old(db.types), old(db.typeFinder)), old(db.returnType)), ReturnOwners(db.functions[..i]))
    {
      var (fId, f) := db.functions[i];
      InternFactsOne(Interned(TypeTable(db.types, db.typeFinder), db.returnType), fId, f.returnType);
      var typeId := db.AddTypeOrGet(f.returnType);
      db.returnType := db.returnType + [(fId, typeId)];
      assert db.functions[..i + 1][..i] == db.functions[..i];
      assert ReturnOwners(db.functions[..i + 1])[..i] == ReturnOwners(db.functions[..i]);
      i := i + 1;
    }
    assert db.functions[..i] == db.functions;
  }

  /** Calls and argument types, starting from nothing linked; the type
      links, field and return types and the crate tables stay as they are. */
  method ArgsPhase(db: Database, ghost crates: seq<Crate>) returns (fails: nat)
    requires db.functions == Flatten(FunctionParts(crates)) && NoLinks(db)
    modifies db`functionCalls, db`types, db`typeFinder, db`argumentTypes
    ensures db.functionCalls == CallFacts(db.functions, db.functionFinder)
    ensures fails == Misses(db.functions, db.functionFinder)
    ensures (TypeTable(db.types, db.typeFinder), db.argumentTypes) == (ArgsStage(crates).table, ArgsStage(crates).facts)
    ensures unchanged(db`isReferenceTo, db`tuple, db`slice, db`isStructType, db`fieldTypes, db`returnType)
    ensures unchanged(db`crates, db`modules, db`functions, db`structs, db`functionFinder, db`modulesInCrates, db`modulesInModules, db`functionsInModules)
  {
    fails := LinkCalls(db);
  }

  /** Type links, starting from the types of the argument stage; the calls,
      argument, field and return types and the crate tables stay. */
  method LinksPhase(db: Database, ghost crates: seq<Crate>)
    requires db.structs == Flatten(StructParts(crates))
    requires TypeTable(db.types, db.typeFinder) == ArgsStage(crates).table
    requires (db.isReferenceTo, db.tuple, db.slice, db.isStructType) == ([], [], [], [])
    modifies db`types, db`typeFinder, db`isReferenceTo, db`tuple, db`slice, db`isStructType
    ensures Links(TypeTable(db.types, db.typeFinder), db.isReferenceTo, db.tuple, db.slice, db.isStructType) == LinkStage(crates)
    ensures unchanged(db`functionCalls, db`argumentTypes, db`fieldTypes, db`returnType)
    ensures unchanged(db`crates, db`modules, db`functions, db`structs, db`functionFinder, db`modulesInCrates, db`modulesInModules, db`functionsInModules)
  {
    db.LinkTypes();
  }

  /** Field types, starting from the types of the link stage; everything
      else but the type table stays. */
  method FieldsPhase(db: Database, ghost crates: seq<Crate>)
    requires db.structs == Flatten(StructParts(crates))
    requires TypeTable(db.types, db.typeFinder) == LinkStage(crates).table && db.fieldTypes == []
    modifies db`types, db`typeFinder, db`fieldTypes
    ensures Interned(TypeTable(db.types, db.typeFinder), db.fieldTypes) == FieldStage(crates)
    ensures unchanged(db`functionCalls, db`argumentTypes, db`isReferenceTo, db`tuple, db`slice, db`isStructType, db`returnType)
    ensures unchanged(db`crates, db`modules, db`functions, db`structs, db`functionFinder, db`modulesInCrates, db`modulesInModules, db`functionsInModules)
  {
    AddFieldTypes(db);
  }

  /** Return types, starting from the types of the field stage; everything
      else but the type table stays. */
  method ReturnsPhase(db: Database, ghost crates: seq<Crate>)
    requires db.functions == Flatten(FunctionParts(crates))
    requires TypeTable(db.types, db.typeFinder) == FieldStage(crates).table && db.returnType == []
    modifies db`types, db`typeFinder, db`returnType
    ensures Interned(TypeTable(db.types, db.typeFinder), db.returnType) == ReturnStage(crates)
    ensures unchanged(db`functionCalls, db`argumentTypes, db`isReferenceTo, db`tuple, db`slice, db`isStructType, db`fieldTypes)
    ensures unchanged(db`crates, db`modules, db`functions, db`structs, db`functionFinder, db`modulesInCrates, db`modulesInModules, db`functionsInModules)
  {
    AddReturnTypes(db);
  }

  /** The second half of `create_database`: calls, argument types, type
      links, field types and return types, over the numbered crates. */
  method LinkPhase(db: Database, ghost crates: seq<Crate>) returns (fails: nat)
    requires db.functions == Flatten(FunctionParts(crates)) && db.structs == Flatten(StructParts(crates))
    requires NoLinks(db)
    modifies db`functionCalls, db`types, db`typeFinder, db`argumentTypes
    modifies db`isReferenceTo, db`tuple, db`slice, db`isStructType, db`fieldTypes, db`returnType
    ensures HoldsLinks(db, crates)
    ensures fails == Misses(db.functions, db.functionFinder)
    ensures unchanged(db`crates, db`modules, db`functions, db`structs, db`functionFinder, db`modulesInCrates, db`modulesInModules, db`functionsInModules)
  {
    fails := ArgsPhase(db, crates);
    LinksPhase(db, crates);
    FieldsPhase(db, crates);
    ReturnsPhase(db, crates);
  }

  /** The first half of `create_database`: a new database holding the
      crates, their modules, functions and structs, with nothing linked. */
  method PlaceCrates(crates: seq<Crate>) returns (db: Database)
    ensures fresh(db)
    ensures db.crates == Numbered(Metadata(crates), 0)
    ensures HoldsCrates(db, crates) && NoLinks(db)
  {
    db := new Database();
    db.crates := Numbered(Metadata(crates), 0);
    AddCrates(db, crates);
  }

  /** `create_database`: the crates in reading order, linked. */
  method CreateDatabase(crates: seq<Crate>) returns (db: Database, fails: nat)
    ensures db.crates == Numbered(Metadata(crates), 0)
    ensures HoldsCrates(db, crates) && HoldsLinks(db, crates)
    ensures fails == Misses(db.functions, db.functionFinder)
  {
    db := PlaceCrates(crates);
    fails := LinkPhase(db, crates);
  }
}
