/** The part of a database schema that decides how a value reaches an
    interning key: the interning tables, each with its key type and its
    value type, and the chain of tables a registration interns through. */
module SchemaDecl {
  import opened Wrappers

  /** The value type of an interning table: a named type or a tuple of them. */
  datatype ValueType = Plain(name: string) | Tuple(elems: seq<string>)

  datatype TableDecl = TableDecl(name: string, key: string, value: ValueType)

  datatype ChainError =
    | AmbiguousTables(key: string)  // two interning tables with the same key type
    | CyclicChain                   // the chain never reaches a non-key type

  /** The tables a registration interns through, innermost first, and the
      type of the registration's parameter. */
  datatype Chain = Chain(tables: seq<TableDecl>, paramType: string)

  /** The chain for `target`, scanning the tables in schema order from `i`,
      with `found` the chain of an earlier table keyed by `target`. Every
      nested lookup spends one unit of `fuel`. */
  function Scan(decls: seq<TableDecl>, target: string, i: nat, found: Option<Chain>, fuel: nat): Result<Chain, ChainError>
    requires i <= |decls|
    decreases fuel, |decls| - i
  {
    if i == |decls| then
      if found.Some? then Ok(found.value) else Ok(Chain([], target))
    else if decls[i].key != target then
      Scan(decls, target, i + 1, found, fuel)
    else if found.Some? then
      Err(AmbiguousTables(target))
    else if decls[i].value.Tuple? then
      Scan(decls, target, i + 1, found, fuel)
    else if fuel == 0 then
      Err(CyclicChain)
    else
      match Scan(decls, decls[i].value.name, 0, None, fuel - 1)
      case Err(e) => Err(e)
      case Ok(inner) => Scan(decls, target, i + 1, Some(Chain(inner.tables + [decls[i]], inner.paramType)), fuel)
  }

  /** The interning chain of a registration whose result has type `target`. */
  function InterningChain(decls: seq<TableDecl>, target: string): Result<Chain, ChainError>
  {
    Scan(decls, target, 0, None, |decls|)
  }

  /** `tables` leads from a value of type `param` to a key of type `target`:
      each table's value type is the key type of the table before it, and
      the last table is keyed by `target`. */
  predicate Connects(tables: seq<TableDecl>, param: string, target: string)
  {
    if tables == [] then param == target
    else
      var last := tables[|tables| - 1];
      last.key == target && last.value.Plain? && Connects(tables[..|tables| - 1], param, last.value.name)
  }

  /** Every chain found connects its parameter type to the target through
      tables of the schema with plain values; a tuple-valued table is never
      entered. */
  lemma {:induction false} ScanSound(decls: seq<TableDecl>, target: string, i: nat, found: Option<Chain>, fuel: nat)
    requires i <= |decls|
    requires found.Some? ==> Connects(found.value.tables, found.value.paramType, target)
    requires found.Some? ==> forall t :: t in found.value.tables ==> t in decls
    ensures Scan(decls, target, i, found, fuel).Ok? ==>
      var c := Scan(decls, target, i, found, fuel).value;
      Connects(c.tables, c.paramType, target) && forall t :: t in c.tables ==> t in decls
    decreases fuel, |decls| - i
  {
    if i == |decls| {
    } else if decls[i].key != target {
      ScanSound(decls, target, i + 1, found, fuel);
    } else if found.Some? {
    } else if decls[i].value.Tuple? {
      ScanSound(decls, target, i + 1, found, fuel);
    } else if fuel == 0 {
    } else {
      ScanSound(decls, decls[i].value.name, 0, None, fuel - 1);
      var r := Scan(decls, decls[i].value.name, 0, None, fuel - 1);
      if r.Ok? {
        var tables := r.value.tables + [decls[i]];
        assert tables[..|tables| - 1] == r.value.tables;
        ScanSound(decls, target, i + 1, Some(Chain(tables, r.value.paramType)), fuel);
      }
    }
  }

  lemma InterningChainSound(decls: seq<TableDecl>, target: string)
    ensures InterningChain(decls, target).Ok? ==>
      var c := InterningChain(decls, target).value;
      Connects(c.tables, c.paramType, target) && forall t :: t in c.tables ==> t in decls
  {
    ScanSound(decls, target, 0, None, |decls|);
  }

  /** Once a plain-valued table keyed by `target` has been used, any later
      table with the same key type makes the scan fail. */
  lemma {:induction false} ScanRejectsSecondTable(decls: seq<TableDecl>, target: string, i: nat, found: Option<Chain>, fuel: nat, j: nat)
    requires i <= j < |decls| && decls[j].key == target && found.Some?
    ensures Scan(decls, target, i, found, fuel).Err?
    decreases |decls| - i
  {
    if decls[i].key != target {
      ScanRejectsSecondTable(decls, target, i + 1, found, fuel, j);
    }
  }

  lemma {:induction false} ScanRejectsAmbiguous(decls: seq<TableDecl>, target: string, i: nat, fuel: nat, j: nat, k: nat)
    requires i <= j < k < |decls|
    requires decls[j].key == target && decls[k].key == target && decls[j].value.Plain?
    ensures Scan(decls, target, i, None, fuel).Err?
    decreases |decls| - i
  {
    if i < j {
      assert decls[i].key != target || decls[i].value.Tuple? || fuel == 0 || i < j;
      if decls[i].key != target || decls[i].value.Tuple? {
        ScanRejectsAmbiguous(decls, target, i + 1, fuel, j, k);
      } else if fuel != 0 {
        var r := Scan(decls, decls[i].value.name, 0, None, fuel - 1);
        if r.Ok? {
          ScanRejectsSecondTable(decls, target, i + 1, Some(Chain(r.value.tables + [decls[i]], r.value.paramType)), fuel, j);
        }
      }
    } else if fuel != 0 {
      var r := Scan(decls, decls[i].value.name, 0, None, fuel - 1);
      if r.Ok? {
        ScanRejectsSecondTable(decls, target, i + 1, Some(Chain(r.value.tables + [decls[i]], r.value.paramType)), fuel, k);
      }
    }
  }

  /** Two interning tables with the same key type, the first with a plain
      value, make every registration of that key type fail. */
  lemma AmbiguousTablesRejected(decls: seq<TableDecl>, target: string, j: nat, k: nat)
    requires j < k < |decls|
    requires decls[j].key == target && decls[k].key == target && decls[j].value.Plain?
    ensures InterningChain(decls, target).Err?
  {
    ScanRejectsAmbiguous(decls, target, 0, |decls|, j, k);
  }

  /** A type that keys no interning table is its own parameter type. */
  lemma {:induction false} NonKeyIsParameter(decls: seq<TableDecl>, target: string, i: nat, fuel: nat)
    requires i <= |decls|
    requires forall t :: t in decls[i..] ==> t.key != target
    ensures Scan(decls, target, i, None, fuel) == Ok(Chain([], target))
    decreases |decls| - i
  {
    if i < |decls| {
      assert decls[i] in decls[i..];
      assert decls[i + 1..] == decls[i..][1..];
      NonKeyIsParameter(decls, target, i + 1, fuel);
    }
  }

  // The interning tables of the schema this model is written for.
  const STRINGS := TableDecl("strings", "InternedString", Plain("String"))
  const CRATE_NAMES := TableDecl("crate_names", "Krate", Plain("InternedString"))
  const BUILDS := TableDecl("builds", "Build", Tuple(["Krate", "CrateHash"]))
  const FIXED_SCHEMA: seq<TableDecl> := [STRINGS, CRATE_NAMES, BUILDS]

  lemma FixedSchemaKeys()
    ensures STRINGS.key != "String" && CRATE_NAMES.key != "String" && BUILDS.key != "String"
    ensures STRINGS.key != "Span" && CRATE_NAMES.key != "Span" && BUILDS.key != "Span"
    ensures STRINGS.key != "Krate" && STRINGS.key != "Build" && CRATE_NAMES.key != "Build"
    ensures CRATE_NAMES.key != "InternedString" && BUILDS.key != "InternedString" && BUILDS.key != "Krate"
  {
    assert STRINGS.key[0] == 'I' && CRATE_NAMES.key[0] == 'K' && BUILDS.key[0] == 'B';
    assert "String"[0] == 'S' && "Span"[0] == 'S' && "Krate"[0] == 'K' && "Build"[0] == 'B';
    assert "InternedString"[0] == 'I';
  }

  lemma InternedStringChain(fuel: nat)
    requires fuel > 0
    ensures Scan(FIXED_SCHEMA, "InternedString", 0, None, fuel) == Ok(Chain([STRINGS], "String"))
  {
    FixedSchemaKeys();
    NonKeyIsParameter(FIXED_SCHEMA, "String", 0, fuel - 1);
    var found := Some(Chain([STRINGS], "String"));
    assert [] + [STRINGS] == [STRINGS];
    assert Scan(FIXED_SCHEMA, "InternedString", 2, found, fuel) == Ok(found.value);
    assert Scan(FIXED_SCHEMA, "InternedString", 1, found, fuel) == Ok(found.value);
  }

  /** The chains the registrations of the fixed schema intern through:
      a crate name goes through `strings` and then `crate_names`, an
      interned string through `strings`, and a build is taken as a key. */
  lemma FixedSchemaChains()
    ensures InterningChain(FIXED_SCHEMA, "Krate") == Ok(Chain([STRINGS, CRATE_NAMES], "String"))
    ensures InterningChain(FIXED_SCHEMA, "InternedString") == Ok(Chain([STRINGS], "String"))
    ensures InterningChain(FIXED_SCHEMA, "Build") == Ok(Chain([], "Build"))
    ensures InterningChain(FIXED_SCHEMA, "Span") == Ok(Chain([], "Span"))
  {
    FixedSchemaKeys();
    InternedStringChain(3);
    InternedStringChain(2);
    assert [STRINGS] + [CRATE_NAMES] == [STRINGS, CRATE_NAMES];
    var found := Some(Chain([STRINGS, CRATE_NAMES], "String"));
    assert Scan(FIXED_SCHEMA, "Krate", 2, found, 3) == Ok(found.value);
    assert Scan(FIXED_SCHEMA, "Krate", 1, None, 3) == Ok(found.value);
    assert Scan(FIXED_SCHEMA, "Build", 2, None, 3) == Ok(Chain([], "Build"));
    assert Scan(FIXED_SCHEMA, "Build", 1, None, 3) == Ok(Chain([], "Build"));
    NonKeyIsParameter(FIXED_SCHEMA, "Span", 0, 3);
  }
}
