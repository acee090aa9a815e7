/** The query macro's front end: turning a type name into a variable name,
    and assembling the input declarations of a Datalog program from its
    `load` block. Token streams are sequences of tokens; the Datalog
    program itself is carried along as opaque tokens. */
module DslQueries {
  import opened Wrappers
  import opened SchemaDecl

  /** ASCII upper case; other scripts' case rules are not modelled. */
  predicate IsUpper(c: char)
  {
    'A' <= c <= 'Z'
  }

  function ToLower(c: char): (r: char)
    requires IsUpper(c)
    ensures 'a' <= r <= 'z'
  {
    (c as int + 32) as char
  }

  /** What one character of a type name becomes: an upper-case letter is
      lowered, with a '_' before it unless it is the first character. */
  function Piece(c: char, first: bool): seq<char>
  {
    if IsUpper(c) then (if first then [] else ['_']) + [ToLower(c)] else [c]
  }

  /** The variable name of a type name, e.g. `DefPath` gives `def_path`. */
  function SnakeCase(s: string): string
  {
    if s == [] then [] else SnakeCase(s[..|s| - 1]) + Piece(s[|s| - 1], |s| == 1)
  }

  /** `convert_to_named_arg`: builds the variable name character by
      character with a `first` flag, and pairs it with the type. */
  method ConvertToNamedArg(typ: string) returns (arg: Arg)
    ensures arg == Arg(SnakeCase(typ), typ)
  {
    var varName: string := [];
    var first := true;
    var i := 0;
    while i < |typ|
      invariant 0 <= i <= |typ|
      invariant first <==> i == 0
      invariant varName == SnakeCase(typ[..i])
    {
      var c := typ[i];
      if IsUpper(c) {
        if !first {
          varName := varName + ['_'];
        }
        varName := varName + [ToLower(c)];
      } else {
        varName := varName + [c];
      }
      first := false;
      assert typ[..i + 1][..i] == typ[..i];
      i := i + 1;
    }
    assert typ[..i] == typ;
    arg := Arg(varName, typ);
  }

  /** How many characters of `s` satisfy the test. */
  function CountUpper(s: string): nat
  {
    if s == [] then 0 else CountUpper(s[..|s| - 1]) + (if IsUpper(s[|s| - 1]) then 1 else 0)
  }

  function CountChar(s: string, c: char): nat
  {
    if s == [] then 0 else CountChar(s[..|s| - 1], c) + (if s[|s| - 1] == c then 1 else 0)
  }

  lemma CountCharAppend(s: string, t: string, c: char)
    ensures CountChar(s + t, c) == CountChar(s, c) + CountChar(t, c)
    decreases |t|
  {
    if t == [] {
      assert s + t == s;
    } else {
      assert (s + t)[..|s + t| - 1] == s + t[..|t| - 1];
      CountCharAppend(s, t[..|t| - 1], c);
    }
  }

  /** The variable name has no upper-case letter. */
  lemma {:induction false} SnakeCaseLower(s: string)
    ensures forall j :: 0 <= j < |SnakeCase(s)| ==> !IsUpper(SnakeCase(s)[j])
  {
    if s != [] {
      SnakeCaseLower(s[..|s| - 1]);
    }
  }

  /** One '_' is inserted per upper-case letter after the first position. */
  lemma {:induction false} SnakeCaseUnderscores(s: string)
    ensures CountChar(SnakeCase(s), '_') + (if s != [] && IsUpper(s[0]) then 1 else 0) == CountChar(s, '_') + CountUpper(s)
  {
    if s != [] {
      var init := s[..|s| - 1];
      SnakeCaseUnderscores(init);
      CountCharAppend(SnakeCase(init), Piece(s[|s| - 1], |s| == 1), '_');
      if |s| > 1 {
        assert init[0] == s[0];
      }
      var p := Piece(s[|s| - 1], |s| == 1);
      if IsUpper(s[|s| - 1]) && |s| > 1 {
        CountCharAppend(['_'], [ToLower(s[|s| - 1])], '_');
        assert ['_'][..0] == [];
        assert [ToLower(s[|s| - 1])][..0] == [];
      } else {
        assert p[..|p| - 1] == [];
      }
    }
  }

  /** The name grows by exactly the inserted underscores. */
  lemma {:induction false} SnakeCaseLength(s: string)
    ensures |SnakeCase(s)| + (if s != [] && IsUpper(s[0]) then 1 else 0) == |s| + CountUpper(s)
  {
    if s != [] {
      var init := s[..|s| - 1];
      SnakeCaseLength(init);
      if |s| > 1 {
        assert init[0] == s[0];
      }
    }
  }

  /** Without its underscores, a name is the type name lowered: every
      other character is kept, in order. */
  function DropUnderscores(s: string): string
  {
    if s == [] then [] else DropUnderscores(s[..|s| - 1]) + (if s[|s| - 1] == '_' then [] else [s[|s| - 1]])
  }

  function LowerAll(s: string): (r: string)
    ensures |r| == |s|
  {
    if s == [] then [] else LowerAll(s[..|s| - 1]) + [if IsUpper(s[|s| - 1]) then ToLower(s[|s| - 1]) else s[|s| - 1]]
  }

  lemma DropUnderscoresAppend(s: string, t: string)
    ensures DropUnderscores(s + t) == DropUnderscores(s) + DropUnderscores(t)
    decreases |t|
  {
    if t == [] {
      assert s + t == s;
    } else {
      assert (s + t)[..|s + t| - 1] == s + t[..|t| - 1];
      DropUnderscoresAppend(s, t[..|t| - 1]);
    }
  }

  lemma {:induction false} SnakeCaseKeepsLetters(s: string)
    ensures DropUnderscores(SnakeCase(s)) == DropUnderscores(LowerAll(s))
  {
    if s != [] {
      var init := s[..|s| - 1];
      var c := s[|s| - 1];
      SnakeCaseKeepsLetters(init);
      DropUnderscoresAppend(SnakeCase(init), Piece(c, |s| == 1));
      var lowered := if IsUpper(c) then ToLower(c) else c;
      DropUnderscoresAppend(LowerAll(init), [lowered]);
      if IsUpper(c) && |s| > 1 {
        DropUnderscoresAppend(['_'], [ToLower(c)]);
        assert ['_'][..0] == [] && [ToLower(c)][..0] == [];
      } else {
        assert [lowered][..0] == [];
      }
    }
  }

  lemma DefPathExample(s: string)
    requires s == "DefPath"
    ensures SnakeCase(s) == "def_path"
  {
    assert s[..1] == "D" && s[..1][..0] == [];
    assert SnakeCase(s[..1]) == "d";
    assert s[..2] == "De" && s[..2][..1] == "D";
    assert SnakeCase(s[..2]) == "de";
    assert s[..3] == "Def" && s[..3][..2] == "De";
    assert SnakeCase(s[..3]) == "def";
    assert s[..4] == "DefP" && s[..4][..3] == "Def";
    assert SnakeCase(s[..4]) == "def_p";
    assert s[..5] == "DefPa" && s[..5][..4] == "DefP";
    assert SnakeCase(s[..5]) == "def_pa";
    assert s[..6] == "DefPat" && s[..6][..5] == "DefPa";
    assert SnakeCase(s[..6]) == "def_pat";
    assert s[..6] == s[..|s| - 1];
  }

  /** A variable declaration `name: Type` of an input relation. */
  datatype Arg = Arg(name: string, typ: string)

  /** The tokens the macro emits: a `let` loading a relation from the
      loader, an `input` declaration, or a token of the Datalog program. */
  datatype Token =
    | LetLoad(name: string, loader: string, loadFunction: string)
    | Input(name: string, args: seq<Arg>)
    | Datalog(text: string)

  datatype RelationDecl = RelationDecl(name: string, parameters: seq<Arg>)

  datatype DslSchema = DslSchema(tables: seq<TableDecl>, relations: seq<RelationDecl>)

  datatype LoadInstruction = LoadInstruction(operation: string, args: seq<string>)

  /** The parsed macro input: the optional `load <loader> { … }` block and
      the rest of the program. */
  datatype Program = Program(loader: Option<string>, instructions: seq<LoadInstruction>, datapond: seq<Token>)

  /** The first interning table or relation with the given name. */
  function FindTable(tables: seq<TableDecl>, name: string): (r: Option<TableDecl>)
    ensures r.Some? ==> r.value in tables && r.value.name == name
    ensures r.None? ==> forall t :: t in tables ==> t.name != name
  {
    if tables == [] then None else if tables[0].name == name then Some(tables[0]) else FindTable(tables[1..], name)
  }

  function FindRelation(relations: seq<RelationDecl>, name: string): (r: Option<RelationDecl>)
    ensures r.Some? ==> r.value in relations && r.value.name == name
    ensures r.None? ==> forall d :: d in relations ==> d.name != name
  {
    if relations == [] then None else if relations[0].name == name then Some(relations[0]) else FindRelation(relations[1..], name)
  }

  function NamedArg(typ: string): Arg
  {
    Arg(SnakeCase(typ), typ)
  }

  /** The input arguments of an interning table loaded as a relation: the
      key, then one per tuple element or the single value. */
  function TableArgs(t: TableDecl): (r: seq<Arg>)
  {
    [NamedArg(t.key)] +
    match t.value
    case Plain(name) => [NamedArg(name)]
    case Tuple(elems) => seq(|elems|, i requires 0 <= i < |elems| => NamedArg(elems[i]))
  }

  lemma TableArgsLayout(t: TableDecl)
    ensures |TableArgs(t)| == 1 + (if t.value.Plain? then 1 else |t.value.elems|)
    ensures TableArgs(t)[0] == Arg(SnakeCase(t.key), t.key)
    ensures t.value.Plain? ==> TableArgs(t)[1] == Arg(SnakeCase(t.value.name), t.value.name)
    ensures t.value.Tuple? ==> forall i :: 0 <= i < |t.value.elems| ==>
      TableArgs(t)[1 + i] == Arg(SnakeCase(t.value.elems[i]), t.value.elems[i])
  {
  }

  /** The pair of token streams a load operation adds: the `let`s and the
      `input`s. */
  datatype Emitted = Emitted(pre: seq<Token>, datapond: seq<Token>)

  /** `load_interning_tables_as_relations`; a missing table aborts. */
  function LoadTablesAsRelations(schema: DslSchema, loader: string, args: seq<string>): Result<Emitted, string>
  {
    if args == [] then Ok(Emitted([], []))
    else
      match LoadTablesAsRelations(schema, loader, args[..|args| - 1])
      case Err(e) => Err(e)
      case Ok(acc) =>
        match FindTable(schema.tables, args[|args| - 1])
        case None => Err("Not found interning table.")
        case Some(t) =>
          Ok(Emitted(acc.pre + [LetLoad(t.name, loader, "load_" + t.name + "_as_vec")],
                     acc.datapond + [Input(t.name, TableArgs(t))]))
  }

  /** `load_relations`; a missing relation aborts. */
  function LoadRelations(schema: DslSchema, loader: string, args: seq<string>): Result<Emitted, string>
  {
    if args == [] then Ok(Emitted([], []))
    else
      match LoadRelations(schema, loader, args[..|args| - 1])
      case Err(e) => Err(e)
      case Ok(acc) =>
        match FindRelation(schema.relations, args[|args| - 1])
        case None => Err("Not found relation: " + args[|args| - 1])
        case Some(d) =>
          Ok(Emitted(acc.pre + [LetLoad(d.name, loader, "load_" + d.name)],
                     acc.datapond + [Input(d.name, d.parameters)]))
  }

  /** One load instruction; an unknown operation is unreachable in the source. */
  function Instruction(schema: DslSchema, loader: string, ins: LoadInstruction): Result<Emitted, string>
  {
    if ins.operation == "interning_tables_as_relations" then LoadTablesAsRelations(schema, loader, ins.args)
    else if ins.operation == "relations" then LoadRelations(schema, loader, ins.args)
    else Err("Unknown operation: " + ins.operation)
  }

  /** The token streams of the first instructions, concatenated in order. */
  function Instructions(schema: DslSchema, loader: string, ins: seq<LoadInstruction>): Result<Emitted, string>
  {
    if ins == [] then Ok(Emitted([], []))
    else
      match Instructions(schema, loader, ins[..|ins| - 1])
      case Err(e) => Err(e)
      case Ok(acc) =>
        match Instruction(schema, loader, ins[|ins| - 1])
        case Err(e) => Err(e)
        case Ok(em) => Ok(Emitted(acc.pre + em.pre, acc.datapond + em.datapond))
  }

  /** `Program::to_tokens`: the preamble and the Datalog input. */
  function ProgramTokens(schema: DslSchema, p: Program): Result<Emitted, string>
  {
    if p.loader.None? then Ok(Emitted([], p.datapond))
    else
      match Instructions(schema, p.loader.value, p.instructions)
      case Err(e) => Err(e)
      case Ok(em) => Ok(Emitted(em.pre, em.datapond + p.datapond))
  }

  /** `to_tokens` as the source runs it: a loop over the instructions that
      extends both token streams. */
  method ToTokens(schema: DslSchema, p: Program) returns (r: Result<Emitted, string>)
    ensures r == ProgramTokens(schema, p)
    ensures p.loader.None? ==> r == Ok(Emitted([], p.datapond))
  {
    if p.loader.None? {
      return Ok(Emitted([], p.datapond));
    }
    var loader := p.loader.value;
    var pre: seq<Token> := [];
    var datapond: seq<Token> := [];
    var i := 0;
    while i < |p.instructions|
      invariant 0 <= i <= |p.instructions|
      invariant Instructions(schema, loader, p.instructions[..i]) == Ok(Emitted(pre, datapond))
    {
      var em := Instruction(schema, loader, p.instructions[i]);
      assert p.instructions[..i + 1][..i] == p.instructions[..i];
      if em.Err? {
        ErrorPropagates(schema, loader, p.instructions, i + 1);
        assert p.instructions[..|p.instructions|] == p.instructions;
        return Err(em.error);
      }
      pre := pre + em.value.pre;
      datapond := datapond + em.value.datapond;
      i := i + 1;
    }
    assert p.instructions[..i] == p.instructions;
    datapond := datapond + p.datapond;
    r := Ok(Emitted(pre, datapond));
  }

  /** Once an instruction fails, every longer prefix fails with its error. */
  lemma {:induction false} ErrorPropagates(schema: DslSchema, loader: string, ins: seq<LoadInstruction>, n: nat)
    requires 0 < n <= |ins| && Instructions(schema, loader, ins[..n]).Err?
    ensures Instructions(schema, loader, ins) == Instructions(schema, loader, ins[..n])
    decreases |ins| - n
  {
    if n < |ins| {
      assert ins[..n + 1][..n] == ins[..n];
      ErrorPropagates(schema, loader, ins, n + 1);
    } else {
      assert ins[..n] == ins;
    }
  }

  /** Every token a load operation adds to the preamble is a `let`, and
      every token it adds to the Datalog input is an `input`. */
  predicate LoadsAndInputs(em: Emitted)
  {
    (forall t :: t in em.pre ==> t.LetLoad?) && (forall t :: t in em.datapond ==> t.Input?)
  }

  lemma {:induction false} TablesEmitLoads(schema: DslSchema, loader: string, args: seq<string>)
    ensures LoadTablesAsRelations(schema, loader, args).Ok? ==>
      LoadsAndInputs(LoadTablesAsRelations(schema, loader, args).value) &&
      |LoadTablesAsRelations(schema, loader, args).value.pre| == |args|
  {
    if args != [] {
      TablesEmitLoads(schema, loader, args[..|args| - 1]);
    }
  }

  lemma {:induction false} RelationsEmitLoads(schema: DslSchema, loader: string, args: seq<string>)
    ensures LoadRelations(schema, loader, args).Ok? ==>
      LoadsAndInputs(LoadRelations(schema, loader, args).value) &&
      |LoadRelations(schema, loader, args).value.pre| == |args|
  {
    if args != [] {
      RelationsEmitLoads(schema, loader, args[..|args| - 1]);
    }
  }

  lemma {:induction false} InstructionsEmitLoads(schema: DslSchema, loader: string, ins: seq<LoadInstruction>)
    ensures Instructions(schema, loader, ins).Ok? ==> LoadsAndInputs(Instructions(schema, loader, ins).value)
  {
    if ins != [] {
      InstructionsEmitLoads(schema, loader, ins[..|ins| - 1]);
      TablesEmitLoads(schema, loader, ins[|ins| - 1].args);
      RelationsEmitLoads(schema, loader, ins[|ins| - 1].args);
    }
  }

  /** With a load block, the Datalog input is the generated `input`
      declarations followed by the program's own tokens, unchanged. */
  lemma InputsBeforeProgram(schema: DslSchema, p: Program)
    requires p.loader.Some? && ProgramTokens(schema, p).Ok?
    ensures var em := ProgramTokens(schema, p).value;
      var k := |em.datapond| - |p.datapond|;
      0 <= k && em.datapond[k..] == p.datapond &&
      (forall j :: 0 <= j < k ==> em.datapond[j].Input?) &&
      (forall t :: t in em.pre ==> t.LetLoad?)
  {
    InstructionsEmitLoads(schema, p.loader.value, p.instructions);
    var inner := Instructions(schema, p.loader.value, p.instructions).value;
    var em := ProgramTokens(schema, p).value;
    assert em.datapond == inner.datapond + p.datapond;
    forall j | 0 <= j < |inner.datapond|
      ensures em.datapond[j].Input?
    {
      assert em.datapond[j] == inner.datapond[j];
      assert inner.datapond[j] in inner.datapond;
    }
  }

  /** An unknown load operation makes the whole program fail. */
  lemma UnknownOperationFails(schema: DslSchema, p: Program, i: nat)
    requires p.loader.Some? && i < |p.instructions|
    requires p.instructions[i].operation != "interning_tables_as_relations" && p.instructions[i].operation != "relations"
    ensures ProgramTokens(schema, p).Err?
  {
    var ins := p.instructions;
    var loader := p.loader.value;
    if i > 0 && Instructions(schema, loader, ins[..i]).Err? {
      ErrorPropagates(schema, loader, ins, i);
    } else {
      assert i == 0 ==> ins[..i] == [];
      assert ins[..i + 1][..i] == ins[..i];
      ErrorPropagates(schema, loader, ins, i + 1);
    }
  }
}
