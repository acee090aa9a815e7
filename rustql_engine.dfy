/** The rustql query compiler (`rustql-query/src/engine.rs`): it resolves
    the relations a rule reads, builds each rule's join tree, works out the
    fact every join produces, and groups rules by the relation they define.
    The Rust source text the compiler prints around these decisions is not
    modelled; panics become `Err` values. */
module RustqlEngine {
  import opened Wrappers
  import opened RustqlAst
  import opened NameOrder

  /** Why compiling a query panics. */
  datatype QueryError =
    | MissingDeclaration(name: string)   // "found rule without declaration"
    | UnknownRelation(name: string)      // "unknown relation"
    | EmptyRule(name: string)            // a rule without facts
    | NegatedFirstFact(name: string)     // "can't have negated fact as first part of a rule"
    | NoRules(name: string)              // a rule group without rules
    | UnknownAction(name: string)        // "unknown action"

  /** What the compiler knows about a relation a rule may read. */
  datatype RelationInfo = RelationInfo(argTypes: seq<string>, variableName: string, isNative: bool)

  function Native(argTypes: seq<string>, variableName: string): RelationInfo
  {
    RelationInfo(argTypes, variableName, true)
  }

  /** `generate_native_facts`: the relations the database provides. */
  function GenerateNativeFacts(): (m: map<string, RelationInfo>)
    ensures forall k :: k in m ==> m[k].isNative
  {
    map[
      "calls" := Native(["Function", "Function"], "function_calls"),
      "function" := Native(["Function"], "functions"),
      "in_module" := Native(["Function", "Mod"], "functions_in_modules"),
      "modules_in_crates" := Native(["Mod", "Crate"], "modules_in_crates"),
      "is_unsafe" := Native(["Function"], "is_unsafe"),
      "is_struct" := Native(["Struct"], "structs"),
      "is_type" := Native(["Type"], "is_type"),
      "is_native" := Native(["Type"], "is_native"),
      "is_reference_to" := Native(["Type", "Type"], "is_reference_to"),
      "is_mutable_reference" := Native(["Type"], "is_mutable_reference"),
      "is_shared_reference" := Native(["Type"], "is_shared_reference"),
      "tuple" := Native(["Type", "Type"], "tuple"),
      "slice" := Native(["Type", "Type"], "slice"),
      "argument_types" := Native(["Function", "Type"], "argument_types"),
      "is_struct_type" := Native(["Type", "Struct"], "is_struct_type"),
      "field_types" := Native(["Struct", "Type"], "field_types"),
      "return_type" := Native(["Function", "Type"], "return_type")
    ]
  }

  /** The seventeen native relations; four are read from a database field
      of another name, every other one from the field of its own name. */
  lemma NativeFactsKeys()
    ensures forall k :: k in GenerateNativeFacts() <==> k in {"calls", "function", "in_module", "modules_in_crates",
      "is_unsafe", "is_struct", "is_type", "is_native", "is_reference_to", "is_mutable_reference",
      "is_shared_reference", "tuple", "slice", "argument_types", "is_struct_type", "field_types", "return_type"}
  {
  }

  /** Which database field each native relation is read from. */
  lemma NativeFactsVariables()
    ensures GenerateNativeFacts()["calls"].variableName == "function_calls"
    ensures GenerateNativeFacts()["function"].variableName == "functions"
    ensures GenerateNativeFacts()["in_module"].variableName == "functions_in_modules"
    ensures GenerateNativeFacts()["is_struct"].variableName == "structs"
    ensures forall k :: k in GenerateNativeFacts() && k !in {"calls", "function", "in_module", "is_struct"} ==>
      GenerateNativeFacts()[k].variableName == k
  {
  }

  // ---------------------------------------------------------------------
  // Declarations and grouping

  /** The entry a `decl` adds: its own name is its variable. */
  function DeclInfo(d: Decl): RelationInfo
  {
    RelationInfo(d.argTypes, d.name, false)
  }

  /** Inserting every declaration, in order, into `m`. */
  function WithDecls(m: map<string, RelationInfo>, decls: seq<Decl>): map<string, RelationInfo>
  {
    if decls == [] then m
    else
      var d := decls[|decls| - 1];
      WithDecls(m, decls[..|decls| - 1])[d.name := DeclInfo(d)]
  }

  /** `decls[i]` is the last declaration named `k`. */
  predicate LastDeclOf(decls: seq<Decl>, k: string, i: int)
  {
    0 <= i < |decls| && decls[i].name == k && forall j :: i < j < |decls| ==> decls[j].name != k
  }

  /** A relation is known when it is native or declared; the last
      declaration of a name wins, even over a native relation. */
  lemma WithDeclsSpec(m: map<string, RelationInfo>, decls: seq<Decl>, k: string)
    ensures k in WithDecls(m, decls) <==> k in m || exists i :: 0 <= i < |decls| && decls[i].name == k
    ensures forall i :: LastDeclOf(decls, k, i) ==> WithDecls(m, decls)[k] == DeclInfo(decls[i])
    ensures (forall i :: 0 <= i < |decls| ==> decls[i].name != k) && k in m ==> WithDecls(m, decls)[k] == m[k]
  {
    WithDeclsKeys(m, decls, k);
    WithDeclsLast(m, decls, k);
    WithDeclsKept(m, decls, k);
  }

  lemma {:induction false} WithDeclsKeys(m: map<string, RelationInfo>, decls: seq<Decl>, k: string)
    ensures k in WithDecls(m, decls) <==> k in m || exists i :: 0 <= i < |decls| && decls[i].name == k
  {
    if decls != [] {
      var n := |decls| - 1;
      var init := decls[..n];
      WithDeclsKeys(m, init, k);
      if decls[n].name != k && exists i :: 0 <= i < |decls| && decls[i].name == k {
        var i :| 0 <= i < |decls| && decls[i].name == k;
        assert init[i] == decls[i];
      }
      if exists i :: 0 <= i < |init| && init[i].name == k {
        var i :| 0 <= i < |init| && init[i].name == k;
        assert init[i] == decls[i];
      }
    }
  }

  lemma {:induction false} WithDeclsLast(m: map<string, RelationInfo>, decls: seq<Decl>, k: string)
    ensures forall i :: LastDeclOf(decls, k, i) ==> k in WithDecls(m, decls) && WithDecls(m, decls)[k] == DeclInfo(decls[i])
  {
    if decls != [] {
      var n := |decls| - 1;
      var init := decls[..n];
      WithDeclsLast(m, init, k);
      forall i | LastDeclOf(decls, k, i)
        ensures k in WithDecls(m, decls) && WithDecls(m, decls)[k] == DeclInfo(decls[i])
      {
        if i < n {
          assert decls[n].name != k;
          assert forall j :: 0 <= j < n ==> init[j] == decls[j];
          assert LastDeclOf(init, k, i);
        }
      }
    }
  }

  lemma {:induction false} WithDeclsKept(m: map<string, RelationInfo>, decls: seq<Decl>, k: string)
    ensures (forall i :: 0 <= i < |decls| ==> decls[i].name != k) && k in m ==>
      k in WithDecls(m, decls) && WithDecls(m, decls)[k] == m[k]
  {
    if decls != [] && (forall i :: 0 <= i < |decls| ==> decls[i].name != k) {
      var n := |decls| - 1;
      var init := decls[..n];
      assert forall i :: 0 <= i < n ==> init[i] == decls[i];
      WithDeclsKept(m, init, k);
    }
  }

  /** The rules named `name`, in query order. */
  function RulesNamed(rules: seq<Rule>, name: string): (r: seq<Rule>)
    ensures |r| <= |rules|
  {
    if rules == [] then []
    else
      var last := rules[|rules| - 1];
      RulesNamed(rules[..|rules| - 1], name) + (if last.name == name then [last] else [])
  }

  /** `RulesNamed` keeps exactly the rules of that name. */
  lemma {:induction false} RulesNamedSpec(rules: seq<Rule>, name: string)
    ensures forall r :: r in RulesNamed(rules, name) <==> r in rules && r.name == name
  {
    if rules != [] {
      RulesNamedSpec(rules[..|rules| - 1], name);
      assert rules == rules[..|rules| - 1] + [rules[|rules| - 1]];
    }
  }

  /** `rule_map`: each rule appended to the entry of its name. */
  function GroupRules(rules: seq<Rule>): map<string, seq<Rule>>
  {
    if rules == [] then map[]
    else
      var g := GroupRules(rules[..|rules| - 1]);
      var r := rules[|rules| - 1];
      g[r.name := (if r.name in g then g[r.name] else []) + [r]]
  }

  /** A name has an entry exactly when some rule has it, and the entry
      lists that name's rules in query order. */
  lemma {:induction false} GroupRulesSpec(rules: seq<Rule>, name: string)
    ensures name in GroupRules(rules) <==> RulesNamed(rules, name) != []
    ensures name in GroupRules(rules) ==> GroupRules(rules)[name] == RulesNamed(rules, name)
  {
    if rules != [] {
      GroupRulesSpec(rules[..|rules| - 1], name);
    }
  }

  /** The names of the rules, in query order. */
  function RuleNames(rules: seq<Rule>): (r: seq<string>)
    ensures |r| == |rules| && forall i :: 0 <= i < |rules| ==> r[i] == rules[i].name
  {
    seq(|rules|, i requires 0 <= i < |rules| => rules[i].name)
  }

  /** The group names in the order a `BTreeMap` visits its keys. */
  function GroupNames(rules: seq<Rule>): seq<string>
  {
    SortedNames(RuleNames(rules))
  }

  /** The rule groups in that order. */
  function GroupList(rules: seq<Rule>): (gs: seq<(string, seq<Rule>)>)
    ensures |gs| == |GroupNames(rules)|
    ensures forall k :: 0 <= k < |gs| ==> gs[k] == (GroupNames(rules)[k], RulesNamed(rules, GroupNames(rules)[k]))
  {
    var order := GroupNames(rules);
    seq(|order|, k requires 0 <= k < |order| => (order[k], RulesNamed(rules, order[k])))
  }

  /** One group per rule name, in ascending name order, each holding that
      name's rules in query order and never empty. */
  lemma GroupNamesSpec(rules: seq<Rule>)
    ensures StrictlySorted(GroupNames(rules))
    ensures forall n :: n in GroupNames(rules) <==> n in RuleNames(rules)
    ensures forall n :: n in GroupNames(rules) ==> RulesNamed(rules, n) != []
  {
    SortedNamesSpec(RuleNames(rules));
    forall n | n in GroupNames(rules)
      ensures RulesNamed(rules, n) != []
    {
      var i :| 0 <= i < |rules| && RuleNames(rules)[i] == n;
      RulesNamedSpec(rules, n);
      assert rules[i] in RulesNamed(rules, n);
    }
  }

  /** The first declaration of `name`: the rule group's declaration. */
  function FirstDecl(decls: seq<Decl>, name: string): (r: Option<Decl>)
    ensures r.None? <==> forall i :: 0 <= i < |decls| ==> decls[i].name != name
    ensures r.Some? ==> r.value.name == name && exists i :: (0 <= i < |decls| && decls[i] == r.value &&
      forall j :: 0 <= j < i ==> decls[j].name != name)
  {
    if decls == [] then None
    else if decls[0].name == name then Some(decls[0])
    else
      var r := FirstDecl(decls[1..], name);
      assert forall i :: 0 < i < |decls| ==> decls[1..][i - 1] == decls[i];
      r
  }

  // ---------------------------------------------------------------------
  // Mapping a list where the first failure aborts

  /** Applies `f` to every element, stopping at the first error as a loop
      that panics does. */
  function MapAll<A, B, E>(xs: seq<A>, f: A -> Result<B, E>): Result<seq<B>, E>
  {
    if xs == [] then Ok([])
    else
      match MapAll(xs[..|xs| - 1], f)
      case Err(e) => Err(e)
      case Ok(vs) =>
        match f(xs[|xs| - 1])
        case Err(e) => Err(e)
        case Ok(v) => Ok(vs + [v])
  }

  /** All elements succeed exactly when the whole map does, and then the
      results are the elements' results in order. */
  lemma {:induction false} MapAllOk<A, B, E>(xs: seq<A>, f: A -> Result<B, E>)
    ensures MapAll(xs, f).Ok? <==> forall i :: 0 <= i < |xs| ==> f(xs[i]).Ok?
    ensures MapAll(xs, f).Ok? ==> (|MapAll(xs, f).value| == |xs| &&
      forall i :: 0 <= i < |xs| ==> MapAll(xs, f).value[i] == f(xs[i]).value)
  {
    if xs != [] {
      var init := xs[..|xs| - 1];
      MapAllOk(init, f);
      assert forall i :: 0 <= i < |init| ==> init[i] == xs[i];
    }
  }

  /** A failing map reports the error of its first failing element. */
  lemma {:induction false} MapAllErr<A, B, E>(xs: seq<A>, f: A -> Result<B, E>) returns (i: nat)
    requires MapAll(xs, f).Err?
    ensures i < |xs| && f(xs[i]) == Err(MapAll(xs, f).error)
    ensures forall j :: 0 <= j < i ==> f(xs[j]).Ok?
  {
    var init := xs[..|xs| - 1];
    assert forall j :: 0 <= j < |init| ==> init[j] == xs[j];
    if MapAll(init, f).Err? {
      i := MapAllErr(init, f);
    } else {
      MapAllOk(init, f);
      i := |xs| - 1;
    }
  }

  /** Once a prefix fails, the rest of the list is never looked at. */
  lemma {:induction false} MapAllStops<A, B, E>(xs: seq<A>, f: A -> Result<B, E>, n: nat)
    requires n <= |xs| && MapAll(xs[..n], f).Err?
    ensures MapAll(xs, f) == MapAll(xs[..n], f)
    decreases |xs| - n
  {
    if n < |xs| {
      assert xs[..n + 1][..n] == xs[..n];
      MapAllStops(xs, f, n + 1);
    } else {
      assert xs[..n] == xs;
    }
  }

  // ---------------------------------------------------------------------
  // The relations a rule reads

  /** The names of the facts in a rule body, in order. */
  function FactNames(facts: seq<(Fact, bool)>): (r: seq<string>)
    ensures |r| == |facts| && forall i :: 0 <= i < |facts| ==> r[i] == facts[i].0.name
  {
    seq(|facts|, i requires 0 <= i < |facts| => facts[i].0.name)
  }

  /** The relations a rule reads: its facts sorted by name, one per name. */
  function RuleRelations(rule: Rule): seq<string>
  {
    SortedNames(FactNames(rule.facts))
  }

  function ResolveOne(name: string, rel: map<string, RelationInfo>): Result<RelationInfo, QueryError>
  {
    if name in rel then Ok(rel[name]) else Err(UnknownRelation(name))
  }

  /** Looks every name up, panicking on the first unknown one. */
  function Resolve(names: seq<string>, rel: map<string, RelationInfo>): Result<seq<RelationInfo>, QueryError>
  {
    MapAll(names, n => ResolveOne(n, rel))
  }

  /** The lookup succeeds exactly when every name is known, and then gives
      each name's entry; otherwise it reports the first unknown name. */
  lemma ResolveSpec(names: seq<string>, rel: map<string, RelationInfo>)
    ensures Resolve(names, rel).Ok? <==> forall i :: 0 <= i < |names| ==> names[i] in rel
    ensures Resolve(names, rel).Ok? ==> (|Resolve(names, rel).value| == |names| &&
      forall i :: 0 <= i < |names| ==> names[i] in rel && Resolve(names, rel).value[i] == rel[names[i]])
    ensures Resolve(names, rel).Err? ==> exists i :: (0 <= i < |names| && names[i] !in rel &&
      Resolve(names, rel).error == UnknownRelation(names[i]) && forall j :: 0 <= j < i ==> names[j] in rel)
  {
    MapAllOk(names, n => ResolveOne(n, rel));
    if Resolve(names, rel).Err? {
      var i := MapAllErr(names, n => ResolveOne(n, rel));
      assert names[i] !in rel;
    }
  }

  lemma ResolveStops(names: seq<string>, rel: map<string, RelationInfo>, n: nat)
    requires n <= |names| && Resolve(names[..n], rel).Err?
    ensures Resolve(names, rel) == Resolve(names[..n], rel)
  {
    MapAllStops(names, n => ResolveOne(n, rel), n);
  }

  /** The variable names of a list of relations. */
  function VariableNames(infos: seq<RelationInfo>): (r: seq<string>)
    ensures |r| == |infos| && forall i :: 0 <= i < |infos| ==> r[i] == infos[i].variableName
  {
    seq(|infos|, i requires 0 <= i < |infos| => infos[i].variableName)
  }

  /** What `rule_argument_datanames` returns. */
  function Datanames(rule: Rule, rel: map<string, RelationInfo>): Result<seq<string>, QueryError>
  {
    match Resolve(RuleRelations(rule), rel)
    case Err(e) => Err(e)
    case Ok(infos) => Ok(VariableNames(infos))
  }

  /** The datanames exist exactly when every fact's relation is known; they
      are the variables of the rule's relations in ascending name order,
      each relation once. */
  lemma DatanamesSpec(rule: Rule, rel: map<string, RelationInfo>)
    ensures Datanames(rule, rel).Ok? <==> forall i :: 0 <= i < |rule.facts| ==> rule.facts[i].0.name in rel
    ensures StrictlySorted(RuleRelations(rule))
    ensures forall n :: n in RuleRelations(rule) <==> exists i :: 0 <= i < |rule.facts| && rule.facts[i].0.name == n
    ensures Datanames(rule, rel).Ok? ==> (|Datanames(rule, rel).value| == |RuleRelations(rule)| &&
      forall k :: 0 <= k < |RuleRelations(rule)| ==> (RuleRelations(rule)[k] in rel &&
        Datanames(rule, rel).value[k] == rel[RuleRelations(rule)[k]].variableName))
  {
    var names := RuleRelations(rule);
    RuleRelationsSpec(rule);
    ResolveSpec(names, rel);
    if forall i :: 0 <= i < |rule.facts| ==> rule.facts[i].0.name in rel {
      forall k | 0 <= k < |names|
        ensures names[k] in rel
      {
        assert names[k] in names;
      }
    } else {
      var i :| 0 <= i < |rule.facts| && rule.facts[i].0.name !in rel;
      assert rule.facts[i].0.name in names;
      var k :| 0 <= k < |names| && names[k] == rule.facts[i].0.name;
    }
  }

  /** A rule's relations are strictly ascending and are its facts' names. */
  lemma RuleRelationsSpec(rule: Rule)
    ensures StrictlySorted(RuleRelations(rule))
    ensures forall n :: n in RuleRelations(rule) <==> exists i :: 0 <= i < |rule.facts| && rule.facts[i].0.name == n
  {
    SortedNamesSpec(FactNames(rule.facts));
    forall n
      ensures n in RuleRelations(rule) <==> exists i :: 0 <= i < |rule.facts| && rule.facts[i].0.name == n
    {
      if n in FactNames(rule.facts) {
        var i :| 0 <= i < |rule.facts| && FactNames(rule.facts)[i] == n;
      }
    }
  }

  /** `rule_arguments`: the relations a rule reads with their argument
      types, in ascending name order; an unknown relation panics. */
  method RuleArguments(rule: Rule, rel: map<string, RelationInfo>) returns (r: Result<seq<RelationInfo>, QueryError>)
    ensures r == Resolve(RuleRelations(rule), rel)
  {
    var names := RuleRelations(rule);
    var args: seq<RelationInfo> := [];
    for i := 0 to |names|
      invariant Resolve(names[..i], rel) == Ok(args)
    {
      assert names[..i + 1][..i] == names[..i];
      if names[i] in rel {
        args := args + [rel[names[i]]];
      } else {
        ResolveStops(names, rel, i + 1);
        return Err(UnknownRelation(names[i]));
      }
    }
    assert names[..|names|] == names;
    r := Ok(args);
  }

  /** `rule_argument_datanames`: the variables holding the relations a rule
      reads, in ascending relation-name order. */
  method RuleArgumentDatanames(rule: Rule, rel: map<string, RelationInfo>) returns (r: Result<seq<string>, QueryError>)
    ensures r == Datanames(rule, rel)
  {
    var names := RuleRelations(rule);
    var datanames: seq<string> := [];
    ghost var infos: seq<RelationInfo> := [];
    for i := 0 to |names|
      invariant Resolve(names[..i], rel) == Ok(infos)
      invariant datanames == VariableNames(infos)
    {
      assert names[..i + 1][..i] == names[..i];
      if names[i] in rel {
        datanames := datanames + [rel[names[i]].variableName];
        infos := infos + [rel[names[i]]];
      } else {
        ResolveStops(names, rel, i + 1);
        return Err(UnknownRelation(names[i]));
      }
    }
    assert names[..|names|] == names;
    r := Ok(datanames);
  }

  // ---------------------------------------------------------------------
  // Join trees

  /** `QueryNode`: a rule body as a left-deep tree of joins. */
  datatype QueryNode =
    | Input(fact: Fact)
    | Join(left: QueryNode, right: QueryNode, negated: bool)
    | RecursiveJoin(left: QueryNode, right: QueryNode)

  /** Joins one more fact onto the tree: a fact naming the rule itself is a
      recursive join, any other a join or, when negated, an antijoin. */
  function JoinStep(node: QueryNode, f: (Fact, bool), ruleName: string): QueryNode
  {
    if f.0.name == ruleName then RecursiveJoin(node, Input(f.0))
    else Join(node, Input(f.0), f.1)
  }

  function FoldJoins(node: QueryNode, facts: seq<(Fact, bool)>, ruleName: string): QueryNode
  {
    if facts == [] then node
    else JoinStep(FoldJoins(node, facts[..|facts| - 1], ruleName), facts[|facts| - 1], ruleName)
  }

  /** The join tree of a rule, or why it has none. */
  function JoinTree(rule: Rule): Result<QueryNode, QueryError>
  {
    if rule.facts == [] then Err(EmptyRule(rule.name))
    else if rule.facts[0].1 then Err(NegatedFirstFact(rule.name))
    else Ok(FoldJoins(Input(rule.facts[0].0), rule.facts[1..], rule.name))
  }

  /** `build_join_tree`. */
  method BuildJoinTree(rule: Rule) returns (r: Result<QueryNode, QueryError>)
    ensures r == JoinTree(rule)
  {
    if |rule.facts| == 0 {
      return Err(EmptyRule(rule.name));
    }
    var node := Input(rule.facts[0].0);
    if rule.facts[0].1 {
      return Err(NegatedFirstFact(rule.name));
    }
    var rest := rule.facts[1..];
    for i := 0 to |rest|
      invariant node == FoldJoins(Input(rule.facts[0].0), rest[..i], rule.name)
    {
      assert rest[..i + 1][..i] == rest[..i];
      var (fact, negated) := rest[i];
      if fact.name == rule.name {
        node := RecursiveJoin(node, Input(fact));
      } else {
        node := Join(node, Input(fact), negated);
      }
    }
    assert rest[..|rest|] == rest;
    r := Ok(node);
  }

  /** The facts at the leaves, left to right. */
  function Leaves(node: QueryNode): seq<Fact>
  {
    match node
    case Input(f) => [f]
    case Join(l, r, _) => Leaves(l) + Leaves(r)
    case RecursiveJoin(l, r) => Leaves(l) + Leaves(r)
  }

  /** How each node on the left spine combines, bottom up. */
  datatype JoinKind = PlainJoin | AntiJoin | SelfJoin

  function JoinKinds(node: QueryNode): seq<JoinKind>
  {
    match node
    case Input(_) => []
    case Join(l, _, negated) => JoinKinds(l) + [if negated then AntiJoin else PlainJoin]
    case RecursiveJoin(l, _) => JoinKinds(l) + [SelfJoin]
  }

  /** Every right child is a single fact. */
  predicate LeftDeep(node: QueryNode)
  {
    match node
    case Input(_) => true
    case Join(l, r, _) => LeftDeep(l) && r.Input?
    case RecursiveJoin(l, r) => LeftDeep(l) && r.Input?
  }

  /** The kind of join the fact at position `i > 0` of a rule body gets. */
  function KindOf(f: (Fact, bool), ruleName: string): JoinKind
  {
    if f.0.name == ruleName then SelfJoin else if f.1 then AntiJoin else PlainJoin
  }

  lemma {:induction false} FoldJoinsShape(node: QueryNode, facts: seq<(Fact, bool)>, ruleName: string)
    requires LeftDeep(node)
    ensures LeftDeep(FoldJoins(node, facts, ruleName))
    ensures Leaves(FoldJoins(node, facts, ruleName)) == Leaves(node) + seq(|facts|, i requires 0 <= i < |facts| => facts[i].0)
    ensures JoinKinds(FoldJoins(node, facts, ruleName)) ==
      JoinKinds(node) + seq(|facts|, i requires 0 <= i < |facts| => KindOf(facts[i], ruleName))
  {
    if facts != [] {
      var init := facts[..|facts| - 1];
      FoldJoinsShape(node, init, ruleName);
      assert seq(|facts|, i requires 0 <= i < |facts| => facts[i].0) ==
        seq(|init|, i requires 0 <= i < |init| => init[i].0) + [facts[|facts| - 1].0];
      assert seq(|facts|, i requires 0 <= i < |facts| => KindOf(facts[i], ruleName)) ==
        seq(|init|, i requires 0 <= i < |init| => KindOf(init[i], ruleName)) + [KindOf(facts[|facts| - 1], ruleName)];
    }
  }

  /** A rule has a join tree exactly when its body is not empty and does
      not start with a negated fact. The tree is left-deep, its leaves are
      the body's facts in order, and the join above the fact at position
      `i + 1` is recursive when that fact names the rule, an antijoin when
      it is negated, and a plain join otherwise. */
  lemma JoinTreeShape(rule: Rule)
    ensures JoinTree(rule).Ok? <==> rule.facts != [] && !rule.facts[0].1
    ensures JoinTree(rule).Ok? ==>
      var t := JoinTree(rule).value;
      LeftDeep(t) &&
      Leaves(t) == seq(|rule.facts|, i requires 0 <= i < |rule.facts| => rule.facts[i].0) &&
      |JoinKinds(t)| == |rule.facts| - 1 &&
      forall i :: 0 <= i < |JoinKinds(t)| ==> JoinKinds(t)[i] == KindOf(rule.facts[i + 1], rule.name)
  {
    if JoinTree(rule).Ok? {
      var rest := rule.facts[1..];
      FoldJoinsShape(Input(rule.facts[0].0), rest, rule.name);
      assert seq(|rule.facts|, i requires 0 <= i < |rule.facts| => rule.facts[i].0) ==
        [rule.facts[0].0] + seq(|rest|, i requires 0 <= i < |rest| => rest[i].0);
    }
  }

  // ---------------------------------------------------------------------
  // The fact each join produces

  /** The elements of `a` that do not occur in `drop`, in order. */
  function Without(a: seq<string>, drop: seq<string>): seq<string>
  {
    if a == [] then []
    else (if a[0] in drop then [] else [a[0]]) + Without(a[1..], drop)
  }

  lemma {:induction false} WithoutCounts(a: seq<string>, drop: seq<string>, x: string)
    ensures multiset(Without(a, drop))[x] == if x in drop then 0 else multiset(a)[x]
  {
    if a != [] {
      WithoutCounts(a[1..], drop, x);
      assert a == [a[0]] + a[1..];
    }
  }

  /** Dropping by two lists that agree on the elements of `a` is the same. */
  lemma {:induction false} WithoutAgree(a: seq<string>, d1: seq<string>, d2: seq<string>)
    requires forall x :: x in a ==> (x in d1 <==> x in d2)
    ensures Without(a, d1) == Without(a, d2)
  {
    if a != [] {
      WithoutAgree(a[1..], d1, d2);
    }
  }

  /** The fact `compile_join` produces: the shared variables, then the
      left fact's others, then the right fact's others. */
  function JoinFact(f1: Fact, f2: Fact): Fact
  {
    var overlap := GetOverlapping(f1, f2);
    Fact("temp_fact", overlap + Without(f1.args, overlap) + Without(f2.args, overlap))
  }

  /** The fact `compile_antijoin` produces: the left fact's variables, the
      shared ones first. */
  function AntijoinFact(f1: Fact, f2: Fact): Fact
  {
    var overlap := GetOverlapping(f1, f2);
    Fact("temp_fact", overlap + Without(f1.args, overlap))
  }

  /** The fact `compile_recursive_join` produces: the rule's own head with
      a unit column appended. */
  function RecursiveJoinFact(target: Fact): Fact
  {
    Fact(target.name, target.args + ["()"])
  }

  /** The shared variables followed by the left fact's others are the left
      fact's variables, each as often as before. */
  lemma OverlapThenRest(f1: Fact, f2: Fact)
    ensures multiset(GetOverlapping(f1, f2) + Without(f1.args, GetOverlapping(f1, f2))) == multiset(f1.args)
  {
    var overlap := GetOverlapping(f1, f2);
    forall x
      ensures multiset(overlap + Without(f1.args, overlap))[x] == multiset(f1.args)[x]
    {
      OverlapCounts(f1.args, f2.args, x);
      WithoutCounts(f1.args, overlap, x);
    }
    assert multiset(overlap + Without(f1.args, overlap)) == multiset(f1.args);
  }

  /** A join produces every column of the left fact once per occurrence,
      then the right fact's columns the left one lacks, shared ones first. */
  lemma JoinFactArgs(f1: Fact, f2: Fact)
    ensures JoinFact(f1, f2).name == "temp_fact"
    ensures JoinFact(f1, f2).args[..|GetOverlapping(f1, f2)|] == GetOverlapping(f1, f2)
    ensures multiset(JoinFact(f1, f2).args) == multiset(f1.args) + multiset(Without(f2.args, f1.args))
  {
    var overlap := GetOverlapping(f1, f2);
    OverlapThenRest(f1, f2);
    WithoutAgree(f2.args, overlap, f1.args);
    assert JoinFact(f1, f2).args == (overlap + Without(f1.args, overlap)) + Without(f2.args, f1.args);
  }

  /** A join's columns are those of either side. */
  lemma JoinFactMembers(f1: Fact, f2: Fact)
    ensures forall x :: x in JoinFact(f1, f2).args <==> x in f1.args || x in f2.args
  {
    var args := JoinFact(f1, f2).args;
    JoinFactArgs(f1, f2);
    forall x
      ensures x in args <==> x in f1.args || x in f2.args
    {
      WithoutCounts(f2.args, f1.args, x);
      assert x in multiset(args) <==> x in multiset(f1.args) || x in multiset(Without(f2.args, f1.args));
    }
  }

  /** An antijoin's columns are the left side's. */
  lemma AntijoinFactMembers(f1: Fact, f2: Fact)
    ensures forall x :: x in AntijoinFact(f1, f2).args <==> x in f1.args
  {
    AntijoinFactArgs(f1, f2);
    forall x
      ensures x in AntijoinFact(f1, f2).args <==> x in f1.args
    {
      assert x in multiset(AntijoinFact(f1, f2).args) <==> x in multiset(f1.args);
    }
  }

  /** An antijoin keeps exactly the left fact's columns, shared ones first. */
  lemma AntijoinFactArgs(f1: Fact, f2: Fact)
    ensures AntijoinFact(f1, f2).name == "temp_fact"
    ensures AntijoinFact(f1, f2).args[..|GetOverlapping(f1, f2)|] == GetOverlapping(f1, f2)
    ensures multiset(AntijoinFact(f1, f2).args) == multiset(f1.args)
  {
    OverlapThenRest(f1, f2);
  }

  /** `compile_join_tree`: the fact the rule's joins produce. */
  function TreeFact(node: QueryNode, rule: Rule): Fact
  {
    match node
    case Input(f) => f
    case Join(l, r, negated) =>
      var lf := TreeFact(l, rule);
      var rf := TreeFact(r, rule);
      if negated then AntijoinFact(lf, rf) else JoinFact(lf, rf)
    case RecursiveJoin(_, _) => RecursiveJoinFact(Fact(rule.name, rule.args))
  }

  /** The facts whose variables can reach the result: the leaves that are
      not the right side of an antijoin. */
  function PositiveLeaves(node: QueryNode): seq<Fact>
  {
    match node
    case Input(f) => [f]
    case Join(l, r, negated) => PositiveLeaves(l) + (if negated then [] else PositiveLeaves(r))
    case RecursiveJoin(l, r) => PositiveLeaves(l) + PositiveLeaves(r)
  }

  predicate NoSelfJoin(node: QueryNode)
  {
    match node
    case Input(_) => true
    case Join(l, r, _) => NoSelfJoin(l) && NoSelfJoin(r)
    case RecursiveJoin(_, _) => false
  }

  /** `x` is a variable of one of the facts. */
  ghost predicate InSome(x: string, facts: seq<Fact>)
  {
    exists k :: 0 <= k < |facts| && x in facts[k].args
  }

  lemma InSomeAppend(x: string, a: seq<Fact>, b: seq<Fact>)
    ensures InSome(x, a + b) <==> InSome(x, a) || InSome(x, b)
  {
    if InSome(x, a + b) {
      var k :| 0 <= k < |a + b| && x in (a + b)[k].args;
      if k >= |a| {
        assert x in b[k - |a|].args;
      }
    }
    if InSome(x, a) {
      var k :| 0 <= k < |a| && x in a[k].args;
      assert (a + b)[k] == a[k];
    }
    if InSome(x, b) {
      var k :| 0 <= k < |b| && x in b[k].args;
      assert (a + b)[|a| + k] == b[k];
    }
  }

  /** Without recursion, the result's variables are exactly the variables
      of the facts not under negation: a negated fact only filters. */
  lemma {:induction false} TreeFactVariables(node: QueryNode, rule: Rule)
    requires NoSelfJoin(node)
    ensures forall x :: x in TreeFact(node, rule).args <==> InSome(x, PositiveLeaves(node))
  {
    match node
    case Input(f) =>
      forall x | x in f.args
        ensures InSome(x, PositiveLeaves(node))
      {
        assert x in PositiveLeaves(node)[0].args;
      }
    case Join(l, r, negated) =>
      TreeFactVariables(l, rule);
      TreeFactVariables(r, rule);
      if negated {
        AntijoinFactMembers(TreeFact(l, rule), TreeFact(r, rule));
        assert PositiveLeaves(node) == PositiveLeaves(l);
      } else {
        JoinFactMembers(TreeFact(l, rule), TreeFact(r, rule));
        forall x {
          InSomeAppend(x, PositiveLeaves(l), PositiveLeaves(r));
        }
      }
  }

  /** A rule whose last body fact names the rule itself produces its own
      head with a unit column appended. */
  lemma RecursiveRuleFact(rule: Rule)
    requires |rule.facts| >= 2 && !rule.facts[0].1 && rule.facts[|rule.facts| - 1].0.name == rule.name
    ensures JoinTree(rule).Ok? && JoinTree(rule).value.RecursiveJoin?
    ensures TreeFact(JoinTree(rule).value, rule) == Fact(rule.name, rule.args + ["()"])
  {
    var rest := rule.facts[1..];
    assert rest[|rest| - 1] == rule.facts[|rule.facts| - 1];
  }

  // ---------------------------------------------------------------------
  // Compiling rules

  /** What the compiler decides for one rule: the relations it reads in
      argument order with their entries, its join tree, and the fact the
      joins produce. */
  datatype CompiledRule = CompiledRule(relations: seq<string>, arguments: seq<RelationInfo>, tree: QueryNode, result: Fact)

  /** `compile_rule`: the arguments are checked first, then the join tree
      is built and compiled. */
  function CompileRuleSpec(rule: Rule, rel: map<string, RelationInfo>): Result<CompiledRule, QueryError>
  {
    match Resolve(RuleRelations(rule), rel)
    case Err(e) => Err(e)
    case Ok(args) =>
      match JoinTree(rule)
      case Err(e) => Err(e)
      case Ok(t) => Ok(CompiledRule(RuleRelations(rule), args, t, TreeFact(t, rule)))
  }

  method CompileRule(rule: Rule, rel: map<string, RelationInfo>) returns (r: Result<CompiledRule, QueryError>)
    ensures r == CompileRuleSpec(rule, rel)
  {
    var args := RuleArguments(rule, rel);
    if args.Err? {
      return Err(args.error);
    }
    var tree := BuildJoinTree(rule);
    if tree.Err? {
      return Err(tree.error);
    }
    r := Ok(CompiledRule(RuleRelations(rule), args.value, tree.value, TreeFact(tree.value, rule)));
  }

  /** A rule compiles exactly when every relation it reads is known and its
      body is non-empty and starts with a positive fact; an unknown relation
      is reported before any problem with the body. */
  lemma CompileRuleOk(rule: Rule, rel: map<string, RelationInfo>)
    ensures CompileRuleSpec(rule, rel).Ok? <==>
      (forall i :: 0 <= i < |rule.facts| ==> rule.facts[i].0.name in rel) && rule.facts != [] && !rule.facts[0].1
    ensures (exists i :: 0 <= i < |rule.facts| && rule.facts[i].0.name !in rel) ==>
      CompileRuleSpec(rule, rel).Err? && CompileRuleSpec(rule, rel).error.UnknownRelation?
  {
    DatanamesSpec(rule, rel);
    ResolveSpec(RuleRelations(rule), rel);
    JoinTreeShape(rule);
  }

  // ---------------------------------------------------------------------
  // Compiling a group of rules

  /** Everything `compile_rules` decides for the rules defining one
      relation: their declaration, the rules in query order, and the
      derived relations loaded before the first rule is called. */
  datatype CompiledGroup = CompiledGroup(name: string, decl: Decl, rules: seq<CompiledRule>, loads: seq<string>)

  function CompileAll(rules: seq<Rule>, rel: map<string, RelationInfo>): Result<seq<CompiledRule>, QueryError>
  {
    MapAll(rules, r => CompileRuleSpec(r, rel))
  }

  lemma CompileAllStops(rules: seq<Rule>, rel: map<string, RelationInfo>, n: nat)
    requires n <= |rules| && CompileAll(rules[..n], rel).Err?
    ensures CompileAll(rules, rel) == CompileAll(rules[..n], rel)
  {
    MapAllStops(rules, r => CompileRuleSpec(r, rel), n);
  }

  /** The variables among `datanames` that name a declared relation: those
      have to be computed by calling their rules first. */
  function Loads(datanames: seq<string>, rel: map<string, RelationInfo>): seq<string>
  {
    if datanames == [] then []
    else
      var d := datanames[|datanames| - 1];
      Loads(datanames[..|datanames| - 1], rel) + (if d in rel && !rel[d].isNative then [d] else [])
  }

  lemma {:induction false} LoadsSpec(datanames: seq<string>, rel: map<string, RelationInfo>)
    ensures forall d :: d in Loads(datanames, rel) <==> d in datanames && d in rel && !rel[d].isNative
  {
    if datanames != [] {
      var init := datanames[..|datanames| - 1];
      LoadsSpec(init, rel);
      assert datanames == init + [datanames[|datanames| - 1]];
    }
  }

  /** `compile_rules`: every rule is compiled first, then the group must
      have a rule, whose datanames decide what is loaded. */
  function GroupOf(name: string, decl: Decl, rules: seq<Rule>, rel: map<string, RelationInfo>): Result<CompiledGroup, QueryError>
  {
    match CompileAll(rules, rel)
    case Err(e) => Err(e)
    case Ok(cs) =>
      if cs == [] then Err(NoRules(name))
      else Ok(CompiledGroup(name, decl, cs, Loads(VariableNames(cs[0].arguments), rel)))
  }

  method CompileRules(name: string, rules: seq<Rule>, decl: Decl, rel: map<string, RelationInfo>)
    returns (r: Result<CompiledGroup, QueryError>)
    ensures r == GroupOf(name, decl, rules, rel)
  {
    var compiled: seq<CompiledRule> := [];
    for i := 0 to |rules|
      invariant CompileAll(rules[..i], rel) == Ok(compiled)
    {
      assert rules[..i + 1][..i] == rules[..i];
      var c := CompileRule(rules[i], rel);
      if c.Err? {
        CompileAllStops(rules, rel, i + 1);
        return Err(c.error);
      }
      compiled := compiled + [c.value];
    }
    assert rules[..|rules|] == rules;
    if |compiled| == 0 {
      return Err(NoRules(name));
    }
    var datanames := VariableNames(compiled[0].arguments);
    var loads: seq<string> := [];
    for k := 0 to |datanames|
      invariant loads == Loads(datanames[..k], rel)
    {
      assert datanames[..k + 1][..k] == datanames[..k];
      if datanames[k] in rel && !rel[datanames[k]].isNative {
        loads := loads + [datanames[k]];
      }
    }
    assert datanames[..|datanames|] == datanames;
    r := Ok(CompiledGroup(name, decl, compiled, loads));
  }

  /** A group compiles exactly when it has rules and each of them compiles;
      it then holds each rule's compilation in order and loads the derived
      relations the first rule reads. */
  lemma GroupOfSpec(name: string, decl: Decl, rules: seq<Rule>, rel: map<string, RelationInfo>)
    ensures GroupOf(name, decl, rules, rel).Ok? <==>
      rules != [] && forall j :: 0 <= j < |rules| ==> CompileRuleSpec(rules[j], rel).Ok?
    ensures GroupOf(name, decl, rules, rel).Ok? ==>
      var g := GroupOf(name, decl, rules, rel).value;
      g.name == name && g.decl == decl && |g.rules| == |rules| &&
      (forall j :: 0 <= j < |rules| ==> g.rules[j] == CompileRuleSpec(rules[j], rel).value) &&
      Datanames(rules[0], rel) == Ok(VariableNames(g.rules[0].arguments)) &&
      forall d :: d in g.loads <==> d in VariableNames(g.rules[0].arguments) && d in rel && !rel[d].isNative
  {
    MapAllOk(rules, r => CompileRuleSpec(r, rel));
    if GroupOf(name, decl, rules, rel).Ok? {
      LoadsSpec(VariableNames(GroupOf(name, decl, rules, rel).value.rules[0].arguments), rel);
    }
  }

  // ---------------------------------------------------------------------
  // Compiling a query

  /** The actions a query may end with, and the function each exports. */
  function CheckAction(a: Action): Result<string, QueryError>
  {
    if a.name == "for_each" || a.name == "csv" then Ok(a.name + "_" + a.target)
    else Err(UnknownAction(a.name))
  }

  function CheckActions(actions: seq<Action>): Result<seq<string>, QueryError>
  {
    MapAll(actions, CheckAction)
  }

  /** Actions are accepted exactly when each is `for_each` or `csv`; each
      then exports the function named by its kind and target. */
  lemma CheckActionsSpec(actions: seq<Action>)
    ensures CheckActions(actions).Ok? <==> forall i :: 0 <= i < |actions| ==> actions[i].name in {"for_each", "csv"}
    ensures CheckActions(actions).Ok? ==> (|CheckActions(actions).value| == |actions| &&
      forall i :: 0 <= i < |actions| ==> CheckActions(actions).value[i] == actions[i].name + "_" + actions[i].target)
    ensures CheckActions(actions).Err? ==> exists i :: (0 <= i < |actions| && actions[i].name !in {"for_each", "csv"} &&
      CheckActions(actions).error == UnknownAction(actions[i].name))
  {
    MapAllOk(actions, CheckAction);
    if CheckActions(actions).Err? {
      var i := MapAllErr(actions, CheckAction);
    }
  }

  /** Everything `compile_query` decides: the relations rules may read, one
      compiled group per defined relation, and the exported actions. */
  datatype CompiledQuery = CompiledQuery(relations: map<string, RelationInfo>, groups: seq<CompiledGroup>, exports: seq<string>)

  /** The relations a query's rules may read: the native ones, then every
      declaration in order. */
  function QueryRelations(decls: seq<Decl>): map<string, RelationInfo>
  {
    WithDecls(GenerateNativeFacts(), decls)
  }

  /** One group: its declaration is the first of that name. */
  function CompileGroupSpec(g: (string, seq<Rule>), decls: seq<Decl>, rel: map<string, RelationInfo>): Result<CompiledGroup, QueryError>
  {
    match FirstDecl(decls, g.0)
    case None => Err(MissingDeclaration(g.0))
    case Some(d) => GroupOf(g.0, d, g.1, rel)
  }

  function CompileGroups(gs: seq<(string, seq<Rule>)>, decls: seq<Decl>, rel: map<string, RelationInfo>): Result<seq<CompiledGroup>, QueryError>
  {
    MapAll(gs, g => CompileGroupSpec(g, decls, rel))
  }

  lemma CompileGroupsStops(gs: seq<(string, seq<Rule>)>, decls: seq<Decl>, rel: map<string, RelationInfo>, n: nat)
    requires n <= |gs| && CompileGroups(gs[..n], decls, rel).Err?
    ensures CompileGroups(gs, decls, rel) == CompileGroups(gs[..n], decls, rel)
  {
    MapAllStops(gs, g => CompileGroupSpec(g, decls, rel), n);
  }

  lemma CheckActionsStops(actions: seq<Action>, n: nat)
    requires n <= |actions| && CheckActions(actions[..n]).Err?
    ensures CheckActions(actions) == CheckActions(actions[..n])
  {
    MapAllStops(actions, CheckAction, n);
  }

  /** `compile_query`: groups in ascending name order, then the actions. */
  function CompileQuerySpec(query: seq<Rule>, decls: seq<Decl>, actions: seq<Action>): Result<CompiledQuery, QueryError>
  {
    var rel := QueryRelations(decls);
    match CompileGroups(GroupList(query), decls, rel)
    case Err(e) => Err(e)
    case Ok(gs) =>
      match CheckActions(actions)
      case Err(e) => Err(e)
      case Ok(exports) => Ok(CompiledQuery(rel, gs, exports))
  }

  /** The relation table: the native relations, then each declaration
      inserted in order. */
  method InsertDecls(decls: seq<Decl>) returns (rel: map<string, RelationInfo>)
    ensures rel == QueryRelations(decls)
  {
    rel := GenerateNativeFacts();
    for i := 0 to |decls|
      invariant rel == WithDecls(GenerateNativeFacts(), decls[..i])
    {
      assert decls[..i + 1][..i] == decls[..i];
      rel := rel[decls[i].name := DeclInfo(decls[i])];
    }
    assert decls[..|decls|] == decls;
  }

  /** `rule_map`: the rules grouped by name. */
  method BuildRuleMap(query: seq<Rule>) returns (ruleMap: map<string, seq<Rule>>)
    ensures ruleMap == GroupRules(query)
  {
    ruleMap := map[];
    for i := 0 to |query|
      invariant ruleMap == GroupRules(query[..i])
    {
      assert query[..i + 1][..i] == query[..i];
      var rule := query[i];
      ruleMap := ruleMap[rule.name := (if rule.name in ruleMap then ruleMap[rule.name] else []) + [rule]];
    }
    assert query[..|query|] == query;
  }

  /** Every group name has its rules in the rule map. */
  lemma GroupEntry(query: seq<Rule>, k: nat)
    requires k < |GroupNames(query)|
    ensures GroupNames(query)[k] in GroupRules(query)
    ensures GroupRules(query)[GroupNames(query)[k]] == RulesNamed(query, GroupNames(query)[k])
  {
    GroupNamesSpec(query);
    GroupRulesSpec(query, GroupNames(query)[k]);
  }

  /** The loop over `rule_map`, which a `BTreeMap` visits in ascending key
      order. */
  method CompileRuleGroups(query: seq<Rule>, ruleMap: map<string, seq<Rule>>, decls: seq<Decl>, rel: map<string, RelationInfo>)
    returns (r: Result<seq<CompiledGroup>, QueryError>)
    requires ruleMap == GroupRules(query)
    ensures r == CompileGroups(GroupList(query), decls, rel)
  {
    var order := GroupNames(query);
    ghost var gl := GroupList(query);
    var groups: seq<CompiledGroup> := [];
    for k := 0 to |order|
      invariant CompileGroups(gl[..k], decls, rel) == Ok(groups)
    {
      assert gl[..k + 1][..k] == gl[..k];
      var name := order[k];
      GroupEntry(query, k);
      var decl := FirstDecl(decls, name);
      if decl.None? {
        CompileGroupsStops(gl, decls, rel, k + 1);
        return Err(MissingDeclaration(name));
      }
      var g := CompileRules(name, ruleMap[name], decl.value, rel);
      if g.Err? {
        CompileGroupsStops(gl, decls, rel, k + 1);
        return Err(g.error);
      }
      groups := groups + [g.value];
    }
    assert gl[..|gl|] == gl;
    r := Ok(groups);
  }

  /** The loop over the actions: each must be `for_each` or `csv`. */
  method CompileActions(actions: seq<Action>) returns (r: Result<seq<string>, QueryError>)
    ensures r == CheckActions(actions)
  {
    var exports: seq<string> := [];
    for i := 0 to |actions|
      invariant CheckActions(actions[..i]) == Ok(exports)
    {
      assert actions[..i + 1][..i] == actions[..i];
      var action := actions[i];
      if action.name == "for_each" {
        exports := exports + [action.name + "_" + action.target];
      } else if action.name == "csv" {
        exports := exports + [action.name + "_" + action.target];
      } else {
        CheckActionsStops(actions, i + 1);
        return Err(UnknownAction(action.name));
      }
    }
    assert actions[..|actions|] == actions;
    r := Ok(exports);
  }

  method CompileQuery(query: seq<Rule>, decls: seq<Decl>, actions: seq<Action>) returns (r: Result<CompiledQuery, QueryError>)
    ensures r == CompileQuerySpec(query, decls, actions)
  {
    var rel := InsertDecls(decls);
    var ruleMap := BuildRuleMap(query);
    var groups := CompileRuleGroups(query, ruleMap, decls, rel);
    if groups.Err? {
      return Err(groups.error);
    }
    var exports := CompileActions(actions);
    if exports.Err? {
      return Err(exports.error);
    }
    r := Ok(CompiledQuery(rel, groups.value, exports.value));
  }

  /** A rule of the query is ready when its relation is declared and the
      rule compiles. */
  predicate RuleReady(rule: Rule, decls: seq<Decl>, rel: map<string, RelationInfo>)
  {
    FirstDecl(decls, rule.name).Some? && CompileRuleSpec(rule, rel).Ok?
  }

  lemma GroupReady(query: seq<Rule>, decls: seq<Decl>, rel: map<string, RelationInfo>, k: nat)
    requires k < |GroupList(query)|
    ensures CompileGroupSpec(GroupList(query)[k], decls, rel).Ok? <==>
      forall r :: r in query && r.name == GroupNames(query)[k] ==> RuleReady(r, decls, rel)
  {
    var name := GroupNames(query)[k];
    var rules := RulesNamed(query, name);
    GroupNamesSpec(query);
    RulesNamedSpec(query, name);
    GroupOfSpec(name, if FirstDecl(decls, name).Some? then FirstDecl(decls, name).value else Decl(name, []), rules, rel);
    assert name in RuleNames(query);
    var i :| 0 <= i < |query| && RuleNames(query)[i] == name;
    assert query[i] in rules;
    forall r | r in query && r.name == name
      ensures r in rules
    {
    }
    if forall j :: 0 <= j < |rules| ==> CompileRuleSpec(rules[j], rel).Ok? {
      forall r | r in query && r.name == name
        ensures CompileRuleSpec(r, rel).Ok?
      {
        var j :| 0 <= j < |rules| && rules[j] == r;
      }
    }
  }

  /** The group a rule of the query belongs to. */
  lemma GroupOfRule(query: seq<Rule>, i: nat) returns (k: nat)
    requires i < |query|
    ensures k < |GroupNames(query)| && GroupNames(query)[k] == query[i].name
  {
    GroupNamesSpec(query);
    assert RuleNames(query)[i] == query[i].name;
    assert query[i].name in RuleNames(query);
    assert query[i].name in GroupNames(query);
    k :| 0 <= k < |GroupNames(query)| && GroupNames(query)[k] == query[i].name;
  }

  lemma GroupsReadyRules(query: seq<Rule>, decls: seq<Decl>, rel: map<string, RelationInfo>)
    requires CompileGroups(GroupList(query), decls, rel).Ok?
    ensures forall i :: 0 <= i < |query| ==> RuleReady(query[i], decls, rel)
  {
    var gl := GroupList(query);
    assert forall k :: 0 <= k < |gl| ==> CompileGroupSpec(gl[k], decls, rel).Ok? by {
      MapAllOk(gl, g => CompileGroupSpec(g, decls, rel));
    }
    forall i | 0 <= i < |query|
      ensures RuleReady(query[i], decls, rel)
    {
      var k := GroupOfRule(query, i);
      GroupReady(query, decls, rel, k);
      assert query[i] in query;
    }
  }

  lemma RulesReadyGroups(query: seq<Rule>, decls: seq<Decl>, rel: map<string, RelationInfo>)
    requires forall i :: 0 <= i < |query| ==> RuleReady(query[i], decls, rel)
    ensures CompileGroups(GroupList(query), decls, rel).Ok?
  {
    var gl := GroupList(query);
    MapAllOk(gl, g => CompileGroupSpec(g, decls, rel));
    forall k | 0 <= k < |gl|
      ensures CompileGroupSpec(gl[k], decls, rel).Ok?
    {
      GroupReady(query, decls, rel, k);
    }
  }

  /** The groups compile exactly when every rule of the query is ready. */
  lemma GroupsReady(query: seq<Rule>, decls: seq<Decl>, rel: map<string, RelationInfo>)
    ensures CompileGroups(GroupList(query), decls, rel).Ok? <==>
      forall i :: 0 <= i < |query| ==> RuleReady(query[i], decls, rel)
  {
    if CompileGroups(GroupList(query), decls, rel).Ok? {
      GroupsReadyRules(query, decls, rel);
    } else if forall i :: 0 <= i < |query| ==> RuleReady(query[i], decls, rel) {
      RulesReadyGroups(query, decls, rel);
    }
  }

  /** A query compiles exactly when every rule's relation is declared,
      every rule compiles against the native and declared relations, and
      every action is `for_each` or `csv`. */
  lemma CompileQueryOk(query: seq<Rule>, decls: seq<Decl>, actions: seq<Action>)
    ensures CompileQuerySpec(query, decls, actions).Ok? <==>
      (forall i :: 0 <= i < |query| ==> RuleReady(query[i], decls, QueryRelations(decls))) &&
      (forall i :: 0 <= i < |actions| ==> actions[i].name in {"for_each", "csv"})
  {
    GroupsReady(query, decls, QueryRelations(decls));
    CheckActionsSpec(actions);
  }

  /** A compiled query has one group per relation its rules define, in
      ascending name order; each group carries the first declaration of its
      name and the compilation of that name's rules in query order. */
  lemma CompileQueryGroups(query: seq<Rule>, decls: seq<Decl>, actions: seq<Action>)
    requires CompileQuerySpec(query, decls, actions).Ok?
    ensures var q := CompileQuerySpec(query, decls, actions).value;
      q.relations == QueryRelations(decls) &&
      |q.groups| == |GroupNames(query)| &&
      StrictlySorted(GroupNames(query)) &&
      (forall n :: n in GroupNames(query) <==> exists i :: 0 <= i < |query| && query[i].name == n) &&
      forall k :: 0 <= k < |q.groups| ==>
        q.groups[k].name == GroupNames(query)[k] &&
        Some(q.groups[k].decl) == FirstDecl(decls, GroupNames(query)[k]) &&
        CompileAll(RulesNamed(query, GroupNames(query)[k]), QueryRelations(decls)) == Ok(q.groups[k].rules)
  {
    var rel := QueryRelations(decls);
    var gl := GroupList(query);
    GroupNamesSpec(query);
    MapAllOk(gl, g => CompileGroupSpec(g, decls, rel));
    var q := CompileQuerySpec(query, decls, actions).value;
    forall k | 0 <= k < |q.groups|
      ensures q.groups[k].name == GroupNames(query)[k]
      ensures Some(q.groups[k].decl) == FirstDecl(decls, GroupNames(query)[k])
      ensures CompileAll(RulesNamed(query, GroupNames(query)[k]), rel) == Ok(q.groups[k].rules)
    {
      var name := GroupNames(query)[k];
      var rules := RulesNamed(query, name);
      var d := FirstDecl(decls, name).value;
      GroupOfSpec(name, d, rules, rel);
      MapAllOk(rules, r => CompileRuleSpec(r, rel));
    }
    forall n
      ensures n in GroupNames(query) <==> exists i :: 0 <= i < |query| && query[i].name == n
    {
      if n in RuleNames(query) {
        var i :| 0 <= i < |query| && RuleNames(query)[i] == n;
      }
    }
  }
}
