/** The syntax visitor of syn-grep, which measures unsafe code in a parsed
    Rust file: it counts expressions, records every `unsafe` block with the
    number of expressions inside it, and reports each function holding an
    unsafe block. Blocks outside every function are the file's global
    blocks. */
module SynGrepVisitors {
  import opened Wrappers

  /** The largest `u64`; the expression counter panics beyond it. */
  const U64_MAX: nat := 0xFFFF_FFFF_FFFF_FFFF

  datatype UnsafeBlockReport = UnsafeBlockReport(expressionCount: nat)

  datatype FunctionReport = FunctionReport(
    functionName: string,
    isUnsafe: bool,
    expressionCount: nat,
    unsafeBlocks: seq<UnsafeBlockReport>)

  /** The syntax tree as the visitor sees it: expressions (an `unsafe`
      block among them), functions (free, impl and trait functions alike),
      and every other node, which is only walked through. */
  datatype Node =
    | Expr(isUnsafeBlock: bool, children: seq<Node>)
    | FnItem(name: string, isUnsafe: bool, body: seq<Node>)
    | Other(children: seq<Node>)

  /** The visitor's fields. */
  datatype VisitorState = VisitorState(
    expressionCount: nat,
    unsafeBlocks: seq<UnsafeBlockReport>,
    functions: seq<FunctionReport>)

  /** `after_visit_fn`: a function with unsafe blocks is reported with
      those blocks, which leave the visitor. */
  function AfterVisitFnOf(st: VisitorState, name: string, isUnsafe: bool, count: nat): VisitorState
  {
    if st.unsafeBlocks != [] then
      st.(unsafeBlocks := [], functions := st.functions + [FunctionReport(name, isUnsafe, count, st.unsafeBlocks)])
    else st
  }

  /** The state after visiting one node, or `None` when the expression
      counter overflows. */
  function Visit(n: Node, st: VisitorState): (r: Option<VisitorState>)
    ensures r.Some? ==> r.value.expressionCount >= st.expressionCount
    decreases n, 1
  {
    match n
    case Expr(isUnsafeBlock, children) =>
      if st.expressionCount + 1 > U64_MAX then None
      else
        var st1 := st.(expressionCount := st.expressionCount + 1);
        (match VisitAll(children, st1)
         case None => None
         case Some(st2) =>
           if isUnsafeBlock then
             Some(st2.(unsafeBlocks := st2.unsafeBlocks + [UnsafeBlockReport(st2.expressionCount - st1.expressionCount)]))
           else Some(st2))
    case FnItem(name, isUnsafe, body) =>
      (match VisitAll(body, st.(unsafeBlocks := []))
       case None => None
       case Some(st2) =>
         var st3 := AfterVisitFnOf(st2, name, isUnsafe, st2.expressionCount - st.expressionCount);
         Some(st3.(unsafeBlocks := st.unsafeBlocks)))
    case Other(children) => VisitAll(children, st)
  }

  /** Visits the nodes left to right. */
  function VisitAll(ns: seq<Node>, st: VisitorState): (r: Option<VisitorState>)
    ensures r.Some? ==> r.value.expressionCount >= st.expressionCount
    decreases ns, 0
  {
    if ns == [] then Some(st)
    else
      match Visit(ns[0], st)
      case None => None
      case Some(st1) => VisitAll(ns[1..], st1)
  }

  /** The number of expressions in a node, nested functions included. */
  function ExprCount(n: Node): nat
    decreases n, 1
  {
    match n
    case Expr(_, children) => 1 + ExprCountAll(children)
    case FnItem(_, _, body) => ExprCountAll(body)
    case Other(children) => ExprCountAll(children)
  }

  function ExprCountAll(ns: seq<Node>): nat
    decreases ns, 0
  {
    if ns == [] then 0 else ExprCount(ns[0]) + ExprCountAll(ns[1..])
  }

  /** The unsafe blocks of a node that lie in no function, inner blocks
      first; each is sized by the expressions inside it. */
  function BlocksOf(n: Node): seq<UnsafeBlockReport>
    decreases n, 1
  {
    match n
    case Expr(isUnsafeBlock, children) =>
      BlocksOfAll(children) + (if isUnsafeBlock then [UnsafeBlockReport(ExprCountAll(children))] else [])
    case FnItem(_, _, _) => []
    case Other(children) => BlocksOfAll(children)
  }

  function BlocksOfAll(ns: seq<Node>): seq<UnsafeBlockReport>
    decreases ns, 0
  {
    if ns == [] then [] else BlocksOf(ns[0]) + BlocksOfAll(ns[1..])
  }

  /** The reports of the functions in a node that hold an unsafe block of
      their own, a nested function before the one around it. */
  function FunctionsOf(n: Node): seq<FunctionReport>
    decreases n, 1
  {
    match n
    case Expr(_, children) => FunctionsOfAll(children)
    case FnItem(name, isUnsafe, body) =>
      FunctionsOfAll(body)
      + (if BlocksOfAll(body) != [] then [FunctionReport(name, isUnsafe, ExprCountAll(body), BlocksOfAll(body))] else [])
    case Other(children) => FunctionsOfAll(children)
  }

  function FunctionsOfAll(ns: seq<Node>): seq<FunctionReport>
    decreases ns, 0
  {
    if ns == [] then [] else FunctionsOf(ns[0]) + FunctionsOfAll(ns[1..])
  }

  /** What visiting a node adds: its expressions to the count, its blocks
      outside functions to the open blocks and its functions to the
      reports; the visit fails exactly when the count would pass `u64`. */
  function Expected(st: VisitorState, count: nat, blocks: seq<UnsafeBlockReport>, functions: seq<FunctionReport>): Option<VisitorState>
  {
    if st.expressionCount + count <= U64_MAX then
      Some(VisitorState(st.expressionCount + count, st.unsafeBlocks + blocks, st.functions + functions))
    else None
  }

  /** Visiting a node adds exactly its expressions, its blocks outside
      functions and its reported functions, and fails exactly on
      overflow. */
  lemma {:induction false} VisitSpec(n: Node, st: VisitorState)
    requires st.expressionCount <= U64_MAX
    ensures Visit(n, st) == Expected(st, ExprCount(n), BlocksOf(n), FunctionsOf(n))
    decreases n, 1
  {
    match n
    case Expr(_, _) => VisitExprSpec(n, st);
    case FnItem(_, _, _) => VisitFnSpec(n, st);
    case Other(children) => VisitAllSpec(children, st);
  }

  lemma {:induction false} VisitExprSpec(n: Node, st: VisitorState)
    requires n.Expr? && st.expressionCount <= U64_MAX
    ensures Visit(n, st) == Expected(st, ExprCount(n), BlocksOf(n), FunctionsOf(n))
    decreases n, 0
  {
    assert ExprCount(n) == 1 + ExprCountAll(n.children);
    if st.expressionCount + 1 <= U64_MAX {
      var st1 := st.(expressionCount := st.expressionCount + 1);
      VisitAllSpec(n.children, st1);
      if st.expressionCount + ExprCount(n) <= U64_MAX {
        var st2 := VisitAll(n.children, st1).value;
        assert st2.expressionCount - st1.expressionCount == ExprCountAll(n.children);
        assert st2.functions == st.functions + FunctionsOf(n);
        if n.isUnsafeBlock {
          assert st2.unsafeBlocks + [UnsafeBlockReport(ExprCountAll(n.children))] == st.unsafeBlocks + BlocksOf(n);
          assert Visit(n, st) == Some(st2.(unsafeBlocks := st2.unsafeBlocks + [UnsafeBlockReport(ExprCountAll(n.children))]));
        } else {
          assert st2.unsafeBlocks == st.unsafeBlocks + BlocksOf(n);
          assert Visit(n, st) == Some(st2);
        }
      } else {
        assert VisitAll(n.children, st1) == None;
        assert Visit(n, st) == None;
      }
    }
  }

  lemma {:induction false} VisitFnSpec(n: Node, st: VisitorState)
    requires n.FnItem? && st.expressionCount <= U64_MAX
    ensures Visit(n, st) == Expected(st, ExprCount(n), BlocksOf(n), FunctionsOf(n))
    decreases n, 0
  {
    var inner := st.(unsafeBlocks := []);
    VisitAllSpec(n.body, inner);
    assert ExprCount(n) == ExprCountAll(n.body);
    if st.expressionCount + ExprCountAll(n.body) <= U64_MAX {
      var st2 := VisitAll(n.body, inner).value;
      assert st2.unsafeBlocks == BlocksOfAll(n.body);
      assert st2.expressionCount - st.expressionCount == ExprCountAll(n.body);
      var st3 := AfterVisitFnOf(st2, n.name, n.isUnsafe, ExprCountAll(n.body));
      assert Visit(n, st) == Some(st3.(unsafeBlocks := st.unsafeBlocks));
      var extra := if BlocksOfAll(n.body) != [] then [FunctionReport(n.name, n.isUnsafe, ExprCountAll(n.body), BlocksOfAll(n.body))] else [];
      assert st3.functions == st.functions + FunctionsOfAll(n.body) + extra;
      assert st.functions + FunctionsOfAll(n.body) + extra == st.functions + FunctionsOf(n);
      assert st.unsafeBlocks + BlocksOf(n) == st.unsafeBlocks;
    } else {
      assert Visit(n, st) == None;
    }
  }

  lemma {:induction false} VisitAllSpec(ns: seq<Node>, st: VisitorState)
    requires st.expressionCount <= U64_MAX
    ensures VisitAll(ns, st) == Expected(st, ExprCountAll(ns), BlocksOfAll(ns), FunctionsOfAll(ns))
    decreases ns, 0
  {
    if ns == [] {
      assert st.unsafeBlocks + [] == st.unsafeBlocks && st.functions + [] == st.functions;
    } else {
      VisitSpec(ns[0], st);
      var r := Visit(ns[0], st);
      if r.Some? {
        VisitAllSpec(ns[1..], r.value);
        assert VisitAll(ns, st) == VisitAll(ns[1..], r.value);
        assert st.unsafeBlocks + BlocksOf(ns[0]) + BlocksOfAll(ns[1..]) == st.unsafeBlocks + BlocksOfAll(ns);
        assert st.functions + FunctionsOf(ns[0]) + FunctionsOfAll(ns[1..]) == st.functions + FunctionsOfAll(ns);
      }
    }
  }

  /** Every reported function holds at least one unsafe block. */
  lemma {:induction false} ReportedFunctionsHaveBlocks(ns: seq<Node>)
    ensures forall i :: 0 <= i < |FunctionsOfAll(ns)| ==> FunctionsOfAll(ns)[i].unsafeBlocks != []
    decreases ns, 0
  {
    if ns != [] {
      ReportedFunctionsHaveBlocksOf(ns[0]);
      ReportedFunctionsHaveBlocks(ns[1..]);
    }
  }

  lemma {:induction false} ReportedFunctionsHaveBlocksOf(n: Node)
    ensures forall i :: 0 <= i < |FunctionsOf(n)| ==> FunctionsOf(n)[i].unsafeBlocks != []
    decreases n, 1
  {
    match n
    case Expr(_, children) => ReportedFunctionsHaveBlocks(children);
    case FnItem(_, _, body) => ReportedFunctionsHaveBlocks(body);
    case Other(children) => ReportedFunctionsHaveBlocks(children);
  }

  /** The visitor with its three fields. */
  class FunctionVisitor {
    var expressionCount: nat
    var unsafeBlocks: seq<UnsafeBlockReport>
    var functions: seq<FunctionReport>

    function State(): VisitorState
      reads this
    {
      VisitorState(expressionCount, unsafeBlocks, functions)
    }

    /** `FunctionVisitor::default()`. */
    constructor ()
      ensures State() == VisitorState(0, [], [])
    {
      expressionCount := 0;
      unsafeBlocks := [];
      functions := [];
    }

    /** `after_visit_fn`, taking the open blocks into a function report. */
    method AfterVisitFn(name: string, isUnsafe: bool, count: nat)
      modifies this
      ensures State() == AfterVisitFnOf(old(State()), name, isUnsafe, count)
    {
      if unsafeBlocks != [] {
        var blocks := unsafeBlocks;
        unsafeBlocks := [];
        functions := functions + [FunctionReport(name, isUnsafe, count, blocks)];
      }
    }

    /** `visit_expr`, `visit_expr_unsafe` and the three `visit_*_fn`
      methods; `ok` is false where the counter's `unwrap` panics. */
    method VisitNode(n: Node) returns (ok: bool)
      modifies this
      ensures ok <==> Visit(n, old(State())).Some?
      ensures ok ==> State() == Visit(n, old(State())).value
      decreases n, 1
    {
      match n
      case Expr(isUnsafeBlock, children) =>
        if expressionCount + 1 > U64_MAX {
          return false;
        }
        expressionCount := expressionCount + 1;
        var oldExpressionCount := expressionCount;
        ok := VisitNodes(children);
        if ok && isUnsafeBlock {
          unsafeBlocks := unsafeBlocks + [UnsafeBlockReport(expressionCount - oldExpressionCount)];
        }
      case FnItem(name, isUnsafe, body) =>
        var oldUnsafeBlocks := unsafeBlocks;
        unsafeBlocks := [];
        var oldExpressionCount := expressionCount;
        ok := VisitNodes(body);
        if ok {
          AfterVisitFn(name, isUnsafe, expressionCount - oldExpressionCount);
          unsafeBlocks := oldUnsafeBlocks;
        }
      case Other(children) =>
        ok := VisitNodes(children);
    }

    /** The walk over a node's children, in order. */
    method VisitNodes(ns: seq<Node>) returns (ok: bool)
      modifies this
      ensures ok <==> VisitAll(ns, old(State())).Some?
      ensures ok ==> State() == VisitAll(ns, old(State())).value
      decreases ns, 0
    {
      var i := 0;
      while i < |ns|
        invariant i <= |ns|
        invariant VisitAll(ns[i..], State()) == VisitAll(ns, old(State()))
      {
        assert ns[i..][0] == ns[i] && ns[i..][1..] == ns[i + 1..];
        ok := VisitNode(ns[i]);
        if !ok {
          return;
        }
        i := i + 1;
      }
      assert ns[i..] == [];
      return true;
    }
  }

  /** Visiting a parsed file, as the per-file analysis does: the functions
      are the reported functions and the blocks left open are the global
      blocks; the analysis panics when the file has more than `u64`
      expressions. */
  method AnalyseItems(items: seq<Node>) returns (ok: bool, functions: seq<FunctionReport>, globalBlocks: seq<UnsafeBlockReport>)
    ensures ok <==> ExprCountAll(items) <= U64_MAX
    ensures ok ==> functions == FunctionsOfAll(items) && globalBlocks == BlocksOfAll(items)
  {
    var visitor := new FunctionVisitor();
    ok := visitor.VisitNodes(items);
    functions := visitor.functions;
    globalBlocks := visitor.unsafeBlocks;
    VisitAllSpec(items, VisitorState(0, [], []));
  }
}
