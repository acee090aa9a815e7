/** The rustql query language's abstract syntax: declarations, rules made
    of (possibly negated) facts, and actions. */
module RustqlAst {

  /** `decl f(Mod, Mod);` */
  datatype Decl = Decl(name: string, argTypes: seq<string>)

  /** A fact `name(args)` in a rule body. */
  datatype Fact = Fact(name: string, args: seq<string>)

  /** A rule `name(args) :- facts`, each fact with whether it is negated. */
  datatype Rule = Rule(name: string, args: seq<string>, facts: seq<(Fact, bool)>)

  /** An action `name target rust_code`. */
  datatype Action = Action(name: string, target: string, rustCode: string)

  /** Whether some fact among `facts` is named `name`, scanning from the
      front as the iterator does. */
  function HasFactNamed(facts: seq<(Fact, bool)>, name: string): (b: bool)
    ensures b <==> exists i :: 0 <= i < |facts| && facts[i].0.name == name
  {
    if facts == [] then false
    else if facts[0].0.name == name then true
    else
      assert forall i :: 0 < i < |facts| ==> facts[1..][i - 1] == facts[i];
      HasFactNamed(facts[1..], name)
  }

  /** `Rule::is_recursive`: the rule uses a fact with its own name. */
  function IsRecursive(r: Rule): (b: bool)
    ensures b <==> exists i :: 0 <= i < |r.facts| && r.facts[i].0.name == r.name
  {
    HasFactNamed(r.facts, r.name)
  }

  /** The elements of `a` that also occur in `b`, in `a`'s order, repeats
      kept. */
  function Overlap(a: seq<string>, b: seq<string>): seq<string>
  {
    if a == [] then []
    else (if a[0] in b then [a[0]] else []) + Overlap(a[1..], b)
  }

  /** `Fact::get_overlapping`: this fact's arguments that also occur among
      the other's. */
  function GetOverlapping(self: Fact, other: Fact): (r: seq<string>)
    ensures |r| <= |self.args|
    ensures forall x :: x in r <==> x in self.args && x in other.args
  {
    OverlapMembers(self.args, other.args);
    Overlap(self.args, other.args)
  }

  /** An element is in the overlap exactly when it is in both sequences. */
  lemma {:induction false} OverlapMembers(a: seq<string>, b: seq<string>)
    ensures |Overlap(a, b)| <= |a|
    ensures forall x :: x in Overlap(a, b) <==> x in a && x in b
  {
    if a != [] {
      OverlapMembers(a[1..], b);
      assert a == [a[0]] + a[1..];
    }
  }

  /** The overlap keeps every occurrence of a shared element and drops
      every other element. */
  lemma {:induction false} OverlapCounts(a: seq<string>, b: seq<string>, x: string)
    ensures multiset(Overlap(a, b))[x] == if x in b then multiset(a)[x] else 0
  {
    if a != [] {
      OverlapCounts(a[1..], b, x);
      assert a == [a[0]] + a[1..];
    }
  }

  /** The overlap of a concatenation is the concatenation of the overlaps,
      so the overlap keeps the order of `a`. */
  lemma {:induction false} OverlapAppend(a1: seq<string>, a2: seq<string>, b: seq<string>)
    ensures Overlap(a1 + a2, b) == Overlap(a1, b) + Overlap(a2, b)
  {
    if a1 == [] {
      assert a1 + a2 == a2;
    } else {
      OverlapAppend(a1[1..], a2, b);
      assert (a1 + a2)[0] == a1[0] && (a1 + a2)[1..] == a1[1..] + a2;
    }
  }

  /** The overlap of a fact with itself is its whole argument list. */
  lemma {:induction false} OverlapSelf(a: seq<string>, b: seq<string>)
    requires forall x :: x in a ==> x in b
    ensures Overlap(a, b) == a
  {
    if a != [] {
      OverlapSelf(a[1..], b);
      assert a == [a[0]] + a[1..];
    }
  }

  /** Overlapping a fact with itself gives back its arguments. */
  lemma GetOverlappingSelf(f: Fact)
    ensures GetOverlapping(f, f) == f.args
  {
    OverlapSelf(f.args, f.args);
  }
}
