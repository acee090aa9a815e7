/** Sorted, duplicate-free lists of names, as produced by collecting names
    into a `BTreeMap` or by sorting and then removing duplicates. Names are
    ordered as Rust orders `String`s. */
module NameOrder {
  import Text

  /** The strict order of Rust `String`s. */
  predicate StrLess(a: string, b: string)
  {
    a != b && Text.StringLe(a, b)
  }

  lemma StrLessTrans(a: string, b: string, c: string)
    requires StrLess(a, b) && StrLess(b, c)
    ensures StrLess(a, c)
  {
    Text.StringLeTransitive(a, b, c);
    if a == c {
      Text.StringLeAntisymmetric(a, b);
    }
  }

  /** Any two different strings are ordered one way or the other. */
  lemma StrLessTotal(a: string, b: string)
    ensures a == b || StrLess(a, b) || StrLess(b, a)
  {
    Text.StringLeTotal(a, b);
  }

  predicate StrictlySorted(s: seq<string>)
  {
    forall i, j :: 0 <= i < j < |s| ==> StrLess(s[i], s[j])
  }

  /** Inserts a name into a sorted list of distinct names, unless present. */
  function InsertName(s: seq<string>, x: string): seq<string>
  {
    if s == [] then [x]
    else if x == s[0] then s
    else if StrLess(x, s[0]) then [x] + s
    else [s[0]] + InsertName(s[1..], x)
  }

  lemma {:induction false} InsertNameSpec(s: seq<string>, x: string)
    requires StrictlySorted(s)
    decreases |s|, 1
    ensures StrictlySorted(InsertName(s, x))
    ensures forall y :: y in InsertName(s, x) <==> y in s || y == x
  {
    if s != [] && x != s[0] {
      if StrLess(x, s[0]) {
        forall j | 0 < j < |s|
          ensures StrLess(x, s[j])
        {
          StrLessTrans(x, s[0], s[j]);
        }
      } else {
        InsertNameLater(s, x);
      }
    }
  }

  /** The step of `InsertNameSpec` where `x` goes after the first name. */
  lemma {:induction false} InsertNameLater(s: seq<string>, x: string)
    requires StrictlySorted(s) && s != [] && x != s[0] && !StrLess(x, s[0])
    ensures StrictlySorted(InsertName(s, x))
    ensures forall y :: y in InsertName(s, x) <==> y in s || y == x
    decreases |s|, 0
  {
    StrLessTotal(x, s[0]);
    var rest := InsertName(s[1..], x);
    InsertNameSpec(s[1..], x);
    assert forall y :: y in s[1..] ==> StrLess(s[0], y);
    assert InsertName(s, x) == [s[0]] + rest;
    assert s == [s[0]] + s[1..];
  }

  /** The names sorted with duplicates removed: `sort_unstable_by` on the
      name followed by `dedup_by` on the name. */
  function SortedNames(names: seq<string>): seq<string>
  {
    if names == [] then []
    else InsertName(SortedNames(names[..|names| - 1]), names[|names| - 1])
  }

  /** The result is strictly ascending and holds exactly the given names. */
  lemma {:induction false} SortedNamesSpec(names: seq<string>)
    ensures StrictlySorted(SortedNames(names))
    ensures forall y :: y in SortedNames(names) <==> y in names
  {
    if names != [] {
      var init := names[..|names| - 1];
      SortedNamesSpec(init);
      InsertNameSpec(SortedNames(init), names[|names| - 1]);
      assert names == init + [names[|names| - 1]];
    }
  }

  /** A strictly ascending list is determined by its elements, so any
      sorting algorithm followed by removing duplicates gives this list. */
  lemma {:induction false} SortedUnique(a: seq<string>, b: seq<string>)
    requires StrictlySorted(a) && StrictlySorted(b)
    requires forall y :: y in a <==> y in b
    ensures a == b
    decreases |a|
  {
    if a == [] {
      assert forall i :: 0 <= i < |b| ==> b[i] in a;
    } else {
      assert a[0] in b && b[0] in a;
      if a[0] != b[0] {
        var i :| 0 <= i < |a| && a[i] == b[0];
        var j :| 0 <= j < |b| && b[j] == a[0];
        StrLessTrans(a[0], b[0], a[0]);
      }
      forall y | y in a[1..]
        ensures y in b[1..]
      {
        var i :| 0 < i < |a| && a[i] == y;
        assert y in b && y != b[0];
        assert b == [b[0]] + b[1..];
      }
      forall y | y in b[1..]
        ensures y in a[1..]
      {
        var j :| 0 < j < |b| && b[j] == y;
        assert y in a && y != a[0];
        assert a == [a[0]] + a[1..];
      }
      SortedUnique(a[1..], b[1..]);
      assert a == [a[0]] + a[1..] && b == [b[0]] + b[1..];
    }
  }
}
