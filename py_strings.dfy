/** Python's `str.endswith` and `str.split(sep)` as the report scripts use
    them: the split scans left to right and cuts at each occurrence of the
    separator that does not overlap an earlier cut. */
module PyStrings {
  import Text
  import opened Wrappers

  predicate EndsWith(s: string, suffix: string)
  {
    |suffix| <= |s| && s[|s| - |suffix|..] == suffix
  }

  /** `sep` occurs in `s` starting at position `j`. */
  predicate OccursAt(s: string, sep: string, j: nat)
  {
    j + |sep| <= |s| && s[j..j + |sep|] == sep
  }

  /** `s.find(sep)` from position `k` on: the first occurrence, if any. */
  function FirstIndexFrom(s: string, sep: string, k: nat): (r: Option<nat>)
    requires forall j :: 0 <= j < k ==> !OccursAt(s, sep, j)
    ensures r.Some? ==> OccursAt(s, sep, r.value) && forall j :: 0 <= j < r.value ==> !OccursAt(s, sep, j)
    ensures r.None? ==> forall j :: 0 <= j ==> !OccursAt(s, sep, j)
    decreases |s| - k
  {
    if k + |sep| > |s| then None
    else if s[k..k + |sep|] == sep then Some(k)
    else FirstIndexFrom(s, sep, k + 1)
  }

  function FirstIndex(s: string, sep: string): (r: Option<nat>)
    ensures r.Some? ==> OccursAt(s, sep, r.value) && forall j :: 0 <= j < r.value ==> !OccursAt(s, sep, j)
    ensures r.None? ==> forall j :: 0 <= j ==> !OccursAt(s, sep, j)
  {
    FirstIndexFrom(s, sep, 0)
  }

  /** `s.split(sep)` for a non-empty `sep`: never empty, and a string
      without `sep` is its own single piece. */
  function SplitOn(s: string, sep: string): (r: seq<string>)
    requires |sep| > 0
    ensures |r| >= 1
    decreases |s|
  {
    match FirstIndex(s, sep)
    case None => [s]
    case Some(i) => [s[..i]] + SplitOn(s[i + |sep|..], sep)
  }

  /** An occurrence cuts the string into the text before it, the
      separator and the text after it. */
  lemma CutAt(s: string, sep: string, i: nat)
    requires OccursAt(s, sep, i)
    ensures s == s[..i] + sep + s[i + |sep|..]
  {
    assert s == s[..i] + s[i..i + |sep|] + s[i + |sep|..];
  }

  /** Joining the pieces with the separator gives the string back. */
  lemma {:induction false} SplitJoin(s: string, sep: string)
    requires |sep| > 0
    ensures Text.Join(SplitOn(s, sep), sep) == s
    decreases |s|
  {
    var f := FirstIndex(s, sep);
    if f.Some? {
      var i := f.value;
      var rest := s[i + |sep|..];
      var tail := SplitOn(rest, sep);
      SplitJoin(rest, sep);
      CutAt(s, sep, i);
      assert SplitOn(s, sep) == [s[..i]] + tail;
      assert ([s[..i]] + tail)[1..] == tail;
    }
  }

  /** No piece contains the separator. */
  lemma {:induction false} SplitPiecesFree(s: string, sep: string)
    requires |sep| > 0
    ensures forall p, j :: p in SplitOn(s, sep) && 0 <= j ==> !OccursAt(p, sep, j)
    decreases |s|
  {
    match FirstIndex(s, sep)
    case None =>
    case Some(i) =>
      var rest := s[i + |sep|..];
      SplitPiecesFree(rest, sep);
      forall j | 0 <= j
        ensures !OccursAt(s[..i], sep, j)
      {
        if OccursAt(s[..i], sep, j) {
          assert s[..i][j..j + |sep|] == s[j..j + |sep|];
          assert OccursAt(s, sep, j);
        }
      }
  }

  /** `s.split(sep)[-1]`. */
  function LastSegment(s: string, sep: string): string
    requires |sep| > 0
  {
    var pieces := SplitOn(s, sep);
    pieces[|pieces| - 1]
  }

  /** The last piece ends the string, holds no separator, and is either
      the whole string or preceded by the separator. */
  lemma {:induction false} LastSegmentSpec(s: string, sep: string)
    requires |sep| > 0
    ensures EndsWith(s, LastSegment(s, sep))
    ensures forall j :: 0 <= j ==> !OccursAt(LastSegment(s, sep), sep, j)
    ensures LastSegment(s, sep) == s || EndsWith(s[..|s| - |LastSegment(s, sep)|], sep)
    decreases |s|
  {
    var f := FirstIndex(s, sep);
    if f.Some? {
      var i := f.value;
      var rest := s[i + |sep|..];
      LastSegmentSome(s, sep, i);
      LastSegmentSpec(rest, sep);
      var last := LastSegment(rest, sep);
      CutAt(s, sep, i);
      LastSegmentCut(s, s[..i], sep, rest, last);
    } else {
      SplitOnNone(s, sep);
    }
  }

  /** `split` at the first occurrence: the text before it, then the pieces
      of the text after it. */
  lemma SplitOnSome(s: string, sep: string, i: nat)
    requires |sep| > 0 && FirstIndex(s, sep) == Some(i)
    ensures i + |sep| <= |s|
    ensures SplitOn(s, sep) == [s[..i]] + SplitOn(s[i + |sep|..], sep)
  {
  }

  /** The last piece after the first occurrence is the last piece of the
      text after it. */
  lemma LastSegmentSome(s: string, sep: string, i: nat)
    requires |sep| > 0 && FirstIndex(s, sep) == Some(i)
    ensures i + |sep| <= |s|
    ensures LastSegment(s, sep) == LastSegment(s[i + |sep|..], sep)
  {
    SplitOnSome(s, sep, i);
    var tail := SplitOn(s[i + |sep|..], sep);
    assert ([s[..i]] + tail)[|tail|] == tail[|tail| - 1];
  }

  /** `split` without an occurrence: the string alone. */
  lemma SplitOnNone(s: string, sep: string)
    requires |sep| > 0 && FirstIndex(s, sep) == None
    ensures SplitOn(s, sep) == [s]
    ensures LastSegment(s, sep) == s
  {
  }

  /** The step of `LastSegmentSpec` for a string cut at an occurrence. */
  lemma LastSegmentCut(s: string, head: string, sep: string, rest: string, last: string)
    requires s == head + sep + rest
    requires EndsWith(rest, last)
    requires last == rest || EndsWith(rest[..|rest| - |last|], sep)
    ensures EndsWith(s, last)
    ensures EndsWith(s[..|s| - |last|], sep)
  {
    assert s[|s| - |last|..] == rest[|rest| - |last|..];
    assert s[..|s| - |last|] == head + sep + rest[..|rest| - |last|];
    if last == rest {
      assert rest[..|rest| - |last|] == [];
    } else {
      var pre := rest[..|rest| - |last|];
      assert (head + sep + pre)[|head + sep + pre| - |sep|..] == pre[|pre| - |sep|..];
    }
  }

  /** A substring test agrees with finding an occurrence. */
  lemma {:induction false} ContainsOccurs(s: string, sub: string)
    ensures Text.Contains(s, sub) <==> exists j :: 0 <= j && OccursAt(s, sub, j)
    decreases |s|
  {
    if Text.StartsWith(s, sub) {
      assert OccursAt(s, sub, 0);
    } else {
      assert !OccursAt(s, sub, 0);
      if s != [] {
        ContainsOccurs(s[1..], sub);
        forall j | 0 <= j && OccursAt(s[1..], sub, j)
          ensures OccursAt(s, sub, j + 1)
        {
          assert s[1..][j..j + |sub|] == s[j + 1..j + 1 + |sub|];
        }
        forall j | 1 <= j && OccursAt(s, sub, j)
          ensures OccursAt(s[1..], sub, j - 1)
        {
          assert s[1..][j - 1..j - 1 + |sub|] == s[j..j + |sub|];
        }
      }
    }
  }
}
