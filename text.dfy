/** Text helpers shared by the analysis queries: `{:x}` hex rendering of
    hashes, the byte-wise order of Rust strings, sorting, `join` and
    prefix and substring tests. */
module Text {

  predicate IsHexDigit(c: char)
  {
    '0' <= c <= '9' || 'a' <= c <= 'f'
  }

  function HexDigit(d: nat): (c: char)
    requires d < 16
    ensures IsHexDigit(c)
  {
    if d < 10 then ('0' as int + d) as char else ('a' as int + d - 10) as char
  }

  function DigitValue(c: char): nat
  {
    if '0' <= c <= '9' then c as int - '0' as int
    else if 'a' <= c <= 'f' then c as int - 'a' as int + 10
    else 0
  }

  /** `format!("{:x}", n)`: lower-case hex without leading zeros. */
  function Hex(n: nat): (r: string)
    ensures |r| >= 1
    ensures forall j :: 0 <= j < |r| ==> IsHexDigit(r[j])
  {
    (if n < 16 then [] else Hex(n / 16)) + [HexDigit(n % 16)]
  }

  /** Reads a hex numeral back. */
  function HexValue(s: string): nat
  {
    if s == [] then 0 else HexValue(s[..|s| - 1]) * 16 + DigitValue(s[|s| - 1])
  }

  lemma HexDigitValue(d: nat)
    requires d < 16
    ensures DigitValue(HexDigit(d)) == d
  {
  }

  /** The rendering can be read back, so distinct hashes render distinctly. */
  lemma {:induction false} HexRoundTrip(n: nat)
    ensures HexValue(Hex(n)) == n
  {
    var r := Hex(n);
    assert r[..|r| - 1] == if n < 16 then [] else Hex(n / 16);
    HexDigitValue(n % 16);
    if n >= 16 {
      HexRoundTrip(n / 16);
    }
  }

  /** Only zero renders with a leading '0'. */
  lemma {:induction false} HexNoLeadingZero(n: nat)
    ensures Hex(n)[0] == '0' ==> n == 0
  {
    if n >= 16 {
      HexNoLeadingZero(n / 16);
      assert Hex(n)[0] == Hex(n / 16)[0];
    }
  }

  lemma HexInjective(a: nat, b: nat)
    ensures Hex(a) == Hex(b) ==> a == b
  {
    HexRoundTrip(a);
    HexRoundTrip(b);
  }

  predicate StartsWith(s: string, prefix: string)
  {
    prefix <= s
  }

  /** `sub` occurs somewhere in `s`. */
  predicate Contains(s: string, sub: string)
  {
    StartsWith(s, sub) || (s != [] && Contains(s[1..], sub))
  }

  /** The order of Rust `String`s: the first differing character decides,
      and a proper prefix comes first. */
  predicate StringLe(a: string, b: string)
  {
    if a == [] then true
    else if b == [] then false
    else if a[0] != b[0] then a[0] < b[0]
    else StringLe(a[1..], b[1..])
  }

  lemma {:induction false} StringLeTotal(a: string, b: string)
    ensures StringLe(a, b) || StringLe(b, a)
  {
    if a != [] && b != [] && a[0] == b[0] {
      StringLeTotal(a[1..], b[1..]);
    }
  }

  lemma {:induction false} StringLeTransitive(a: string, b: string, c: string)
    requires StringLe(a, b) && StringLe(b, c)
    ensures StringLe(a, c)
  {
    if a != [] && b != [] && c != [] && a[0] == b[0] && b[0] == c[0] {
      StringLeTransitive(a[1..], b[1..], c[1..]);
    }
  }

  lemma {:induction false} StringLeAntisymmetric(a: string, b: string)
    requires StringLe(a, b) && StringLe(b, a)
    ensures a == b
  {
    if a != [] && b != [] {
      StringLeAntisymmetric(a[1..], b[1..]);
      assert a == [a[0]] + a[1..] && b == [b[0]] + b[1..];
    }
  }

  /** `s` is in ascending order of `key`. */
  predicate SortedBy<T>(s: seq<T>, key: T -> string)
  {
    forall i, j :: 0 <= i < j < |s| ==> StringLe(key(s[i]), key(s[j]))
  }

  function InsertBy<T>(x: T, s: seq<T>, key: T -> string): (r: seq<T>)
    ensures |r| == |s| + 1
  {
    if s == [] then [x] else if StringLe(key(x), key(s[0])) then [x] + s else [s[0]] + InsertBy(x, s[1..], key)
  }

  /** `sorted_by_key` with a string key (insertion sort). */
  function SortBy<T>(s: seq<T>, key: T -> string): (r: seq<T>)
    ensures |r| == |s|
  {
    if s == [] then [] else InsertBy(s[0], SortBy(s[1..], key), key)
  }

  lemma {:induction false} InsertByKeeps<T>(x: T, s: seq<T>, key: T -> string)
    ensures multiset(InsertBy(x, s, key)) == multiset(s) + multiset{x}
  {
    if s != [] && !StringLe(key(x), key(s[0])) {
      InsertByKeeps(x, s[1..], key);
      var t := InsertBy(x, s[1..], key);
      assert multiset([s[0]] + t) == multiset{s[0]} + multiset(t);
      assert s == [s[0]] + s[1..];
      assert multiset(s) == multiset{s[0]} + multiset(s[1..]);
    }
  }

  lemma {:induction false} InsertBySorted<T>(x: T, s: seq<T>, key: T -> string)
    requires SortedBy(s, key)
    ensures SortedBy(InsertBy(x, s, key), key)
    ensures InsertBy(x, s, key)[0] == x || (s != [] && InsertBy(x, s, key)[0] == s[0])
  {
    if s == [] {
    } else if StringLe(key(x), key(s[0])) {
      var r := [x] + s;
      forall i, j | 0 <= i < j < |r|
        ensures StringLe(key(r[i]), key(r[j]))
      {
        if i == 0 {
          if j > 1 {
            StringLeTransitive(key(x), key(s[0]), key(s[j - 1]));
          }
        }
      }
    } else {
      StringLeTotal(key(x), key(s[0]));
      assert SortedBy(s[1..], key) by {
        forall i, j | 0 <= i < j < |s[1..]|
          ensures StringLe(key(s[1..][i]), key(s[1..][j]))
        {
          assert s[1..][i] == s[i + 1] && s[1..][j] == s[j + 1];
        }
      }
      InsertBySorted(x, s[1..], key);
      var t := InsertBy(x, s[1..], key);
      assert StringLe(key(s[0]), key(t[0])) by {
        if t[0] != x {
          assert t[0] == s[1];
        }
      }
      var r := [s[0]] + t;
      forall i, j | 0 <= i < j < |r|
        ensures StringLe(key(r[i]), key(r[j]))
      {
        assert r[j] == t[j - 1];
        if i > 0 {
          assert r[i] == t[i - 1];
        } else if j > 1 {
          StringLeTransitive(key(s[0]), key(t[0]), key(t[j - 1]));
        }
      }
    }
  }

  /** Sorting orders the elements by their keys and keeps exactly the same
      elements. */
  lemma {:induction false} SortByCorrect<T>(s: seq<T>, key: T -> string)
    ensures SortedBy(SortBy(s, key), key)
    ensures multiset(SortBy(s, key)) == multiset(s)
  {
    if s != [] {
      SortByCorrect(s[1..], key);
      InsertBySorted(s[0], SortBy(s[1..], key), key);
      InsertByKeeps(s[0], SortBy(s[1..], key), key);
      assert s == [s[0]] + s[1..];
    }
  }

  function Itself(s: string): string
  {
    s
  }

  /** `.sorted()` on strings. */
  function SortStrings(s: seq<string>): seq<string>
  {
    SortBy(s, Itself)
  }

  /** Sorted strings are in ascending order and are the same strings. */
  lemma SortStringsCorrect(s: seq<string>)
    ensures forall i, j :: 0 <= i < j < |SortStrings(s)| ==> StringLe(SortStrings(s)[i], SortStrings(s)[j])
    ensures multiset(SortStrings(s)) == multiset(s)
  {
    SortByCorrect(s, Itself);
  }

  /** `join(sep)`: the parts with `sep` between neighbours. */
  function Join(parts: seq<string>, sep: string): string
  {
    if parts == [] then "" else if |parts| == 1 then parts[0] else parts[0] + sep + Join(parts[1..], sep)
  }

  /** The joined length is the parts' lengths plus one separator per gap. */
  function TotalLength(parts: seq<string>): nat
  {
    if parts == [] then 0 else |parts[0]| + TotalLength(parts[1..])
  }

  lemma {:induction false} JoinLength(parts: seq<string>, sep: string)
    requires parts != []
    ensures |Join(parts, sep)| == TotalLength(parts) + (|parts| - 1) * |sep|
  {
    if |parts| > 1 {
      JoinLength(parts[1..], sep);
    }
  }
}
