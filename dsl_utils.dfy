/** Helpers of the database code generator: fresh identifier names and the
    classification of schema types as numeric or copyable. */
module DslUtils {

  /** The decimal rendering of a number, as `format!("{}")` prints it. */
  function DecimalString(n: nat): (s: string)
    ensures |s| > 0
  {
    if n < 10 then [DigitChar(n)] else DecimalString(n / 10) + [DigitChar(n % 10)]
  }

  function DigitChar(d: nat): char
    requires d < 10
  {
    ['0', '1', '2', '3', '4', '5', '6', '7', '8', '9'][d]
  }

  function DigitValue(c: char): nat
  {
    if '0' <= c <= '9' then (c as int - '0' as int) as nat else 0
  }

  /** Reads a decimal string back. */
  function ParseDecimal(s: string): nat
  {
    if |s| <= 1 then (if s == [] then 0 else DigitValue(s[0]))
    else 10 * ParseDecimal(s[..|s| - 1]) + DigitValue(s[|s| - 1])
  }

  lemma DigitRoundTrip(d: nat)
    requires d < 10
    ensures DigitValue(DigitChar(d)) == d
  {
  }

  lemma {:induction false} DecimalRoundTrip(n: nat)
    ensures ParseDecimal(DecimalString(n)) == n
  {
    DigitRoundTrip(n % 10);
    if n >= 10 {
      var s := DecimalString(n);
      DecimalRoundTrip(n / 10);
      assert s[..|s| - 1] == DecimalString(n / 10);
    }
  }

  /** The identifier `"<name>_<counter>"`. */
  function Ident(name: string, counter: nat): string
  {
    name + "_" + DecimalString(counter)
  }

  /** Different counters give different identifiers for the same name. */
  lemma IdentInjective(name: string, a: nat, b: nat)
    requires Ident(name, a) == Ident(name, b)
    ensures a == b
  {
    var prefix := |name| + 1;
    assert Ident(name, a)[prefix..] == DecimalString(a);
    assert Ident(name, b)[prefix..] == DecimalString(b);
    DecimalRoundTrip(a);
    DecimalRoundTrip(b);
  }

  /** Generates identifiers `<name>_1`, `<name>_2`, ... */
  class NameGenerator {
    var name: string
    var counter: nat

    constructor New(name: string)
      ensures this.name == name && counter == 0
    {
      this.name := name;
      counter := 0;
    }

    method Inc()
      modifies this
      ensures name == old(name) && counter == old(counter) + 1
    {
      counter := counter + 1;
    }

    /** The last generated identifier; changes nothing. */
    function GetIdent(): string
      reads this
    {
      Ident(name, counter)
    }

    /** Increments first, then returns the identifier for the new counter,
        so it differs from every identifier returned before. */
    method GetFreshIdent() returns (ident: string)
      modifies this
      ensures name == old(name) && counter == old(counter) + 1
      ensures ident == Ident(name, counter)
      ensures forall k: nat :: k <= old(counter) ==> ident != Ident(name, k)
    {
      counter := counter + 1;
      ident := Ident(name, counter);
      forall k: nat | k <= old(counter)
        ensures ident != Ident(name, k)
      {
        if ident == Ident(name, k) {
          IdentInjective(name, counter, k);
        }
      }
    }
  }

  /** Two fresh identifiers drawn one after the other differ. */
  method TwoFreshIdents(name: string) returns (first: string, second: string)
    ensures first != second
    ensures first == Ident(name, 1) && second == Ident(name, 2)
  {
    var g := new NameGenerator.New(name);
    first := g.GetFreshIdent();
    second := g.GetFreshIdent();
  }

  /** The syntax of a type as the generator sees it. */
  datatype SynType =
    | PathType(qself: bool, segments: seq<string>)
    | TupleType(elems: seq<SynType>)
    | OtherType

  /** What a schema declares a type name to be. */
  datatype TypeKind = CustomId | IncrementalId | InternedId | Enum | RustType

  /** The schema's kind for a type name; undeclared names are plain Rust types. */
  function KindOf(kinds: map<string, TypeKind>, name: string): TypeKind
  {
    if name in kinds then kinds[name] else RustType
  }

  /** `path.is_ident(x)`: a path made of the single segment `x`. */
  predicate IsIdent(segments: seq<string>, x: string) {
    segments == [x]
  }

  const NUMERIC_TYPES: set<string> := {"u8", "u16", "u32", "u64", "usize"}

  /** Whether ids over this type get numeric conversions and `shift`. */
  function IsNumericType(typ: SynType): (r: bool)
    ensures r <==> typ.PathType? && !typ.qself && |typ.segments| == 1 && typ.segments[0] in NUMERIC_TYPES
  {
    match typ
    case PathType(qself, segments) =>
      !qself && (IsIdent(segments, "u8") || IsIdent(segments, "u16") || IsIdent(segments, "u32")
                 || IsIdent(segments, "u64") || IsIdent(segments, "usize"))
    case _ => false
  }

  /** Whether values of this type are plain data that may be saved byte by byte. */
  function IsCopyType(typ: SynType, kinds: map<string, TypeKind>): bool
  {
    match typ
    case PathType(qself, segments) =>
      if qself || |segments| != 1 then false
      else if segments[0] in {"bool", "u32", "u64", "u128"} then true
      else KindOf(kinds, segments[0]) != RustType
    case TupleType(elems) =>
      forall i :: 0 <= i < |elems| ==> IsCopyType(elems[i], kinds)
    case OtherType => false
  }

  /** A single-name path is copy exactly when it is bool, u32, u64 or u128
      or a name the schema declares as an id or an enum; so u8, u16 and
      usize are copy only if the schema declares them. */
  lemma IsCopyTypeOfName(name: string, kinds: map<string, TypeKind>)
    ensures IsCopyType(PathType(false, [name]), kinds) <==>
      name in {"bool", "u32", "u64", "u128"} ||
      (name in kinds && kinds[name] in {CustomId, IncrementalId, InternedId, Enum})
  {
  }

  /** A tuple is copy exactly when all its elements are; the empty tuple is copy. */
  lemma IsCopyTypeOfTuple(elems: seq<SynType>, kinds: map<string, TypeKind>)
    ensures IsCopyType(TupleType(elems), kinds) <==> forall e :: e in elems ==> IsCopyType(e, kinds)
  {
    assert IsCopyType(TupleType(elems), kinds) == forall i :: 0 <= i < |elems| ==> IsCopyType(elems[i], kinds);
    if !IsCopyType(TupleType(elems), kinds) {
      var i :| 0 <= i < |elems| && !IsCopyType(elems[i], kinds);
      assert elems[i] in elems;
    }
  }

  /** Paths with a qualified self, multi-segment paths and other syntax are not copy. */
  lemma IsCopyTypeOther(typ: SynType, kinds: map<string, TypeKind>)
    requires typ.OtherType? || (typ.PathType? && (typ.qself || |typ.segments| != 1))
    ensures !IsCopyType(typ, kinds)
  {
  }
}
