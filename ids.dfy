/** The id newtypes and enums the database generator declares: numeric
    conversions, `shift` and `index` for ids over a numeric type, and
    discriminants, default and display for enums. */
module Ids {
  import opened Wrappers
  import DslUtils

  /** The underlying numeric types of ids; `usize` is 64 bits wide here. */
  datatype IntType = U8 | U16 | U32 | U64 | Usize

  function Limit(t: IntType): (n: nat)
    ensures n > 0
  {
    match t
    case U8 => 0x100
    case U16 => 0x1_0000
    case U32 => 0x1_0000_0000
    case U64 => 0x1_0000_0000_0000_0000
    case Usize => 0x1_0000_0000_0000_0000
  }

  const USIZE_LIMIT: nat := 0x1_0000_0000_0000_0000

  /** The type's name as it appears in a schema. */
  function TypeName(t: IntType): string
  {
    match t
    case U8 => "u8"
    case U16 => "u16"
    case U32 => "u32"
    case U64 => "u64"
    case Usize => "usize"
  }

  /** `From<usize>`: `value as typ` keeps the low bits. */
  function FromUsize(value: nat, t: IntType): (id: nat)
    requires value < USIZE_LIMIT
    ensures id < Limit(t)
    ensures value < Limit(t) ==> id == value
  {
    value % Limit(t)
  }

  /** `Into<usize>` and `index()`: widening to usize keeps the value. */
  function IntoUsize(id: nat, t: IntType): (value: nat)
    requires id < Limit(t)
    ensures value < USIZE_LIMIT
  {
    id
  }

  /** Converting from usize and back is the identity on values the id type can hold. */
  lemma FromIntoRoundTrip(value: nat, t: IntType)
    requires value < Limit(t)
    ensures IntoUsize(FromUsize(value, t), t) == value
  {
  }

  /** `shift(offset)`: the id plus `offset`, or an abort on overflow. */
  function Shift(id: nat, offset: nat, t: IntType): (r: Option<nat>)
    requires id < Limit(t) && offset < Limit(t)
    ensures r.Some? <==> id + offset < Limit(t)
    ensures r.Some? ==> r.value == id + offset && r.value < Limit(t)
  {
    var sum := id + offset;
    if sum < Limit(t) then Some(sum) else None
  }

  /** A variant as written in the schema, possibly with a discriminant. */
  datatype Variant = Variant(name: string, discriminant: Option<nat>)

  /** Gives the variants the discriminants 0, 1, 2, ... in declaration order;
      a variant that already has one is rejected (`false`), since the
      generator asserts there is none. */
  method AssignDiscriminants(variants: array<Variant>) returns (ok: bool)
    modifies variants
    ensures ok <==> forall i :: 0 <= i < variants.Length ==> old(variants[i]).discriminant.None?
    ensures ok ==> forall i :: 0 <= i < variants.Length ==>
      variants[i] == Variant(old(variants[i]).name, Some(i))
  {
    var i := 0;
    while i < variants.Length
      invariant 0 <= i <= variants.Length
      invariant forall j :: 0 <= j < i ==> old(variants[j]).discriminant.None?
      invariant forall j :: 0 <= j < i ==> variants[j] == Variant(old(variants[j]).name, Some(j))
      invariant forall j :: i <= j < variants.Length ==> variants[j] == old(variants[j])
    {
      if variants[i].discriminant.Some? {
        return false;
      }
      variants[i] := Variant(variants[i].name, Some(i));
      i := i + 1;
    }
    return true;
  }

  /** An enum as the schema declares it: its variants and the name of the
      default one. */
  datatype EnumDecl = EnumDecl(name: string, variants: seq<string>, default: string)

  /** A value of a generated enum: the index of its variant. */
  datatype EnumValue = EnumValue(decl: EnumDecl, variant: nat)

  predicate WellFormedEnum(e: EnumDecl) {
    e.default in e.variants
  }

  function IndexOf(s: seq<string>, x: string): (i: nat)
    requires x in s
    ensures i < |s| && s[i] == x
    ensures forall j :: 0 <= j < i ==> s[j] != x
  {
    if s[0] == x then 0 else 1 + IndexOf(s[1..], x)
  }

  /** `Default`: the first variant named like the schema's default. */
  function DefaultValue(e: EnumDecl): (v: EnumValue)
    requires WellFormedEnum(e)
    ensures v.decl == e && v.variant < |e.variants| && e.variants[v.variant] == e.default
  {
    EnumValue(e, IndexOf(e.variants, e.default))
  }

  /** `Display` prints what `Debug` prints: the variant's name. */
  function Display(v: EnumValue): (s: string)
    requires v.variant < |v.decl.variants|
    ensures s == v.decl.variants[Discriminant(v)]
  {
    v.decl.variants[v.variant]
  }

  /** Variant names of a Rust enum are distinct. */
  predicate DistinctVariants(e: EnumDecl)
  {
    forall i, j :: 0 <= i < j < |e.variants| ==> e.variants[i] != e.variants[j]
  }

  /** The displayed name identifies the value: looking it up among the
      declared variants gives back the value's discriminant, so two values
      of one enum display alike exactly when they are the same variant. */
  lemma DisplayIdentifiesVariant(v: EnumValue, w: EnumValue)
    requires v.decl == w.decl && DistinctVariants(v.decl)
    requires v.variant < |v.decl.variants| && w.variant < |w.decl.variants|
    ensures IndexOf(v.decl.variants, Display(v)) == Discriminant(v)
    ensures Display(v) == Display(w) <==> v == w
  {
  }

  /** The `repr(u8)` discriminant of a value: its variant's position. */
  function Discriminant(v: EnumValue): nat
  {
    v.variant
  }

  /** The default value displays as the schema's default name. */
  lemma DefaultDisplaysAsDefault(e: EnumDecl)
    requires WellFormedEnum(e)
    ensures Display(DefaultValue(e)) == e.default
  {
  }
}
