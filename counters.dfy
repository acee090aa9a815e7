/** The generated `Counters`: one fresh-id counter per incremental id type of
    the schema. Spans reserve one constant, the root parent span 0, so their
    counter starts past it; types reserve none. */
module IdCounters {
  /** The number of span constants, and the one constant itself. */
  const SPAN_CONSTANTS: nat := 1
  const ROOT_PARENT_SPAN: nat := 0

  /** Types have no constants. */
  const TYPE_CONSTANTS: nat := 0

  class Counters {
    var spans: nat
    var types: nat

    /** Each counter starts at its number of constants. */
    constructor Default()
      ensures spans == SPAN_CONSTANTS && types == TYPE_CONSTANTS
    {
      spans := SPAN_CONSTANTS;
      types := TYPE_CONSTANTS;
    }

    /** Returns the current span counter and then increases it by one. */
    method GetFreshSpan() returns (span: nat)
      modifies this
      ensures span == old(spans) && spans == old(spans) + 1 && types == old(types)
    {
      span := spans;
      spans := spans + 1;
    }

    /** Returns the current type counter and then increases it by one. */
    method GetFreshType() returns (typ: nat)
      modifies this
      ensures typ == old(types) && types == old(types) + 1 && spans == old(spans)
    {
      typ := types;
      types := types + 1;
    }

    /** The root parent span constant; no counter changes. */
    method GetRootParentSpan() returns (span: nat)
      ensures span == ROOT_PARENT_SPAN && span < SPAN_CONSTANTS
    {
      span := ROOT_PARENT_SPAN;
    }
  }

  /** Successive fresh ids are distinct and increasing, and the counter
      ends at the number of ids taken past where it started. */
  method FreshTypes(c: Counters, n: nat) returns (ids: seq<nat>)
    modifies c
    ensures |ids| == n && c.types == old(c.types) + n && c.spans == old(c.spans)
    ensures forall i :: 0 <= i < n ==> ids[i] == old(c.types) + i
    ensures forall i, j :: 0 <= i < j < n ==> ids[i] < ids[j]
  {
    ids := [];
    while |ids| < n
      invariant |ids| <= n
      invariant c.types == old(c.types) + |ids| && c.spans == old(c.spans)
      invariant forall i :: 0 <= i < |ids| ==> ids[i] == old(c.types) + i
    {
      var id := c.GetFreshType();
      ids := ids + [id];
    }
  }
}
