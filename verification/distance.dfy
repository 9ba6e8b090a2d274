/**
 Distances as `calc_bellman_ford` computes them: an integer or `math.inf`.
 Only the three operations the algorithm applies to them are modelled, with
 Python's meaning for infinity: `inf + w` is `inf`, `x < inf` holds for
 every finite `x`, and `inf < y` never holds.
 */
module Distance {

  datatype Dist = Fin(v: int) | Inf

  function Add(a: Dist, b: Dist): (r: Dist)
    ensures r.Fin? <==> a.Fin? && b.Fin?
    ensures r.Fin? ==> r.v == a.v + b.v
  {
    if a.Fin? && b.Fin? then Fin(a.v + b.v) else Inf
  }

  /** Python's `<` on an int-or-infinity. */
  predicate Less(a: Dist, b: Dist)
  {
    a.Fin? && (b.Inf? || a.v < b.v)
  }

  /** Python's `<=` on an int-or-infinity. */
  predicate Le(a: Dist, b: Dist)
  {
    b.Inf? || (a.Fin? && a.v <= b.v)
  }

  /** `<` and `<=` are each other's negation with the arguments swapped, and
      `<=` is a total preorder compatible with addition. */
  lemma OrderFacts(a: Dist, b: Dist, c: Dist)
    ensures !Less(a, b) <==> Le(b, a)
    ensures Le(a, a)
    ensures Le(a, b) && Le(b, c) ==> Le(a, c)
    ensures Le(a, b) ==> Le(Add(a, c), Add(b, c))
  {
  }

  /** Pointwise `<=` of two distance lists of the same length. */
  predicate Below(a: seq<Dist>, b: seq<Dist>)
  {
    |a| == |b| && forall x :: 0 <= x < |a| ==> Le(a[x], b[x])
  }
}
