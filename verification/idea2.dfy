/**
 * The second design iteration (src/idea2.rs): a boundary is a value
 * wrapped as `Inclusive(v)` or `Exclusive(v)`, and `Lower`/`Upper` wrap a
 * boundary. The wrapper is a type in the library, so a binary operation
 * takes two boundaries of the same wrapper; their derived order is then the
 * order of the values.
 */
module Idea2Interval {
  import opened Options
  import BoundTypes
  import Bounds
  import Half
  import Intervals

  datatype Boundary = Inclusive(val: int) | Exclusive(val: int)
  datatype Lower = Lower(b: Boundary)
  datatype Upper = Upper(b: Boundary)
  datatype Interval = Interval(lower: Lower, upper: Upper)

  /** Two boundaries of the same wrapper type. */
  predicate SameType(a: Boundary, b: Boundary)
  {
    a.Inclusive? == b.Inclusive?
  }

  function Kind(b: Boundary): (k: BoundTypes.BoundType)
    ensures k == BoundTypes.Inclusive <==> b.Inclusive?
  {
    if b.Inclusive? then BoundTypes.Inclusive else BoundTypes.Exclusive
  }

  /** `opposite`: the other wrapper around the same value. */
  function Opposite(b: Boundary): (r: Boundary)
    ensures r.val == b.val && r.Inclusive? != b.Inclusive?
    ensures Kind(r) == BoundTypes.Flip(Kind(b))
  {
    match b
    case Inclusive(v) => Exclusive(v)
    case Exclusive(v) => Inclusive(v)
  }

  function LowerHalf(l: Lower): (h: Half.HalfBounded)
    ensures h.side == BoundTypes.Left && Half.Limit(h) == l.b.val && Half.Kind(h) == Kind(l.b)
  {
    Half.HalfBounded(Bounds.Bound(l.b.val, Kind(l.b)), BoundTypes.Left)
  }

  function UpperHalf(u: Upper): (h: Half.HalfBounded)
    ensures h.side == BoundTypes.Right && Half.Limit(h) == u.b.val && Half.Kind(h) == Kind(u.b)
  {
    Half.HalfBounded(Bounds.Bound(u.b.val, Kind(u.b)), BoundTypes.Right)
  }

  function ToCanonical(i: Interval): (r: Intervals.Interval)
    ensures r.left == LowerHalf(i.lower) && r.right == UpperHalf(i.upper)
  {
    Intervals.Interval(LowerHalf(i.lower), UpperHalf(i.upper))
  }

  /** `Contains` for `Lower<Inclusive>` (`inf <= t`) and `Lower<Exclusive>` (`inf < t`). */
  function LowerContains(l: Lower, t: int): (r: bool)
    ensures r <==> Half.Contains(LowerHalf(l), t)
  {
    match l.b
    case Inclusive(inf) => inf <= t
    case Exclusive(inf) => inf < t
  }

  /** `Contains` for `Upper<Inclusive>` (`t <= sup`) and `Upper<Exclusive>` (`t < sup`). */
  function UpperContains(u: Upper, t: int): (r: bool)
    ensures r <==> Half.Contains(UpperHalf(u), t)
  {
    match u.b
    case Inclusive(sup) => t <= sup
    case Exclusive(sup) => t < sup
  }

  /** `Ord::max`/`Ord::min` of two same-type boundaries. */
  function MaxBoundary(a: Boundary, b: Boundary): (r: Boundary)
    requires SameType(a, b)
    ensures (r == a || r == b) && a.val <= r.val && b.val <= r.val
  {
    if a.val <= b.val then b else a
  }

  function MinBoundary(a: Boundary, b: Boundary): (r: Boundary)
    requires SameType(a, b)
    ensures (r == a || r == b) && r.val <= a.val && r.val <= b.val
  {
    if a.val <= b.val then a else b
  }

  function LowerIntersection(a: Lower, o: Lower): (r: Lower)
    requires SameType(a.b, o.b)
    ensures SameType(r.b, a.b)
    ensures forall t :: LowerContains(r, t) <==> LowerContains(a, t) && LowerContains(o, t)
  {
    Lower(MaxBoundary(a.b, o.b))
  }

  function LowerUnion(a: Lower, o: Lower): (r: Lower)
    requires SameType(a.b, o.b)
    ensures SameType(r.b, a.b)
    ensures forall t :: LowerContains(r, t) <==> LowerContains(a, t) || LowerContains(o, t)
  {
    Lower(MinBoundary(a.b, o.b))
  }

  function UpperIntersection(a: Upper, o: Upper): (r: Upper)
    requires SameType(a.b, o.b)
    ensures SameType(r.b, a.b)
    ensures forall t :: UpperContains(r, t) <==> UpperContains(a, t) && UpperContains(o, t)
  {
    Upper(MinBoundary(a.b, o.b))
  }

  function UpperUnion(a: Upper, o: Upper): (r: Upper)
    requires SameType(a.b, o.b)
    ensures SameType(r.b, a.b)
    ensures forall t :: UpperContains(r, t) <==> UpperContains(a, t) || UpperContains(o, t)
  {
    Upper(MaxBoundary(a.b, o.b))
  }

  /** `Lower::includes`: `inf <= other.inf`. */
  function LowerIncludes(a: Lower, o: Lower): (r: bool)
    requires SameType(a.b, o.b)
    ensures r <==> forall t :: LowerContains(o, t) ==> LowerContains(a, t)
  {
    Half.IncludesSameKindIsSuperset(LowerHalf(a), LowerHalf(o));
    assert forall t :: LowerContains(o, t) == Half.Contains(LowerHalf(o), t) && LowerContains(a, t) == Half.Contains(LowerHalf(a), t);
    a.b.val <= o.b.val
  }

  /** `Upper::includes`: `other <= self` under the derived order. */
  function UpperIncludes(a: Upper, o: Upper): (r: bool)
    requires SameType(a.b, o.b)
    ensures r <==> forall t :: UpperContains(o, t) ==> UpperContains(a, t)
  {
    Half.IncludesSameKindIsSuperset(UpperHalf(a), UpperHalf(o));
    assert forall t :: UpperContains(o, t) == Half.Contains(UpperHalf(o), t) && UpperContains(a, t) == Half.Contains(UpperHalf(a), t);
    o.b.val <= a.b.val
  }

  /** `Lower::complement`: the upper bound of the complement. */
  function LowerComplement(l: Lower): (r: Upper)
    ensures UpperHalf(r) == Half.Flip(LowerHalf(l))
    ensures forall t :: UpperContains(r, t) <==> !LowerContains(l, t)
  {
    Upper(Opposite(l.b))
  }

  /** `Upper::complement`: the lower bound of the complement. */
  function UpperComplement(u: Upper): (r: Lower)
    ensures LowerHalf(r) == Half.Flip(UpperHalf(u))
    ensures forall t :: LowerContains(r, t) <==> !UpperContains(u, t)
  {
    Lower(Opposite(u.b))
  }

  predicate Valid(i: Interval)
  {
    Intervals.Valid(ToCanonical(i))
  }

  predicate SameKinds(a: Interval, o: Interval)
  {
    SameType(a.lower.b, o.lower.b) && SameType(a.upper.b, o.upper.b)
  }

  /** `new_internal`: `Some` when each bound holds the other's value. */
  function NewInternal(lower: Lower, upper: Upper): (r: Option<Interval>)
    ensures r.Some? <==> Intervals.IsValidInterval(LowerHalf(lower), UpperHalf(upper))
    ensures r.Some? ==> Valid(r.value) && r.value == Interval(lower, upper)
  {
    if LowerContains(lower, upper.b.val) && UpperContains(upper, lower.b.val) then
      Some(Interval(lower, upper))
    else
      None
  }

  /** `new`. */
  function New(lower: Boundary, upper: Boundary): (r: Option<Interval>)
    ensures r.Some? <==> Intervals.TryNew(Bounds.Bound(lower.val, Kind(lower)), Bounds.Bound(upper.val, Kind(upper))).Some?
    ensures r.Some? ==> Intervals.TryNew(Bounds.Bound(lower.val, Kind(lower)), Bounds.Bound(upper.val, Kind(upper))) == Some(ToCanonical(r.value))
  {
    NewInternal(Lower(lower), Upper(upper))
  }

  function Contains(i: Interval, t: int): (r: bool)
    ensures r <==> Intervals.Contains(ToCanonical(i), t)
  {
    LowerContains(i.lower, t) && UpperContains(i.upper, t)
  }

  function Includes(a: Interval, o: Interval): (r: bool)
    requires SameKinds(a, o)
    ensures r ==> forall t :: Contains(o, t) ==> Contains(a, t)
    ensures Valid(a) && Valid(o) ==> (r <==> Intervals.Includes(ToCanonical(a), ToCanonical(o)))
    ensures Valid(a) && Valid(o) ==> (r <==> Intervals.IncludesExact(ToCanonical(a), ToCanonical(o)))
    ensures Valid(a) && Valid(o) ==>
      (r <==> forall x :: Intervals.ContainsReal(ToCanonical(o), x) ==> Intervals.ContainsReal(ToCanonical(a), x))
  {
    Intervals.InclusionFacts(ToCanonical(a), ToCanonical(o));
    LowerIncludes(a.lower, o.lower) && UpperIncludes(a.upper, o.upper)
  }

  function Intersection(a: Interval, o: Interval): (r: Option<Interval>)
    requires SameKinds(a, o)
    ensures r.Some? ==> Valid(r.value) && SameKinds(r.value, a)
    ensures r.Some? ==> forall t :: Contains(r.value, t) <==> Contains(a, t) && Contains(o, t)
  {
    NewInternal(LowerIntersection(a.lower, o.lower), UpperIntersection(a.upper, o.upper))
  }

  function UnionInterval(a: Interval, o: Interval): (r: Interval)
    requires SameKinds(a, o)
    ensures SameKinds(r, a)
    ensures forall t :: Contains(a, t) || Contains(o, t) ==> Contains(r, t)
  {
    Interval(LowerUnion(a.lower, o.lower), UpperUnion(a.upper, o.upper))
  }

  /** `union`: the covering interval and a subtrahend of opposite bounds, tried in both orders. */
  function Union(a: Interval, o: Interval): (r: (Interval, Option<Interval>))
    requires SameKinds(a, o)
    ensures r.0 == UnionInterval(a, o)
    ensures r.1.Some? ==> Valid(r.1.value)
    ensures r.1.Some? ==> forall t :: Contains(r.1.value, t) ==> !Contains(a, t) && !Contains(o, t)
  {
    var first := New(Opposite(a.upper.b), Opposite(o.lower.b));
    (UnionInterval(a, o), if first.Some? then first else New(Opposite(o.upper.b), Opposite(a.lower.b)))
  }

  function Overlaps(a: Interval, o: Interval): (r: bool)
    requires SameKinds(a, o)
    ensures r <==> Intersection(a, o).Some?
    ensures Valid(a) && Valid(o) ==> (r <==> Intervals.Overlaps(ToCanonical(a), ToCanonical(o)))
    ensures Valid(a) && Valid(o) ==>
      (r <==> exists x :: Intervals.ContainsReal(ToCanonical(a), x) && Intervals.ContainsReal(ToCanonical(o), x))
  {
    Half.SameKindOrdersByLimit(LowerHalf(a.lower), LowerHalf(o.lower));
    Half.SameKindOrdersByLimit(UpperHalf(a.upper), UpperHalf(o.upper));
    Half.CmpAntisymmetric(LowerHalf(a.lower), LowerHalf(o.lower));
    Half.CmpAntisymmetric(UpperHalf(a.upper), UpperHalf(o.upper));
    Intervals.OverlapFacts(ToCanonical(a), ToCanonical(o));
    Intersection(a, o).Some?
  }

  /** `measure`: `sup - inf`, never negative for a valid interval. */
  function Measure(i: Interval): (r: int)
    ensures Valid(i) ==> r >= 0
  {
    i.upper.b.val - i.lower.b.val
  }

  // ---------------------------------------------------------------------------
  // Lemmas

  lemma OppositeInvolutive(b: Boundary)
    ensures Opposite(Opposite(b)) == b
  {
  }

  /** The file's test: `[0,3)` holds 0, 1 and 2, and not 3 or -1. */
  lemma ContainsExample()
    ensures var r := New(Inclusive(0), Exclusive(3));
            r.Some? && Contains(r.value, 0) && Contains(r.value, 1) && Contains(r.value, 2)
            && !Contains(r.value, 3) && !Contains(r.value, -1)
  {
  }

  /** `intersection` and `overlaps` agree with the canonical ones. */
  lemma IntersectionAgrees(a: Interval, o: Interval)
    requires Valid(a) && Valid(o) && SameKinds(a, o)
    ensures Overlaps(a, o) <==> Intervals.Overlaps(ToCanonical(a), ToCanonical(o))
    ensures Overlaps(a, o) ==> Intervals.Intersection(ToCanonical(a), ToCanonical(o)) == Some(ToCanonical(Intersection(a, o).value))
  {
    Half.SameKindOrdersByLimit(LowerHalf(a.lower), LowerHalf(o.lower));
    Half.SameKindOrdersByLimit(UpperHalf(a.upper), UpperHalf(o.upper));
    Half.CmpAntisymmetric(LowerHalf(a.lower), LowerHalf(o.lower));
    Half.CmpAntisymmetric(UpperHalf(a.upper), UpperHalf(o.upper));
  }

  /** `union_interval` is the canonical `span`, and the subtrahend is the canonical `gap`. */
  lemma UnionAgrees(a: Interval, o: Interval)
    requires Valid(a) && Valid(o) && SameKinds(a, o)
    ensures ToCanonical(Union(a, o).0) == Intervals.Span(ToCanonical(a), ToCanonical(o))
    ensures Union(a, o).1.Some? <==> Intervals.Gap(ToCanonical(a), ToCanonical(o)).Some?
    ensures Union(a, o).1.Some? ==> Intervals.Gap(ToCanonical(a), ToCanonical(o)) == Some(ToCanonical(Union(a, o).1.value))
  {
    Half.SameKindOrdersByLimit(LowerHalf(a.lower), LowerHalf(o.lower));
    Half.SameKindOrdersByLimit(UpperHalf(a.upper), UpperHalf(o.upper));
    Half.CmpAntisymmetric(LowerHalf(a.lower), LowerHalf(o.lower));
    Half.CmpAntisymmetric(UpperHalf(a.upper), UpperHalf(o.upper));
  }
}
