/**
 * The `core` design iteration (src/core.rs): `Lower`/`Upper` wrappers
 * around a boundary value whose kind is fixed by its type. An interval's
 * type fixes both kinds, so every binary operation here takes operands of
 * equal kinds. The boundary's `less_eq`/`greater_eq` are not part of this
 * model's sources; they are read as the kind-dependent comparisons that the
 * file's own test relies on (`[0,3)` holds 0, 1, 2 and not 3 or -1).
 */
module CoreInterval {
  import opened Options
  import opened BoundTypes
  import Bounds
  import Half
  import Intervals

  /** A boundary value with its kind: `Inclusive(v)` or `Exclusive(v)`. */
  datatype Boundary = Boundary(val: int, kind: BoundType)
  datatype Lower = Lower(b: Boundary)
  datatype Upper = Upper(b: Boundary)
  datatype Interval = Interval(lower: Lower, upper: Upper)
  datatype IntervalIsEmpty = IntervalIsEmpty

  /** The bound a `std::ops::RangeBounds` reports. */
  datatype StdBound = Included(v: int) | Excluded(v: int) | Unbounded

  function FlipBoundary(b: Boundary): (r: Boundary)
    ensures r.val == b.val && r.kind != b.kind
  {
    Boundary(b.val, BoundTypes.Flip(b.kind))
  }

  /** The canonical half-bounds the wrappers stand for. */
  function LowerHalf(l: Lower): (h: Half.HalfBounded)
    ensures h.side == Left && Half.Limit(h) == l.b.val && Half.Kind(h) == l.b.kind
  {
    Half.HalfBounded(Bounds.Bound(l.b.val, l.b.kind), Left)
  }

  function UpperHalf(u: Upper): (h: Half.HalfBounded)
    ensures h.side == Right && Half.Limit(h) == u.b.val && Half.Kind(h) == u.b.kind
  {
    Half.HalfBounded(Bounds.Bound(u.b.val, u.b.kind), Right)
  }

  function ToCanonical(i: Interval): (r: Intervals.Interval)
    ensures r.left == LowerHalf(i.lower) && r.right == UpperHalf(i.upper)
  {
    Intervals.Interval(LowerHalf(i.lower), UpperHalf(i.upper))
  }

  /** `Lower::contains`: the boundary is below `t` (`<=` or `<` by kind). */
  function LowerContains(l: Lower, t: int): (r: bool)
    ensures r <==> Half.Contains(LowerHalf(l), t)
  {
    KindLess(l.b.kind, l.b.val, t)
  }

  /** `Upper::contains`: the boundary is above `t`. */
  function UpperContains(u: Upper, t: int): (r: bool)
    ensures r <==> Half.Contains(UpperHalf(u), t)
  {
    KindLess(u.b.kind, t, u.b.val)
  }

  /** `Lower::includes`: compares values only. */
  function LowerIncludes(a: Lower, o: Lower): (r: bool)
    requires a.b.kind == o.b.kind
    ensures r <==> forall t :: LowerContains(o, t) ==> LowerContains(a, t)
  {
    Half.IncludesSameKindIsSuperset(LowerHalf(a), LowerHalf(o));
    assert forall t :: LowerContains(o, t) == Half.Contains(LowerHalf(o), t) && LowerContains(a, t) == Half.Contains(LowerHalf(a), t);
    a.b.val <= o.b.val
  }

  /**
   * `Upper::includes`: compares whole boundaries; their derived order is the
   * order of the values because both have the same type.
   */
  function UpperIncludes(a: Upper, o: Upper): (r: bool)
    requires a.b.kind == o.b.kind
    ensures r <==> forall t :: UpperContains(o, t) ==> UpperContains(a, t)
  {
    Half.IncludesSameKindIsSuperset(UpperHalf(a), UpperHalf(o));
    assert forall t :: UpperContains(o, t) == Half.Contains(UpperHalf(o), t) && UpperContains(a, t) == Half.Contains(UpperHalf(a), t);
    o.b.val <= a.b.val
  }

  /** `Ord::max` and `Ord::min` on same-type boundaries: the second wins a tie in `max`, the first in `min`. */
  function MaxBoundary(a: Boundary, b: Boundary): (r: Boundary)
    requires a.kind == b.kind
    ensures (r == a || r == b) && a.val <= r.val && b.val <= r.val
  {
    if a.val <= b.val then b else a
  }

  function MinBoundary(a: Boundary, b: Boundary): (r: Boundary)
    requires a.kind == b.kind
    ensures (r == a || r == b) && r.val <= a.val && r.val <= b.val
  {
    if a.val <= b.val then a else b
  }

  function LowerIntersection(a: Lower, o: Lower): (r: Lower)
    requires a.b.kind == o.b.kind
    ensures r.b.kind == a.b.kind
    ensures forall t :: LowerContains(r, t) <==> LowerContains(a, t) && LowerContains(o, t)
  {
    Lower(MaxBoundary(a.b, o.b))
  }

  function LowerUnion(a: Lower, o: Lower): (r: Lower)
    requires a.b.kind == o.b.kind
    ensures r.b.kind == a.b.kind
    ensures forall t :: LowerContains(r, t) <==> LowerContains(a, t) || LowerContains(o, t)
  {
    Lower(MinBoundary(a.b, o.b))
  }

  function UpperIntersection(a: Upper, o: Upper): (r: Upper)
    requires a.b.kind == o.b.kind
    ensures r.b.kind == a.b.kind
    ensures forall t :: UpperContains(r, t) <==> UpperContains(a, t) && UpperContains(o, t)
  {
    Upper(MinBoundary(a.b, o.b))
  }

  function UpperUnion(a: Upper, o: Upper): (r: Upper)
    requires a.b.kind == o.b.kind
    ensures r.b.kind == a.b.kind
    ensures forall t :: UpperContains(r, t) <==> UpperContains(a, t) || UpperContains(o, t)
  {
    Upper(MaxBoundary(a.b, o.b))
  }

  /** `Lower::flip`: the upper bound of the complement. */
  function LowerFlip(l: Lower): (r: Upper)
    ensures UpperHalf(r) == Half.Flip(LowerHalf(l))
    ensures forall t :: UpperContains(r, t) <==> !LowerContains(l, t)
  {
    Upper(FlipBoundary(l.b))
  }

  /** `Upper::flip`: the lower bound of the complement. */
  function UpperFlip(u: Upper): (r: Lower)
    ensures LowerHalf(r) == Half.Flip(UpperHalf(u))
    ensures forall t :: LowerContains(r, t) <==> !UpperContains(u, t)
  {
    Lower(FlipBoundary(u.b))
  }

  /** `new_`: the pair, or `IntervalIsEmpty` unless each bound holds the other's value. */
  function NewPair(lower: Lower, upper: Upper): (r: Result<Interval, IntervalIsEmpty>)
    ensures r.Ok? <==> Intervals.IsValidInterval(LowerHalf(lower), UpperHalf(upper))
    ensures r.Ok? ==> r.value == Interval(lower, upper) && Intervals.Valid(ToCanonical(r.value))
  {
    if LowerContains(lower, upper.b.val) && UpperContains(upper, lower.b.val) then
      Ok(Interval(lower, upper))
    else
      Err(IntervalIsEmpty)
  }

  /** `new`. */
  function New(lower: Boundary, upper: Boundary): (r: Result<Interval, IntervalIsEmpty>)
    ensures r.Ok? <==> Intervals.TryNew(Bounds.Bound(lower.val, lower.kind), Bounds.Bound(upper.val, upper.kind)).Some?
    ensures r.Ok? ==> Intervals.TryNew(Bounds.Bound(lower.val, lower.kind), Bounds.Bound(upper.val, upper.kind)) == Some(ToCanonical(r.value))
  {
    NewPair(Lower(lower), Upper(upper))
  }

  predicate Valid(i: Interval)
  {
    Intervals.Valid(ToCanonical(i))
  }

  function Contains(i: Interval, t: int): (r: bool)
    ensures r <==> Intervals.Contains(ToCanonical(i), t)
  {
    LowerContains(i.lower, t) && UpperContains(i.upper, t)
  }

  function Includes(a: Interval, o: Interval): (r: bool)
    requires Kinds(a) == Kinds(o)
    ensures r ==> forall t :: Contains(o, t) ==> Contains(a, t)
    ensures Valid(a) && Valid(o) ==> (r <==> Intervals.Includes(ToCanonical(a), ToCanonical(o)))
    ensures Valid(a) && Valid(o) ==> (r <==> Intervals.IncludesExact(ToCanonical(a), ToCanonical(o)))
    ensures Valid(a) && Valid(o) ==>
      (r <==> forall x :: Intervals.ContainsReal(ToCanonical(o), x) ==> Intervals.ContainsReal(ToCanonical(a), x))
  {
    Intervals.InclusionFacts(ToCanonical(a), ToCanonical(o));
    LowerIncludes(a.lower, o.lower) && UpperIncludes(a.upper, o.upper)
  }

  function Kinds(i: Interval): (BoundType, BoundType)
  {
    (i.lower.b.kind, i.upper.b.kind)
  }

  function Intersection(a: Interval, o: Interval): (r: Option<Interval>)
    requires Kinds(a) == Kinds(o)
    ensures r.Some? ==> Valid(r.value) && Kinds(r.value) == Kinds(a)
    ensures r.Some? ==> forall t :: Contains(r.value, t) <==> Contains(a, t) && Contains(o, t)
  {
    NewPair(LowerIntersection(a.lower, o.lower), UpperIntersection(a.upper, o.upper)).ToOption()
  }

  function UnionInterval(a: Interval, o: Interval): (r: Interval)
    requires Kinds(a) == Kinds(o)
    ensures Kinds(r) == Kinds(a)
    ensures forall t :: Contains(a, t) || Contains(o, t) ==> Contains(r, t)
  {
    Interval(LowerUnion(a.lower, o.lower), UpperUnion(a.upper, o.upper))
  }

  /** `union`: the covering interval and the subtrahend between the inputs, tried in both orders. */
  function Union(a: Interval, o: Interval): (r: (Interval, Option<Interval>))
    requires Kinds(a) == Kinds(o)
    ensures r.0 == UnionInterval(a, o)
    ensures r.1.Some? ==> Valid(r.1.value)
    ensures r.1.Some? ==> forall t :: Contains(r.1.value, t) ==> !Contains(a, t) && !Contains(o, t)
  {
    var first := NewPair(UpperFlip(a.upper), LowerFlip(o.lower));
    var subtrahend := if first.Ok? then first else NewPair(UpperFlip(o.upper), LowerFlip(a.lower));
    (UnionInterval(a, o), subtrahend.ToOption())
  }

  function Overlaps(a: Interval, o: Interval): (r: bool)
    requires Kinds(a) == Kinds(o)
    ensures r <==> Intersection(a, o).Some?
    ensures Valid(a) && Valid(o) ==> (r <==> Intervals.Overlaps(ToCanonical(a), ToCanonical(o)))
    ensures Valid(a) && Valid(o) ==>
      (r <==> exists x :: Intervals.ContainsReal(ToCanonical(a), x) && Intervals.ContainsReal(ToCanonical(o), x))
  {
    Half.SameKindOrdersByLimit(LowerHalf(a.lower), LowerHalf(o.lower));
    Half.SameKindOrdersByLimit(UpperHalf(a.upper), UpperHalf(o.upper));
    Half.CmpAntisymmetric(LowerHalf(a.lower), LowerHalf(o.lower));
    Half.CmpAntisymmetric(UpperHalf(a.upper), UpperHalf(o.upper));
    Intervals.OverlapFacts(ToCanonical(a), ToCanonical(o));
    Intersection(a, o).Some?
  }

  /** `measure`: `sup - inf`, never negative for a valid interval. */
  function Measure(i: Interval): (r: int)
    ensures Valid(i) ==> r >= 0
  {
    i.upper.b.val - i.lower.b.val
  }

  /** `RangeBounds` of `Lower<Inclusive>`/`Lower<Exclusive>`: the start bound by kind, no end. */
  function LowerRangeBounds(l: Lower): (r: (StdBound, StdBound))
    ensures r.1 == Unbounded
    ensures forall t :: RangeContains(r, t) <==> LowerContains(l, t)
  {
    (if l.b.kind == Inclusive then Included(l.b.val) else Excluded(l.b.val), Unbounded)
  }

  /** `RangeBounds` of `Upper<Inclusive>`/`Upper<Exclusive>`: no start, the end bound by kind. */
  function UpperRangeBounds(u: Upper): (r: (StdBound, StdBound))
    ensures r.0 == Unbounded
    ensures forall t :: RangeContains(r, t) <==> UpperContains(u, t)
  {
    (Unbounded, if u.b.kind == Inclusive then Included(u.b.val) else Excluded(u.b.val))
  }

  /** `RangeBounds::contains` for a start/end pair. */
  predicate RangeContains(r: (StdBound, StdBound), t: int)
  {
    (match r.0
     case Included(s) => s <= t
     case Excluded(s) => s < t
     case Unbounded => true)
    &&
    (match r.1
     case Included(e) => t <= e
     case Excluded(e) => t < e
     case Unbounded => true)
  }

  /** `RangeBounds` for `Interval`, as written: `Included(inf)` and `Excluded(sup)` for every kind. */
  function RangeBoundsAsWritten(i: Interval): (r: (StdBound, StdBound))
    ensures r.0.Included? && r.0.v == i.lower.b.val
    ensures r.1.Excluded? && r.1.v == i.upper.b.val
    ensures Kinds(i) == (Inclusive, Exclusive) ==> forall t :: RangeContains(r, t) <==> Contains(i, t)
  {
    (Included(i.lower.b.val), Excluded(i.upper.b.val))
  }

  /** `RangeBounds` for `Interval` reporting each end by its kind, as the `Lower`/`Upper` impls do. */
  function RangeBounds(i: Interval): (r: (StdBound, StdBound))
    ensures r.0 == LowerRangeBounds(i.lower).0 && r.1 == UpperRangeBounds(i.upper).1
    ensures forall t :: RangeContains(r, t) <==> Contains(i, t)
  {
    (LowerRangeBounds(i.lower).0, UpperRangeBounds(i.upper).1)
  }

  // ---------------------------------------------------------------------------
  // Lemmas

  /** The file's test: `[0,3)` holds 0, 1 and 2, and not 3 or -1. */
  lemma ContainsExample()
    ensures var r := New(Boundary(0, Inclusive), Boundary(3, Exclusive));
            r.Ok? && Contains(r.value, 0) && Contains(r.value, 1) && Contains(r.value, 2)
            && !Contains(r.value, 3) && !Contains(r.value, -1)
  {
  }

  /** `intersection` and `overlaps` agree with the canonical ones. */
  lemma IntersectionAgrees(a: Interval, o: Interval)
    requires Valid(a) && Valid(o) && Kinds(a) == Kinds(o)
    ensures Overlaps(a, o) <==> Intervals.Overlaps(ToCanonical(a), ToCanonical(o))
    ensures Intersection(a, o).Some? ==> Intervals.Intersection(ToCanonical(a), ToCanonical(o)) == Some(ToCanonical(Intersection(a, o).value))
  {
    Half.SameKindOrdersByLimit(LowerHalf(a.lower), LowerHalf(o.lower));
    Half.SameKindOrdersByLimit(UpperHalf(a.upper), UpperHalf(o.upper));
    Half.CmpAntisymmetric(LowerHalf(a.lower), LowerHalf(o.lower));
    Half.CmpAntisymmetric(UpperHalf(a.upper), UpperHalf(o.upper));
  }

  /** `union_interval` is the canonical `span`, and the subtrahend is the canonical `gap`. */
  lemma UnionAgrees(a: Interval, o: Interval)
    requires Valid(a) && Valid(o) && Kinds(a) == Kinds(o)
    ensures ToCanonical(Union(a, o).0) == Intervals.Span(ToCanonical(a), ToCanonical(o))
    ensures Union(a, o).1.Some? <==> Intervals.Gap(ToCanonical(a), ToCanonical(o)).Some?
    ensures Union(a, o).1.Some? ==> Intervals.Gap(ToCanonical(a), ToCanonical(o)) == Some(ToCanonical(Union(a, o).1.value))
  {
    Half.SameKindOrdersByLimit(LowerHalf(a.lower), LowerHalf(o.lower));
    Half.SameKindOrdersByLimit(UpperHalf(a.upper), UpperHalf(o.upper));
    Half.CmpAntisymmetric(LowerHalf(a.lower), LowerHalf(o.lower));
    Half.CmpAntisymmetric(UpperHalf(a.upper), UpperHalf(o.upper));
  }

  /** As written, the range bounds of `[0,3]` leave out 3, which the interval holds. */
  lemma RangeBoundsAsWrittenCounterexample()
    ensures var i := New(Boundary(0, Inclusive), Boundary(3, Inclusive)).value;
            Contains(i, 3) && !RangeContains(RangeBoundsAsWritten(i), 3) && RangeContains(RangeBounds(i), 3)
  {
  }
}
