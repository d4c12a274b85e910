/**
 * The first design iteration (src/idea1.rs): a boundary is a value tagged
 * at the type level with its side (`Lower`/`Upper`) and its kind
 * (`Inclusive`/`Exclusive`). The tags are fields here; a binary operation
 * takes two boundaries of the same type, so it requires equal tags.
 */
module Idea1Interval {
  import opened Options
  import BoundTypes
  import Bounds
  import Half
  import Intervals

  datatype LU = Lower | Upper
  datatype IE = Inclusive | Exclusive

  datatype Bound = Bound(val: int, lu: LU, ie: IE)

  /** An interval of a lower and an upper boundary. */
  datatype Interval = Interval(lower: Bound, upper: Bound)

  /** `Opposite` on kinds. */
  function OppositeIE(ie: IE): (r: IE)
    ensures r != ie
  {
    match ie
    case Inclusive => Exclusive
    case Exclusive => Inclusive
  }

  /** `Opposite` on sides. */
  function OppositeLU(lu: LU): (r: LU)
    ensures r != lu
  {
    match lu
    case Lower => Upper
    case Upper => Lower
  }

  function ToBoundType(ie: IE): (k: BoundTypes.BoundType)
    ensures k == BoundTypes.Inclusive <==> ie == Inclusive
  {
    if ie == Inclusive then BoundTypes.Inclusive else BoundTypes.Exclusive
  }

  function ToSide(lu: LU): (s: BoundTypes.Side)
    ensures s == BoundTypes.Left <==> lu == Lower
  {
    if lu == Lower then BoundTypes.Left else BoundTypes.Right
  }

  /** The canonical half-bound a boundary stands for. */
  function ToHalf(b: Bound): (h: Half.HalfBounded)
    ensures h.side == ToSide(b.lu) && Half.Limit(h) == b.val && Half.Kind(h) == ToBoundType(b.ie)
  {
    Half.HalfBounded(Bounds.Bound(b.val, ToBoundType(b.ie)), ToSide(b.lu))
  }

  /** `BoundarySetOperation::intersection`: `max` for Lower, `min` for Upper. */
  function SetIntersection(lu: LU, a: int, b: int): (r: int)
    ensures r == a || r == b
    ensures lu == Lower ==> a <= r && b <= r
    ensures lu == Upper ==> r <= a && r <= b
  {
    if lu == Lower then (if a <= b then b else a) else (if a <= b then a else b)
  }

  /** `BoundarySetOperation::union`: `min` for Lower, `max` for Upper. */
  function SetUnion(lu: LU, a: int, b: int): (r: int)
    ensures r == a || r == b
    ensures lu == Lower ==> r <= a && r <= b
    ensures lu == Upper ==> a <= r && b <= r
  {
    if lu == Lower then (if a <= b then a else b) else (if a <= b then b else a)
  }

  /** `BoundarySetOperation::includes`: `boundary <= t` for Lower, `t <= boundary` for Upper. */
  function SetIncludes(lu: LU, boundary: int, t: int): (r: bool)
    ensures forall ie: IE, s: int :: r && BoundaryContains(lu, ie, t, s) ==> BoundaryContains(lu, ie, boundary, s)
  {
    if lu == Lower then boundary <= t else t <= boundary
  }

  /** `BoundaryContains` for the four side/kind pairs. */
  predicate BoundaryContains(lu: LU, ie: IE, boundary: int, t: int)
  {
    match (lu, ie)
    case (Lower, Inclusive) => boundary <= t
    case (Lower, Exclusive) => boundary < t
    case (Upper, Inclusive) => t <= boundary
    case (Upper, Exclusive) => t < boundary
  }

  function Contains(b: Bound, t: int): (r: bool)
    ensures r <==> Half.Contains(ToHalf(b), t)
  {
    BoundaryContains(b.lu, b.ie, b.val, t)
  }

  function Includes(b: Bound, o: Bound): (r: bool)
    requires b.lu == o.lu && b.ie == o.ie
    ensures r ==> forall t :: Contains(o, t) ==> Contains(b, t)
  {
    SetIncludes(b.lu, b.val, o.val)
  }

  function Intersection(b: Bound, o: Bound): (r: Bound)
    requires b.lu == o.lu && b.ie == o.ie
    ensures r.lu == b.lu && r.ie == b.ie
    ensures forall t :: Contains(r, t) <==> Contains(b, t) && Contains(o, t)
  {
    Bound(SetIntersection(b.lu, b.val, o.val), b.lu, b.ie)
  }

  function Union(b: Bound, o: Bound): (r: Bound)
    requires b.lu == o.lu && b.ie == o.ie
    ensures r.lu == b.lu && r.ie == b.ie
    ensures forall t :: Contains(r, t) <==> Contains(b, t) || Contains(o, t)
  {
    Bound(SetUnion(b.lu, b.val, o.val), b.lu, b.ie)
  }

  /** `complement`: same value, opposite side and opposite kind. */
  function Complement(b: Bound): (r: Bound)
    ensures ToHalf(r) == Half.Flip(ToHalf(b))
    ensures forall t :: Contains(r, t) <==> !Contains(b, t)
  {
    Bound(b.val, OppositeLU(b.lu), OppositeIE(b.ie))
  }

  predicate WellFormed(i: Interval)
  {
    i.lower.lu == Lower && i.upper.lu == Upper
  }

  function ToCanonical(i: Interval): (r: Intervals.Interval)
    ensures r.left == ToHalf(i.lower) && r.right == ToHalf(i.upper)
  {
    Intervals.Interval(ToHalf(i.lower), ToHalf(i.upper))
  }

  predicate Valid(i: Interval)
  {
    WellFormed(i) && Intervals.Valid(ToCanonical(i))
  }

  function Kinds(i: Interval): (IE, IE)
  {
    (i.lower.ie, i.upper.ie)
  }

  /** `Interval::new`: `Some` when each boundary holds the other's value. */
  function New(lower: Bound, upper: Bound): (r: Option<Interval>)
    requires lower.lu == Lower && upper.lu == Upper
    ensures r.Some? <==> Intervals.IsValidInterval(ToHalf(lower), ToHalf(upper))
    ensures r.Some? ==> Valid(r.value) && r.value == Interval(lower, upper)
  {
    if Contains(lower, upper.val) && Contains(upper, lower.val) then Some(Interval(lower, upper)) else None
  }

  function IntervalContains(i: Interval, t: int): (r: bool)
    ensures r <==> Intervals.Contains(ToCanonical(i), t)
  {
    Contains(i.lower, t) && Contains(i.upper, t)
  }

  function IntervalIntersection(a: Interval, o: Interval): (r: Option<Interval>)
    requires WellFormed(a) && WellFormed(o) && Kinds(a) == Kinds(o)
    ensures r.Some? ==> Valid(r.value) && Kinds(r.value) == Kinds(a)
    ensures r.Some? ==> forall t :: IntervalContains(r.value, t) <==> IntervalContains(a, t) && IntervalContains(o, t)
  {
    New(Intersection(a.lower, o.lower), Intersection(a.upper, o.upper))
  }

  function UnionInterval(a: Interval, o: Interval): (r: Interval)
    requires WellFormed(a) && WellFormed(o) && Kinds(a) == Kinds(o)
    ensures WellFormed(r) && Kinds(r) == Kinds(a)
    ensures forall t :: IntervalContains(a, t) || IntervalContains(o, t) ==> IntervalContains(r, t)
  {
    Interval(Union(a.lower, o.lower), Union(a.upper, o.upper))
  }

  /** `union`: the covering interval and the subtrahend of complements, tried in both orders. */
  function IntervalUnion(a: Interval, o: Interval): (r: (Interval, Option<Interval>))
    requires WellFormed(a) && WellFormed(o) && Kinds(a) == Kinds(o)
    ensures r.0 == UnionInterval(a, o)
    ensures r.1.Some? ==> Valid(r.1.value)
    ensures r.1.Some? ==> forall t :: IntervalContains(r.1.value, t) ==> !IntervalContains(a, t) && !IntervalContains(o, t)
  {
    var first := New(Complement(a.upper), Complement(o.lower));
    (UnionInterval(a, o), if first.Some? then first else New(Complement(o.upper), Complement(a.lower)))
  }

  function Overlaps(a: Interval, o: Interval): (r: bool)
    requires WellFormed(a) && WellFormed(o) && Kinds(a) == Kinds(o)
    ensures r <==> IntervalIntersection(a, o).Some?
    ensures Valid(a) && Valid(o) ==> (r <==> Intervals.Overlaps(ToCanonical(a), ToCanonical(o)))
    ensures Valid(a) && Valid(o) ==>
      (r <==> exists x :: Intervals.ContainsReal(ToCanonical(a), x) && Intervals.ContainsReal(ToCanonical(o), x))
  {
    Half.SameKindOrdersByLimit(ToHalf(a.lower), ToHalf(o.lower));
    Half.SameKindOrdersByLimit(ToHalf(a.upper), ToHalf(o.upper));
    Half.CmpAntisymmetric(ToHalf(a.lower), ToHalf(o.lower));
    Half.CmpAntisymmetric(ToHalf(a.upper), ToHalf(o.upper));
    Intervals.OverlapFacts(ToCanonical(a), ToCanonical(o));
    IntervalIntersection(a, o).Some?
  }

  function IntervalIncludes(a: Interval, o: Interval): (r: bool)
    requires WellFormed(a) && WellFormed(o) && Kinds(a) == Kinds(o)
    ensures r ==> forall t :: IntervalContains(o, t) ==> IntervalContains(a, t)
    ensures Valid(a) && Valid(o) ==> (r <==> Intervals.Includes(ToCanonical(a), ToCanonical(o)))
    ensures Valid(a) && Valid(o) ==> (r <==> Intervals.IncludesExact(ToCanonical(a), ToCanonical(o)))
    ensures Valid(a) && Valid(o) ==>
      (r <==> forall x :: Intervals.ContainsReal(ToCanonical(o), x) ==> Intervals.ContainsReal(ToCanonical(a), x))
  {
    Intervals.InclusionFacts(ToCanonical(a), ToCanonical(o));
    Includes(a.lower, o.lower) && Includes(a.upper, o.upper)
  }

  /** `measure`: `sup - inf`, never negative for a valid interval. */
  function Measure(i: Interval): (r: int)
    ensures Valid(i) ==> r >= 0
  {
    i.upper.val - i.lower.val
  }

  // ---------------------------------------------------------------------------
  // Lemmas

  lemma OppositeInvolutive(ie: IE, lu: LU, b: Bound)
    ensures OppositeIE(OppositeIE(ie)) == ie && OppositeLU(OppositeLU(lu)) == lu
    ensures Complement(Complement(b)) == b
  {
  }

  /** Between boundaries of one type, `includes` is exactly the superset relation. */
  lemma IncludesIsSuperset(b: Bound, o: Bound)
    requires b.lu == o.lu && b.ie == o.ie
    ensures Includes(b, o) <==> forall t :: Contains(o, t) ==> Contains(b, t)
  {
    if !Includes(b, o) {
      var t := if b.ie == Inclusive then o.val else if b.lu == Lower then o.val + 1 else o.val - 1;
      assert Contains(o, t) && !Contains(b, t);
    }
  }

  /** The file's test: `[0,3)` holds 0, 1 and 2, and not 3 or -1. */
  lemma ContainsExample()
    ensures var r := New(Bound(0, Lower, Inclusive), Bound(3, Upper, Exclusive));
            r.Some? && IntervalContains(r.value, 0) && IntervalContains(r.value, 1) && IntervalContains(r.value, 2)
            && !IntervalContains(r.value, 3) && !IntervalContains(r.value, -1)
  {
  }

  /** `intersection` and `overlaps` agree with the canonical ones. */
  lemma IntersectionAgrees(a: Interval, o: Interval)
    requires Valid(a) && Valid(o) && Kinds(a) == Kinds(o)
    ensures Overlaps(a, o) <==> Intervals.Overlaps(ToCanonical(a), ToCanonical(o))
    ensures Overlaps(a, o) ==> Intervals.Intersection(ToCanonical(a), ToCanonical(o)) == Some(ToCanonical(IntervalIntersection(a, o).value))
  {
    Half.SameKindOrdersByLimit(ToHalf(a.lower), ToHalf(o.lower));
    Half.SameKindOrdersByLimit(ToHalf(a.upper), ToHalf(o.upper));
    Half.CmpAntisymmetric(ToHalf(a.lower), ToHalf(o.lower));
    Half.CmpAntisymmetric(ToHalf(a.upper), ToHalf(o.upper));
  }

  /** `union_interval` is the canonical `span`, and the subtrahend is the canonical `gap`. */
  lemma UnionAgrees(a: Interval, o: Interval)
    requires Valid(a) && Valid(o) && Kinds(a) == Kinds(o)
    ensures ToCanonical(IntervalUnion(a, o).0) == Intervals.Span(ToCanonical(a), ToCanonical(o))
    ensures IntervalUnion(a, o).1.Some? <==> Intervals.Gap(ToCanonical(a), ToCanonical(o)).Some?
    ensures IntervalUnion(a, o).1.Some? ==> Intervals.Gap(ToCanonical(a), ToCanonical(o)) == Some(ToCanonical(IntervalUnion(a, o).1.value))
  {
    Half.SameKindOrdersByLimit(ToHalf(a.lower), ToHalf(o.lower));
    Half.SameKindOrdersByLimit(ToHalf(a.upper), ToHalf(o.upper));
    Half.CmpAntisymmetric(ToHalf(a.lower), ToHalf(o.lower));
    Half.CmpAntisymmetric(ToHalf(a.upper), ToHalf(o.upper));
  }
}
