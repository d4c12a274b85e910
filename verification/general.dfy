/**
 * The `general` design iteration (src/general.rs): a bound is a value
 * wrapped as `Inclusive(t)` or `Exclusive(t)` at run time, and an interval
 * is a checked pair of such bounds.
 */
module GeneralInterval {
  import BoundTypes
  import Bounds
  import Intervals

  datatype Bound = Inclusive(t: int) | Exclusive(t: int)
  datatype Interval = Interval(left: Bound, right: Bound)

  /** `From<T>`: a bare value becomes an inclusive bound. */
  function From(t: int): (b: Bound)
    ensures b.Inclusive? && Deref(b) == t
    ensures ToCanonical(b) == Bounds.Bound(t, BoundTypes.Inclusive)
  {
    Inclusive(t)
  }

  /** `Deref`: the value, whatever the kind. */
  function Deref(b: Bound): (t: int)
    ensures b == Inclusive(t) || b == Exclusive(t)
  {
    match b
    case Inclusive(t) => t
    case Exclusive(t) => t
  }

  function ToCanonical(b: Bound): (r: Bounds.Bound<BoundTypes.BoundType>)
    ensures r.limit == Deref(b)
    ensures r.boundType == BoundTypes.Inclusive <==> b.Inclusive?
  {
    Bounds.Bound(Deref(b), if b.Inclusive? then BoundTypes.Inclusive else BoundTypes.Exclusive)
  }

  function IntervalToCanonical(i: Interval): (r: Intervals.Interval)
    ensures r.left.bound == ToCanonical(i.left) && r.left.side == BoundTypes.Left
    ensures r.right.bound == ToCanonical(i.right) && r.right.side == BoundTypes.Right
  {
    Intervals.Interval(Intervals.AsLeft(ToCanonical(i.left)), Intervals.AsRight(ToCanonical(i.right)))
  }

  /** The assertion `new` makes: `a <= b` for two inclusive ends, `a < b` otherwise. */
  predicate NewCondition(left: Bound, right: Bound)
  {
    match (left, right)
    case (Inclusive(a), Inclusive(b)) => a <= b
    case _ => Deref(left) < Deref(right)
  }

  /** `new`: panics unless the assertion holds, so the assertion is required. */
  function New(left: Bound, right: Bound): (r: Interval)
    requires NewCondition(left, right)
    ensures Intervals.Valid(IntervalToCanonical(r))
    ensures r.left == left && r.right == right
  {
    Interval(left, right)
  }

  /** `contains`: the four kind combinations, `<=` at an inclusive end and `<` at an exclusive one. */
  function Contains(i: Interval, t: int): (r: bool)
    ensures r <==> Intervals.Contains(IntervalToCanonical(i), t)
  {
    match (i.left, i.right)
    case (Inclusive(a), Inclusive(b)) => a <= t && t <= b
    case (Inclusive(a), Exclusive(b)) => a <= t && t < b
    case (Exclusive(a), Inclusive(b)) => a < t && t <= b
    case (Exclusive(a), Exclusive(b)) => a < t && t < b
  }

  /** The assertion in `new` is exactly the canonical validity check. */
  lemma NewConditionAgrees(left: Bound, right: Bound)
    ensures NewCondition(left, right) <==> Intervals.TryNew(ToCanonical(left), ToCanonical(right)).Some?
  {
  }

  /** `from` then `deref` gives the value back; `deref` then `from` keeps only inclusive bounds. */
  lemma FromDerefRoundTrip(t: int, b: Bound)
    ensures Deref(From(t)) == t
    ensures From(Deref(b)) == b <==> b.Inclusive?
  {
  }
}
