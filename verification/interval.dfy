/**
 * Intervals (src/interval.rs): a Left and a Right half-bound whose
 * intersection is non-empty. The library reads every interval on the real
 * line, even over an integer scalar, so validity is "each bound contains
 * the other's limit", which is non-emptiness on the reals (an integer
 * interval such as (0, 1) is valid but holds no integer).
 */
module Intervals {
  import opened Options
  import opened BoundTypes
  import Bounds
  import Half

  type HalfBounded = Half.HalfBounded
  type Bound = Bounds.Bound<BoundType>

  datatype Interval = Interval(left: HalfBounded, right: HalfBounded)

  /** `Interval::union`'s result: the span, and the gap it papers over, if any. */
  datatype IntervalUnion = IntervalUnion(span: Interval, gap: Option<Interval>)

  /** `is_valid_interval`. */
  predicate IsValidInterval(left: HalfBounded, right: HalfBounded)
  {
    Half.Contains(left, Half.Limit(right)) && Half.Contains(right, Half.Limit(left))
  }

  /** The invariant every live interval satisfies. */
  predicate Valid(i: Interval)
  {
    i.left.side == Left && i.right.side == Right && IsValidInterval(i.left, i.right)
  }

  /** `contains`: both half-bounds contain `t`. */
  predicate Contains(i: Interval, t: int)
  {
    Half.Contains(i.left, t) && Half.Contains(i.right, t)
  }

  predicate ContainsReal(i: Interval, x: real)
  {
    Half.ContainsReal(i.left, x) && Half.ContainsReal(i.right, x)
  }

  function AsLeft(b: Bound): (h: HalfBounded)
    ensures h.side == Left && h.bound == b
  {
    Half.HalfBounded(b, Left)
  }

  function AsRight(b: Bound): (h: HalfBounded)
    ensures h.side == Right && h.bound == b
  {
    Half.HalfBounded(b, Right)
  }

  /** `new_`: the pair when it is valid, `None` otherwise. */
  function FromHalves(left: HalfBounded, right: HalfBounded): (r: Option<Interval>)
    requires left.side == Left && right.side == Right
    ensures r.Some? <==> IsValidInterval(left, right)
    ensures r.Some? ==> Valid(r.value) && r.value.left == left && r.value.right == right
  {
    if IsValidInterval(left, right) then Some(Interval(left, right)) else None
  }

  /** `try_new`. */
  function TryNew(left: Bound, right: Bound): (r: Option<Interval>)
    ensures r.Some? <==> KindLess(left.boundType, left.limit, right.limit) && KindLess(right.boundType, left.limit, right.limit)
    ensures r.Some? ==> Valid(r.value) && r.value.left.bound == left && r.value.right.bound == right
    ensures r.Some? ==> forall t :: Contains(r.value, t) <==> KindLess(left.boundType, left.limit, t) && KindLess(right.boundType, t, right.limit)
  {
    FromHalves(AsLeft(left), AsRight(right))
  }

  /** `new`: panics on an empty pair, so the pair must be valid. */
  function New(left: Bound, right: Bound): (r: Interval)
    requires IsValidInterval(AsLeft(left), AsRight(right))
    ensures Valid(r) && r.left.bound == left && r.right.bound == right
  {
    Interval(AsLeft(left), AsRight(right))
  }

  /** `try_between`: orders the two scalars, then builds with the type's kinds. */
  function TryBetween(a: int, b: int, lk: BoundType, rk: BoundType): (r: Option<Interval>)
    ensures r.Some? <==> a != b || (lk == Inclusive && rk == Inclusive)
    ensures r.Some? ==> Valid(r.value) && Kind(r.value) == (lk, rk)
    ensures r.Some? ==> Half.Limit(r.value.left) == (if a < b then a else b)
    ensures r.Some? ==> Half.Limit(r.value.right) == (if a < b then b else a)
  {
    if a < b then TryNew(Bounds.Bound(a, lk), Bounds.Bound(b, rk))
    else TryNew(Bounds.Bound(b, lk), Bounds.Bound(a, rk))
  }

  /** `between`: panics when `try_between` would give `None`. */
  function Between(a: int, b: int, lk: BoundType, rk: BoundType): (r: Interval)
    requires a != b || (lk == Inclusive && rk == Inclusive)
    ensures Valid(r) && Kind(r) == (lk, rk)
    ensures Half.Limit(r.left) <= Half.Limit(r.right)
    ensures {Half.Limit(r.left), Half.Limit(r.right)} == {a, b}
  {
    TryBetween(a, b, lk, rk).value
  }

  /** The pair of kinds, which is the interval's type in the library. */
  function Kind(i: Interval): (BoundType, BoundType)
  {
    (Half.Kind(i.left), Half.Kind(i.right))
  }

  /** Integer `min`: the least integer the left bound admits. */
  function Min(i: Interval): (r: int)
    requires Valid(i)
    ensures Half.Contains(i.left, r)
    ensures forall t :: Half.Contains(i.left, t) ==> r <= t
    ensures forall t :: Contains(i, t) ==> r <= t
  {
    Half.Ceil(i.left)
  }

  /** Integer `max`: the greatest integer the right bound admits. */
  function Max(i: Interval): (r: int)
    requires Valid(i)
    ensures Half.Contains(i.right, r)
    ensures forall t :: Half.Contains(i.right, t) ==> t <= r
    ensures forall t :: Contains(i, t) ==> t <= r
  {
    Half.Floor(i.right)
  }

  /** `into_iter` over an integer interval: `min()..=max()`. */
  function Items(i: Interval): (r: seq<int>)
    requires Valid(i)
    ensures |r| == if Min(i) <= Max(i) then Max(i) - Min(i) + 1 else 0
    ensures forall k :: 0 <= k < |r| ==> r[k] == Min(i) + k
    ensures forall t :: t in r <==> Contains(i, t)
  {
    var n := if Min(i) <= Max(i) then Max(i) - Min(i) + 1 else 0;
    var r := seq(n, k => Min(i) + k);
    assert forall t :: Contains(i, t) ==> r[t - Min(i)] == t;
    r
  }

  /** `dilate`: `None` where the library panics because the result is empty. */
  function Dilate(i: Interval, delta: int): (r: Option<Interval>)
    requires Valid(i)
    ensures r.Some? <==> IsValidInterval(Half.Dilate(i.left, delta), Half.Dilate(i.right, delta))
    ensures r.Some? <==> KindLess(Half.Kind(i.left), Half.Limit(i.left) - delta, Half.Limit(i.right) + delta)
                         && KindLess(Half.Kind(i.right), Half.Limit(i.left) - delta, Half.Limit(i.right) + delta)
    ensures r.Some? ==> Valid(r.value) && Kind(r.value) == Kind(i)
    ensures r.Some? ==> forall t :: Contains(r.value, t) <==> Half.Contains(i.left, t + delta) && Half.Contains(i.right, t - delta)
    ensures delta >= 0 ==> r.Some? && forall t :: Contains(i, t) ==> Contains(r.value, t)
  {
    FromHalves(Half.Dilate(i.left, delta), Half.Dilate(i.right, delta))
  }

  /** `includes`, as written: the limit-only test on both sides. */
  predicate Includes(a: Interval, b: Interval)
    requires Valid(a) && Valid(b)
  {
    Half.Includes(a.left, b.left) && Half.Includes(a.right, b.right)
  }

  /** The kind-aware superset test. */
  predicate IncludesExact(a: Interval, b: Interval)
    requires Valid(a) && Valid(b)
  {
    Half.IncludesExact(a.left, b.left) && Half.IncludesExact(a.right, b.right)
  }

  /** `overlaps`: the max of the lefts and the min of the rights form a valid pair. */
  predicate Overlaps(a: Interval, b: Interval)
    requires Valid(a) && Valid(b)
  {
    IsValidInterval(Half.PartialMax(a.left, b.left), Half.PartialMin(a.right, b.right))
  }

  /** `intersection`. */
  function Intersection(a: Interval, b: Interval): (r: Option<Interval>)
    requires Valid(a) && Valid(b)
    ensures r.Some? <==> Overlaps(a, b)
    ensures r.Some? ==> Valid(r.value)
    ensures r.Some? ==> forall t :: Contains(r.value, t) <==> Contains(a, t) && Contains(b, t)
    ensures r.Some? ==> forall x :: ContainsReal(r.value, x) <==> ContainsReal(a, x) && ContainsReal(b, x)
  {
    FromHalves(Half.Intersection(a.left, b.left), Half.Intersection(a.right, b.right))
  }

  /** `span`: built from the two unions without re-validation. */
  function Span(a: Interval, b: Interval): (r: Interval)
    requires Valid(a) && Valid(b)
    ensures Valid(r)
    ensures (r.left == a.left || r.left == b.left) && (r.right == a.right || r.right == b.right)
    ensures IncludesExact(r, a) && IncludesExact(r, b)
    ensures forall t :: Contains(a, t) || Contains(b, t) ==> Contains(r, t)
  {
    var r := Interval(Half.Union(a.left, b.left), Half.Union(a.right, b.right));
    assert Valid(r);
    IncludesExactIsSuperset(r, a);
    IncludesExactIsSuperset(r, b);
    r
  }

  /** `hull`: stretches the limits out to `t`, keeping the kinds, without re-validation. */
  function Hull(i: Interval, t: int): (r: Interval)
    requires Valid(i)
    ensures Valid(r) && Kind(r) == Kind(i)
    ensures forall s :: Contains(i, s) ==> Contains(r, s)
    ensures Half.Limit(r.left) == (if t < Half.Limit(i.left) then t else Half.Limit(i.left))
    ensures Half.Limit(r.right) == (if Half.Limit(i.right) < t then t else Half.Limit(i.right))
  {
    Interval(Half.Hull(i.left, t), Half.Hull(i.right, t))
  }

  /** `gap`: the flipped facing bounds, tried in both orders. */
  function Gap(a: Interval, b: Interval): (r: Option<Interval>)
    requires Valid(a) && Valid(b)
    ensures r.Some? <==> IsValidInterval(Half.Flip(a.right), Half.Flip(b.left)) || IsValidInterval(Half.Flip(b.right), Half.Flip(a.left))
    ensures r.Some? ==> r.value == Interval(Half.Flip(a.right), Half.Flip(b.left)) || r.value == Interval(Half.Flip(b.right), Half.Flip(a.left))
    ensures r.Some? ==> Valid(r.value)
    ensures r.Some? ==> forall t :: Contains(r.value, t) ==> !Contains(a, t) && !Contains(b, t)
  {
    var first := FromHalves(Half.Flip(a.right), Half.Flip(b.left));
    if first.Some? then first else FromHalves(Half.Flip(b.right), Half.Flip(a.left))
  }

  /** `union`. */
  function Union(a: Interval, b: Interval): (r: IntervalUnion)
    requires Valid(a) && Valid(b)
    ensures Valid(r.span) && r.span == Span(a, b) && r.gap == Gap(a, b)
  {
    IntervalUnion(Span(a, b), Gap(a, b))
  }

  /**
   * `IntervalUnion::into_iter`: cuts the span at the gap's flipped bounds,
   * building the pieces without re-validation.
   */
  function IntoIter(u: IntervalUnion): (r: seq<Interval>)
    ensures |r| == if u.gap.Some? then 2 else 1
    ensures r[0].left == u.span.left && r[|r| - 1].right == u.span.right
  {
    match u.gap
    case Some(gap) =>
      [Interval(u.span.left, Half.Flip(gap.left)), Interval(Half.Flip(gap.right), u.span.right)]
    case None => [u.span]
  }

  /** `lower_bound`: the flipped left bound, holding exactly what lies below the interval. */
  function LowerBound(i: Interval): (r: HalfBounded)
    requires Valid(i)
    ensures r.side == Right && Half.Limit(r) == Half.Limit(i.left)
    ensures forall t :: Half.Contains(r, t) <==> !Half.Contains(i.left, t)
    ensures forall t, s :: Half.Contains(r, t) && Contains(i, s) ==> t < s
  {
    Half.Flip(i.left)
  }

  /** `upper_bound`: the flipped right bound, holding exactly what lies above the interval. */
  function UpperBound(i: Interval): (r: HalfBounded)
    requires Valid(i)
    ensures r.side == Left && Half.Limit(r) == Half.Limit(i.right)
    ensures forall t :: Half.Contains(r, t) <==> !Half.Contains(i.right, t)
    ensures forall t, s :: Half.Contains(r, t) && Contains(i, s) ==> s < t
  {
    Half.Flip(i.right)
  }

  /** `span_many`: `None` on no items, otherwise the left fold of `span`. */
  function SpanMany(items: seq<Interval>): (r: Option<Interval>)
    requires forall k :: 0 <= k < |items| ==> Valid(items[k])
    ensures r.None? <==> |items| == 0
    ensures r.Some? ==> Valid(r.value)
    ensures r.Some? ==> forall k :: 0 <= k < |items| ==> IncludesExact(r.value, items[k])
  {
    if |items| == 0 then None else Some(FoldSpan(items[0], items[1..]))
  }

  function FoldSpan(acc: Interval, rest: seq<Interval>): (r: Interval)
    requires Valid(acc) && forall k :: 0 <= k < |rest| ==> Valid(rest[k])
    ensures Valid(r) && IncludesExact(r, acc)
    ensures forall k :: 0 <= k < |rest| ==> IncludesExact(r, rest[k])
    decreases |rest|
  {
    if |rest| == 0 then
      IncludesExactReflexive(acc);
      acc
    else
      var next := Span(acc, rest[0]);
      var r := FoldSpan(next, rest[1..]);
      IncludesExactTransitive(r, next, acc);
      IncludesExactTransitive(r, next, rest[0]);
      assert forall k :: 1 <= k < |rest| ==> IncludesExact(r, rest[k]) by {
        forall k | 1 <= k < |rest| ensures IncludesExact(r, rest[k]) {
          assert rest[k] == rest[1..][k - 1];
        }
      }
      r
  }

  /** `hull_many`: one pass keeping the least and greatest scalar seen. */
  method HullMany(items: seq<int>, lk: BoundType, rk: BoundType) returns (r: Option<Interval>)
    ensures r.None? <==> |items| == 0 || ((forall x :: x in items ==> x == items[0]) && !(lk == Inclusive && rk == Inclusive))
    ensures r.Some? ==> Valid(r.value) && Kind(r.value) == (lk, rk)
    ensures r.Some? ==> Half.Limit(r.value.left) in items && Half.Limit(r.value.right) in items
    ensures r.Some? ==> forall x :: x in items ==> Half.Limit(r.value.left) <= x <= Half.Limit(r.value.right)
  {
    if |items| == 0 {
      return None;
    }
    var left := items[0];
    var right := left;
    for i := 1 to |items|
      invariant left <= right
      invariant left in items[..i] && right in items[..i]
      invariant forall k :: 0 <= k < i ==> left <= items[k] <= right
    {
      var x := items[i];
      if x < left {
        left := x;
      } else if right < x {
        right := x;
      }
    }
    assert items[..|items|] == items;
    r := TryNew(Bounds.Bound(left, lk), Bounds.Bound(right, rk));
    if left == right {
      assert forall x :: x in items ==> x == items[0];
    } else {
      assert items[0] != left || items[0] != right;
    }
  }

  /** `closure`: both bounds made inclusive; always valid. */
  function Closure(i: Interval): (r: Interval)
    requires Valid(i)
    ensures Valid(r) && Kind(r) == (Inclusive, Inclusive)
    ensures Half.Limit(r.left) == Half.Limit(i.left) && Half.Limit(r.right) == Half.Limit(i.right)
    ensures forall t :: Contains(r, t) <==> Contains(i, t) || t == Half.Limit(i.left) || t == Half.Limit(i.right)
    ensures forall x :: ContainsReal(r, x) <==> ContainsReal(i, x) || x == Half.Limit(i.left) as real || x == Half.Limit(i.right) as real
  {
    Interval(Half.Closure(i.left), Half.Closure(i.right))
  }

  /** `interior`: both bounds made exclusive; `None` for a single point. */
  function Interior(i: Interval): (r: Option<Interval>)
    requires Valid(i)
    ensures r.None? <==> Half.Limit(i.left) == Half.Limit(i.right)
    ensures r.Some? ==> Valid(r.value) && Kind(r.value) == (Exclusive, Exclusive)
    ensures r.Some? ==> Half.Limit(r.value.left) == Half.Limit(i.left) && Half.Limit(r.value.right) == Half.Limit(i.right)
    ensures r.Some? ==> forall t :: Contains(r.value, t) <==> Contains(i, t) && t != Half.Limit(i.left) && t != Half.Limit(i.right)
    ensures r.Some? ==> forall x :: ContainsReal(r.value, x) <==> ContainsReal(i, x) && x != Half.Limit(i.left) as real && x != Half.Limit(i.right) as real
  {
    FromHalves(Half.Interior(i.left), Half.Interior(i.right))
  }

  // ---------------------------------------------------------------------------
  // Validity and non-emptiness

  /** A pair is valid exactly when some real number lies in both bounds. */
  lemma ValidIffNonEmptyOnReals(left: HalfBounded, right: HalfBounded)
    requires left.side == Left && right.side == Right
    ensures IsValidInterval(left, right) <==> exists x :: Half.ContainsReal(left, x) && Half.ContainsReal(right, x)
  {
    if IsValidInterval(left, right) {
      var x: real := (Half.Limit(left) as real + Half.Limit(right) as real) / 2.0;
      assert Half.ContainsReal(left, x) && Half.ContainsReal(right, x);
    }
  }

  /** A pair with an integer in both bounds is valid. */
  lemma NonEmptyIsValid(left: HalfBounded, right: HalfBounded, t: int)
    requires left.side == Left && right.side == Right
    requires Half.Contains(left, t) && Half.Contains(right, t)
    ensures IsValidInterval(left, right)
  {
  }

  /** The construction examples: `[3,0)` and `[3,3)` are empty, `[3,3]` and `(0,1)` are not. */
  lemma TryNewExamples()
    ensures TryNew(Bounds.Bound(3, Inclusive), Bounds.Bound(0, Exclusive)).None?
    ensures TryNew(Bounds.Bound(3, Inclusive), Bounds.Bound(3, Exclusive)).None?
    ensures TryNew(Bounds.Bound(3, Inclusive), Bounds.Bound(3, Inclusive)).Some?
    ensures TryNew(Bounds.Bound(0, Exclusive), Bounds.Bound(1, Exclusive)).Some?
    ensures var a := New(Bounds.Bound(4, Inclusive), Bounds.Bound(7, Exclusive));
            Contains(a, 4) && !Contains(a, 7)
    ensures TryBetween(3, -1, Inclusive, Exclusive) == Some(New(Bounds.Bound(-1, Inclusive), Bounds.Bound(3, Exclusive)))
    ensures TryBetween(1, 1, Inclusive, Exclusive).None? && TryBetween(1, 1, Inclusive, Inclusive).Some?
  {
  }

  /** Integer `min`/`max`/iteration examples: `(4,7]`, `[4,7)` and `(0,10]`. */
  lemma MinMaxItemsExamples()
    ensures Min(New(Bounds.Bound(4, Exclusive), Bounds.Bound(7, Inclusive))) == 5
    ensures Max(New(Bounds.Bound(4, Inclusive), Bounds.Bound(7, Exclusive))) == 6
    ensures var items := Items(New(Bounds.Bound(0, Exclusive), Bounds.Bound(10, Inclusive)));
            |items| == 10 && items[0] == 1 && items[9] == 10
  {
  }

  /** `min` is a member exactly when the interval holds an integer, and then `max` is too. */
  lemma MinMaxAreMembers(i: Interval)
    requires Valid(i)
    ensures Contains(i, Min(i)) <==> Min(i) <= Max(i)
    ensures Contains(i, Max(i)) <==> Min(i) <= Max(i)
    ensures (exists t :: Contains(i, t)) <==> Min(i) <= Max(i)
  {
    if Min(i) <= Max(i) {
      assert Contains(i, Min(i));
    }
  }

  // ---------------------------------------------------------------------------
  // Intersection and overlap

  /** Two intervals overlap exactly when some real number lies in both. */
  lemma OverlapsIffCommonRealPoint(a: Interval, b: Interval)
    requires Valid(a) && Valid(b)
    ensures Overlaps(a, b) <==> exists x :: ContainsReal(a, x) && ContainsReal(b, x)
  {
    var l := Half.PartialMax(a.left, b.left);
    var r := Half.PartialMin(a.right, b.right);
    ValidIffNonEmptyOnReals(l, r);
    Half.LeMeansTighterReal(a.left, l);
    Half.LeMeansTighterReal(b.left, l);
    Half.LeMeansTighterReal(r, a.right);
    Half.LeMeansTighterReal(r, b.right);
    if exists x :: ContainsReal(a, x) && ContainsReal(b, x) {
      var x :| ContainsReal(a, x) && ContainsReal(b, x);
      assert Half.ContainsReal(l, x) && Half.ContainsReal(r, x);
    }
    if Overlaps(a, b) {
      var x :| Half.ContainsReal(l, x) && Half.ContainsReal(r, x);
      assert ContainsReal(a, x) && ContainsReal(b, x);
    }
  }

  /** Two intervals that share an integer overlap. */
  lemma CommonPointOverlaps(a: Interval, b: Interval, t: int)
    requires Valid(a) && Valid(b) && Contains(a, t) && Contains(b, t)
    ensures Overlaps(a, b)
  {
    assert Contains(Interval(Half.Intersection(a.left, b.left), Half.Intersection(a.right, b.right)), t);
  }

  lemma IntersectionCommutes(a: Interval, b: Interval)
    requires Valid(a) && Valid(b)
    ensures Intersection(a, b) == Intersection(b, a)
    ensures Overlaps(a, b) == Overlaps(b, a)
  {
    Half.IntersectionCommutes(a.left, b.left);
    Half.IntersectionCommutes(a.right, b.right);
  }

  lemma IntersectionIdempotent(a: Interval)
    requires Valid(a)
    ensures Intersection(a, a) == Some(a)
  {
    Half.IntersectionIdempotent(a.left);
    Half.IntersectionIdempotent(a.right);
  }

  /** The documented examples: `[0,3)` with `[1,4)` and with `[3,5)`. */
  lemma IntersectionExamples()
    ensures var a := New(Bounds.Bound(0, Inclusive), Bounds.Bound(3, Exclusive));
            var b := New(Bounds.Bound(1, Inclusive), Bounds.Bound(4, Exclusive));
            var c := New(Bounds.Bound(3, Inclusive), Bounds.Bound(5, Exclusive));
            Intersection(a, b) == Some(New(Bounds.Bound(1, Inclusive), Bounds.Bound(3, Exclusive)))
            && Intersection(a, c).None? && Overlaps(a, b) && !Overlaps(a, c)
  {
  }

  // ---------------------------------------------------------------------------
  // Inclusion

  lemma IncludesExactReflexive(a: Interval)
    requires Valid(a)
    ensures IncludesExact(a, a) && Includes(a, a)
  {
  }

  lemma IncludesExactTransitive(a: Interval, b: Interval, c: Interval)
    requires Valid(a) && Valid(b) && Valid(c)
    requires IncludesExact(a, b) && IncludesExact(b, c)
    ensures IncludesExact(a, c)
  {
    Half.CmpTransitive(a.left, b.left, c.left);
    Half.CmpTransitive(c.right, b.right, a.right);
  }

  /** The kind-aware test is sound: every integer of `b` is in `a`. */
  lemma IncludesExactIsSuperset(a: Interval, b: Interval)
    requires Valid(a) && Valid(b) && IncludesExact(a, b)
    ensures forall t :: Contains(b, t) ==> Contains(a, t)
  {
    Half.IncludesExactIsSuperset(a.left, b.left);
    Half.IncludesExactIsSuperset(a.right, b.right);
  }

  /** On the real line the kind-aware test is exactly the superset relation. */
  lemma IncludesExactIffRealSuperset(a: Interval, b: Interval)
    requires Valid(a) && Valid(b)
    ensures IncludesExact(a, b) <==> forall x :: ContainsReal(b, x) ==> ContainsReal(a, x)
  {
    Half.IncludesExactIffRealSuperset(a.left, b.left);
    Half.IncludesExactIffRealSuperset(a.right, b.right);
    if !Half.IncludesExact(a.left, b.left) {
      var x := RealWitnessNearLeft(a, b);
      assert ContainsReal(b, x) && !ContainsReal(a, x);
    } else if !Half.IncludesExact(a.right, b.right) {
      var x := RealWitnessNearRight(a, b);
      assert ContainsReal(b, x) && !ContainsReal(a, x);
    }
  }

  /** A real point of `b` just inside its left bound that `a`'s tighter left bound misses. */
  lemma RealWitnessNearLeft(a: Interval, b: Interval) returns (x: real)
    requires Valid(a) && Valid(b) && !Half.IncludesExact(a.left, b.left)
    ensures ContainsReal(b, x) && !Half.ContainsReal(a.left, x)
  {
    var bl, br, al := Half.Limit(b.left) as real, Half.Limit(b.right) as real, Half.Limit(a.left) as real;
    if al == bl || bl == br {
      x := bl;
    } else {
      var m := if al < br then al else br;
      x := (bl + m) / 2.0;
    }
  }

  /** A real point of `b` just inside its right bound that `a`'s tighter right bound misses. */
  lemma RealWitnessNearRight(a: Interval, b: Interval) returns (x: real)
    requires Valid(a) && Valid(b) && !Half.IncludesExact(a.right, b.right)
    ensures ContainsReal(b, x) && !Half.ContainsReal(a.right, x)
  {
    var bl, br, ar := Half.Limit(b.left) as real, Half.Limit(b.right) as real, Half.Limit(a.right) as real;
    if ar == br || bl == br {
      x := br;
    } else {
      var m := if ar > bl then ar else bl;
      x := (br + m) / 2.0;
    }
  }

  /** With equal kinds, as with the static markers, `includes` is the kind-aware test. */
  lemma IncludesSameKindsIsExact(a: Interval, b: Interval)
    requires Valid(a) && Valid(b) && Kind(a) == Kind(b)
    ensures Includes(a, b) <==> IncludesExact(a, b)
  {
    Half.IncludesSameKindIsSuperset(a.left, b.left);
    Half.IncludesSameKindIsSuperset(a.right, b.right);
  }

  /** As written, `includes` claims `(0,3)` includes `[0,3]`, which holds 0. */
  lemma IncludesAsWrittenCounterexample()
    ensures var a := New(Bounds.Bound(0, Exclusive), Bounds.Bound(3, Exclusive));
            var b := New(Bounds.Bound(0, Inclusive), Bounds.Bound(3, Inclusive));
            Includes(a, b) && Contains(b, 0) && !Contains(a, 0) && !IncludesExact(a, b)
  {
  }

  /** The documented `includes` examples, where all kinds agree. */
  lemma IncludesExamples()
    ensures var a := New(Bounds.Bound(0, Inclusive), Bounds.Bound(3, Exclusive));
            var b := New(Bounds.Bound(0, Inclusive), Bounds.Bound(4, Exclusive));
            var c := New(Bounds.Bound(1, Inclusive), Bounds.Bound(4, Exclusive));
            Includes(a, a) && !Includes(a, b) && Includes(b, a) && !Includes(a, c) && !Includes(c, a)
  {
  }

  // ---------------------------------------------------------------------------
  // Span, hull, gap and union

  /** The inclusion lemmas, stated for any pair so that a function body can call them. */
  lemma InclusionFacts(a: Interval, b: Interval)
    ensures Valid(a) && Valid(b) && Kind(a) == Kind(b) ==> (Includes(a, b) <==> IncludesExact(a, b))
    ensures Valid(a) && Valid(b) ==> (IncludesExact(a, b) <==> forall x :: ContainsReal(b, x) ==> ContainsReal(a, x))
  {
    if Valid(a) && Valid(b) {
      IncludesExactIffRealSuperset(a, b);
      if Kind(a) == Kind(b) {
        IncludesSameKindsIsExact(a, b);
      }
    }
  }

  /** `OverlapsIffCommonRealPoint`, stated for any pair so that a function body can call it. */
  lemma OverlapFacts(a: Interval, b: Interval)
    ensures Valid(a) && Valid(b) ==> (Overlaps(a, b) <==> exists x :: ContainsReal(a, x) && ContainsReal(b, x))
  {
    if Valid(a) && Valid(b) {
      OverlapsIffCommonRealPoint(a, b);
    }
  }

  /** `span` is the least interval including both inputs. */
  lemma SpanIsLeast(a: Interval, b: Interval, c: Interval)
    requires Valid(a) && Valid(b) && Valid(c)
    requires IncludesExact(c, a) && IncludesExact(c, b)
    ensures IncludesExact(c, Span(a, b))
  {
  }

  /** An interval includes its span with another exactly when it already includes the other. */
  lemma IncludesSpanIffIncludes(a: Interval, b: Interval)
    requires Valid(a) && Valid(b)
    ensures IncludesExact(a, Span(a, b)) <==> IncludesExact(a, b)
  {
    if IncludesExact(a, Span(a, b)) {
      IncludesExactTransitive(a, Span(a, b), b);
    }
    if IncludesExact(a, b) {
      IncludesExactReflexive(a);
      SpanIsLeast(a, b, a);
    }
  }

  /** The fold of `span` is the least interval including the seed and every item. */
  lemma {:induction false} FoldSpanIsLeast(acc: Interval, rest: seq<Interval>, c: Interval)
    requires Valid(acc) && Valid(c) && forall k :: 0 <= k < |rest| ==> Valid(rest[k])
    requires IncludesExact(c, acc) && forall k :: 0 <= k < |rest| ==> IncludesExact(c, rest[k])
    ensures IncludesExact(c, FoldSpan(acc, rest))
    decreases |rest|
  {
    if |rest| > 0 {
      SpanIsLeast(acc, rest[0], c);
      assert forall k :: 0 <= k < |rest[1..]| ==> rest[1..][k] == rest[k + 1];
      FoldSpanIsLeast(Span(acc, rest[0]), rest[1..], c);
    }
  }

  /** `span_many` is the least interval including every item. */
  lemma SpanManyIsLeast(items: seq<Interval>, c: Interval)
    requires |items| > 0 && Valid(c) && forall k :: 0 <= k < |items| ==> Valid(items[k])
    requires forall k :: 0 <= k < |items| ==> IncludesExact(c, items[k])
    ensures SpanMany(items).Some? && IncludesExact(c, SpanMany(items).value)
  {
    assert forall k :: 0 <= k < |items[1..]| ==> items[1..][k] == items[k + 1];
    FoldSpanIsLeast(items[0], items[1..], c);
  }

  lemma SpanCommutes(a: Interval, b: Interval)
    requires Valid(a) && Valid(b)
    ensures Span(a, b) == Span(b, a)
    ensures Span(a, a) == a
  {
    Half.IntersectionCommutes(a.left, b.left);
    Half.IntersectionCommutes(a.right, b.right);
    Half.IntersectionIdempotent(a.left);
    Half.IntersectionIdempotent(a.right);
  }

  lemma SpanHullExamples()
    ensures var a := New(Bounds.Bound(0, Inclusive), Bounds.Bound(3, Exclusive));
            var b := New(Bounds.Bound(5, Inclusive), Bounds.Bound(8, Exclusive));
            Span(a, b) == New(Bounds.Bound(0, Inclusive), Bounds.Bound(8, Exclusive))
            && Hull(a, -2) == New(Bounds.Bound(-2, Inclusive), Bounds.Bound(3, Exclusive))
            && Hull(a, 5) == New(Bounds.Bound(0, Inclusive), Bounds.Bound(5, Exclusive))
            && Gap(a, b) == Some(New(Bounds.Bound(3, Inclusive), Bounds.Bound(5, Exclusive)))
  {
  }

  lemma SpanManyExample()
    ensures var a := New(Bounds.Bound(0, Inclusive), Bounds.Bound(3, Exclusive));
            var b := New(Bounds.Bound(1, Inclusive), Bounds.Bound(5, Exclusive));
            var c := New(Bounds.Bound(8, Inclusive), Bounds.Bound(10, Exclusive));
            SpanMany([a, b, c]) == Some(New(Bounds.Bound(0, Inclusive), Bounds.Bound(10, Exclusive)))
  {
  }

  /**
   * `hull` leaves an interval holding `t` unchanged; a closed interval
   * hulled with `t` holds `t`, while an open end stops at `t` without it.
   */
  lemma HullOfMember(i: Interval, t: int)
    requires Valid(i)
    ensures Contains(i, t) ==> Hull(i, t) == i
    ensures Kind(i) == (Inclusive, Inclusive) ==> Contains(Hull(i, t), t)
    ensures Kind(i).1 == Exclusive && Half.Limit(i.right) <= t ==> !Contains(Hull(i, t), t)
  {
  }

  /** Intervals that have a gap between them do not overlap. */
  lemma GapMeansDisjoint(a: Interval, b: Interval)
    requires Valid(a) && Valid(b) && Gap(a, b).Some?
    ensures !Overlaps(a, b)
  {
    var g := Gap(a, b).value;
    ValidIffNonEmptyOnReals(g.left, g.right);
    var y :| Half.ContainsReal(g.left, y) && Half.ContainsReal(g.right, y);
    OverlapsIffCommonRealPoint(a, b);
    if Overlaps(a, b) {
      var x :| ContainsReal(a, x) && ContainsReal(b, x);
      if FromHalves(Half.Flip(a.right), Half.Flip(b.left)).Some? {
        Half.FlipComplementsReal(a.right, y);
        Half.FlipComplementsReal(b.left, y);
        Half.OutsideIsBeyond(a.right, x, y);
        Half.OutsideIsBeyond(b.left, x, y);
      } else {
        Half.FlipComplementsReal(b.right, y);
        Half.FlipComplementsReal(a.left, y);
        Half.OutsideIsBeyond(b.right, x, y);
        Half.OutsideIsBeyond(a.left, x, y);
      }
      assert false;
    }
  }

  /**
   * When there is a gap, cutting the span at it gives back the two inputs,
   * the one to the left first.
   */
  lemma UnionIntoIterSplitsBack(a: Interval, b: Interval)
    requires Valid(a) && Valid(b) && Gap(a, b).Some?
    ensures var items := IntoIter(Union(a, b));
            (items == [a, b] || items == [b, a])
            && Half.Limit(items[0].right) <= Half.Limit(items[1].left)
            && Valid(items[0]) && Valid(items[1])
  {
    Half.FlipInvolutive(a.left);
    Half.FlipInvolutive(a.right);
    Half.FlipInvolutive(b.left);
    Half.FlipInvolutive(b.right);
    if FromHalves(Half.Flip(a.right), Half.Flip(b.left)).Some? {
      assert Half.Limit(a.left) < Half.Limit(b.left);
      assert Half.Limit(a.right) < Half.Limit(b.right);
      assert IntoIter(Union(a, b)) == [a, b];
    } else {
      assert Half.Limit(b.left) < Half.Limit(a.left);
      assert Half.Limit(b.right) < Half.Limit(a.right);
      assert IntoIter(Union(a, b)) == [b, a];
    }
  }

  /** Without a gap the span holds nothing that is in neither input. */
  lemma SpanWithoutGapIsUnion(a: Interval, b: Interval)
    requires Valid(a) && Valid(b) && Gap(a, b).None?
    ensures forall t :: Contains(Span(a, b), t) <==> Contains(a, t) || Contains(b, t)
  {
    forall t | Contains(Span(a, b), t) && !Contains(a, t)
      ensures Contains(b, t)
    {
      if Half.Contains(a.left, t) {
        // `t` lies beyond `a` on the right.
        if !Half.Contains(b.left, t) {
          NonEmptyIsValid(Half.Flip(a.right), Half.Flip(b.left), t);
          assert false;
        }
      } else {
        // `t` lies before `a`, so it is in `b`'s left bound.
        if !Half.Contains(b.right, t) {
          NonEmptyIsValid(Half.Flip(b.right), Half.Flip(a.left), t);
          assert false;
        }
      }
    }
  }

  /** Without a gap the span holds no real point that is in neither input. */
  lemma SpanWithoutGapIsUnionReal(a: Interval, b: Interval)
    requires Valid(a) && Valid(b) && Gap(a, b).None?
    ensures forall x :: ContainsReal(Span(a, b), x) <==> ContainsReal(a, x) || ContainsReal(b, x)
  {
    forall x | ContainsReal(Span(a, b), x) && !ContainsReal(a, x)
      ensures ContainsReal(b, x)
    {
      Half.FlipComplementsReal(a.left, x);
      Half.FlipComplementsReal(a.right, x);
      Half.FlipComplementsReal(b.left, x);
      Half.FlipComplementsReal(b.right, x);
      if Half.ContainsReal(a.left, x) {
        // `x` lies beyond `a` on the right.
        if !Half.ContainsReal(b.left, x) {
          ValidIffNonEmptyOnReals(Half.Flip(a.right), Half.Flip(b.left));
          assert false;
        }
      } else {
        // `x` lies before `a`, so it is in `b`'s left bound.
        if !Half.ContainsReal(b.right, x) {
          ValidIffNonEmptyOnReals(Half.Flip(b.right), Half.Flip(a.left));
          assert false;
        }
      }
    }
  }

  /**
   * Splitting a union gives valid intervals whose members are exactly the
   * members of the two inputs.
   */
  lemma UnionIntoIterCoversExactly(a: Interval, b: Interval)
    requires Valid(a) && Valid(b)
    ensures var items := IntoIter(Union(a, b));
            (forall k :: 0 <= k < |items| ==> Valid(items[k]))
            && forall t :: (exists k :: 0 <= k < |items| && Contains(items[k], t)) <==> Contains(a, t) || Contains(b, t)
  {
    var items := IntoIter(Union(a, b));
    if Gap(a, b).Some? {
      UnionIntoIterSplitsBack(a, b);
    } else {
      SpanWithoutGapIsUnion(a, b);
      assert items == [Span(a, b)];
    }
  }

  /** The documented union: `[0,3)` and `[5,8)` split back into themselves. */
  lemma UnionExample()
    ensures var a := New(Bounds.Bound(0, Inclusive), Bounds.Bound(3, Exclusive));
            var b := New(Bounds.Bound(5, Inclusive), Bounds.Bound(8, Exclusive));
            IntoIter(Union(a, b)) == [a, b]
  {
    var a := New(Bounds.Bound(0, Inclusive), Bounds.Bound(3, Exclusive));
    var b := New(Bounds.Bound(5, Inclusive), Bounds.Bound(8, Exclusive));
    UnionIntoIterSplitsBack(a, b);
  }

  /** The documented dilations of `[4,7)`. */
  lemma DilateExamples()
    ensures var a := New(Bounds.Bound(4, Inclusive), Bounds.Bound(7, Exclusive));
            Dilate(a, 2) == Some(New(Bounds.Bound(2, Inclusive), Bounds.Bound(9, Exclusive)))
            && Dilate(a, -1) == Some(New(Bounds.Bound(5, Inclusive), Bounds.Bound(6, Exclusive)))
            && Dilate(a, -2).None?
  {
  }

  /** The documented `hull_many([3, 9, 2, 5])`, which is `[2, 9]`. */
  method HullManyExample()
  {
    var r := HullMany([3, 9, 2, 5], Inclusive, Inclusive);
    assert 2 in [3, 9, 2, 5] && 9 in [3, 9, 2, 5];
    assert r.Some? && Half.Limit(r.value.left) == 2 && Half.Limit(r.value.right) == 9;
    var none := HullMany([], Inclusive, Inclusive);
    assert none.None?;
  }
}
