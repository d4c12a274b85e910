/**
 * Half-bounded sets (src/half.rs): a `Bound` tagged with the side it limits.
 * A Left half-bound is the set of scalars at or above (above, when
 * exclusive) its limit; a Right half-bound the set at or below (below).
 * Side is a phantom type in the library; here it is a field, and every binary
 * operation requires both operands to have the same side.
 */
module Half {
  import opened BoundTypes
  import Bounds

  type Bound = Bounds.Bound<BoundType>

  datatype HalfBounded = HalfBounded(bound: Bound, side: Side)

  function Limit(h: HalfBounded): int { h.bound.limit }

  function Kind(h: HalfBounded): BoundType { h.bound.boundType }

  /**
   * `PartialOrd for HalfBounded`: compares the ordering key
   * `(limit, BoundOrderingKey<kind, side>)` lexicographically.
   */
  function Cmp(a: HalfBounded, b: HalfBounded): (o: Ordering)
    requires a.side == b.side
    ensures o == Equal <==> a == b
    ensures Limit(a) < Limit(b) ==> o == Less
    ensures Limit(a) > Limit(b) ==> o == Greater
  {
    if Limit(a) < Limit(b) then Less
    else if Limit(a) > Limit(b) then Greater
    else KeyCmp(a.side, Kind(a), Kind(b))
  }

  predicate Lt(a: HalfBounded, b: HalfBounded)
    requires a.side == b.side
  {
    Cmp(a, b) == Less
  }

  predicate Le(a: HalfBounded, b: HalfBounded)
    requires a.side == b.side
  {
    Cmp(a, b) != Greater
  }

  /** `partial_min`: the second argument unless the first is strictly less. */
  function PartialMin(a: HalfBounded, b: HalfBounded): (r: HalfBounded)
    requires a.side == b.side
    ensures r == a || r == b
    ensures r.side == a.side && Le(r, a) && Le(r, b)
  {
    CmpAntisymmetric(a, b);
    if Lt(a, b) then a else b
  }

  /** `partial_max`: the second argument unless the first is strictly greater. */
  function PartialMax(a: HalfBounded, b: HalfBounded): (r: HalfBounded)
    requires a.side == b.side
    ensures r == a || r == b
    ensures r.side == a.side && Le(a, r) && Le(b, r)
  {
    CmpAntisymmetric(a, b);
    if Cmp(a, b) == Greater then a else b
  }

  /** `contains`: Left holds `less(limit, t)`, Right holds `less(t, limit)`. */
  predicate Contains(h: HalfBounded, t: int)
  {
    match h.side
    case Left => KindLess(Kind(h), Limit(h), t)
    case Right => KindLess(Kind(h), t, Limit(h))
  }

  /** The same membership read on the real line, where the library places every interval. */
  predicate ContainsReal(h: HalfBounded, x: real)
  {
    match h.side
    case Left => (if Kind(h) == Inclusive then Limit(h) as real <= x else Limit(h) as real < x)
    case Right => (if Kind(h) == Inclusive then x <= Limit(h) as real else x < Limit(h) as real)
  }

  /** `includes`, as written: compares limits only and ignores the kinds. */
  predicate Includes(h: HalfBounded, o: HalfBounded)
    requires h.side == o.side
  {
    match h.side
    case Left => Limit(h) <= Limit(o)
    case Right => Limit(o) <= Limit(h)
  }

  /**
   * A kind-aware superset test: `h` is at or below `o` in the Left order, or
   * at or above it in the Right order.
   */
  predicate IncludesExact(h: HalfBounded, o: HalfBounded)
    requires h.side == o.side
  {
    match h.side
    case Left => Le(h, o)
    case Right => Le(o, h)
  }

  /** `intersection`: the tighter bound, max for Left and min for Right. */
  function Intersection(h: HalfBounded, o: HalfBounded): (r: HalfBounded)
    requires h.side == o.side
    ensures r == h || r == o
    ensures r.side == h.side
    ensures forall t :: Contains(r, t) <==> Contains(h, t) && Contains(o, t)
    ensures forall x :: ContainsReal(r, x) <==> ContainsReal(h, x) && ContainsReal(o, x)
  {
    match h.side
    case Left =>
      var r := PartialMax(h, o);
      LeMeansTighter(h, r);
      LeMeansTighter(o, r);
      LeMeansTighterReal(h, r);
      LeMeansTighterReal(o, r);
      r
    case Right =>
      var r := PartialMin(h, o);
      LeMeansTighter(r, h);
      LeMeansTighter(r, o);
      LeMeansTighterReal(r, h);
      LeMeansTighterReal(r, o);
      r
  }

  /** `union`: the looser bound, min for Left and max for Right. */
  function Union(h: HalfBounded, o: HalfBounded): (r: HalfBounded)
    requires h.side == o.side
    ensures r == h || r == o
    ensures r.side == h.side
    ensures forall t :: Contains(r, t) <==> Contains(h, t) || Contains(o, t)
    ensures forall x :: ContainsReal(r, x) <==> ContainsReal(h, x) || ContainsReal(o, x)
  {
    match h.side
    case Left =>
      var r := PartialMin(h, o);
      LeMeansTighter(r, h);
      LeMeansTighter(r, o);
      LeMeansTighterReal(r, h);
      LeMeansTighterReal(r, o);
      r
    case Right =>
      var r := PartialMax(h, o);
      LeMeansTighter(h, r);
      LeMeansTighter(o, r);
      LeMeansTighterReal(h, r);
      LeMeansTighterReal(o, r);
      r
  }

  /** `hull`: moves the limit out to `t` when `t` lies beyond it; the kind is kept. */
  function Hull(h: HalfBounded, t: int): (r: HalfBounded)
    ensures r.side == h.side && Kind(r) == Kind(h)
    ensures Limit(r) == Limit(h) || Limit(r) == t
    ensures h.side == Left ==> Limit(r) <= t && Limit(r) <= Limit(h)
    ensures h.side == Right ==> t <= Limit(r) && Limit(h) <= Limit(r)
    ensures forall s :: Contains(h, s) ==> Contains(r, s)
  {
    match h.side
    case Left =>
      HalfBounded(Bounds.Bound(if Limit(h) < t then Limit(h) else t, Kind(h)), Left)
    case Right =>
      HalfBounded(Bounds.Bound(if Limit(h) > t then Limit(h) else t, Kind(h)), Right)
  }

  /** `dilate`: moves the limit outward by `delta` (inward when negative). */
  function Dilate(h: HalfBounded, delta: int): (r: HalfBounded)
    ensures r.side == h.side && Kind(r) == Kind(h)
    ensures forall t :: Contains(r, t) <==> Contains(h, if h.side == Left then t + delta else t - delta)
  {
    match h.side
    case Left => HalfBounded(Bounds.Bound(Limit(h) - delta, Kind(h)), Left)
    case Right => HalfBounded(Bounds.Bound(Limit(h) + delta, Kind(h)), Right)
  }

  /** `closure`: the same limit, made inclusive; it only adds the limit itself. */
  function Closure(h: HalfBounded): (r: HalfBounded)
    ensures r.side == h.side && Limit(r) == Limit(h) && Kind(r) == Inclusive
    ensures forall t :: Contains(r, t) <==> Contains(h, t) || t == Limit(h)
  {
    HalfBounded(Bounds.Bound(Limit(h), Inclusive), h.side)
  }

  /** `interior`: the same limit, made exclusive; it only removes the limit itself. */
  function Interior(h: HalfBounded): (r: HalfBounded)
    ensures r.side == h.side && Limit(r) == Limit(h) && Kind(r) == Exclusive
    ensures forall t :: Contains(r, t) <==> Contains(h, t) && t != Limit(h)
  {
    HalfBounded(Bounds.Bound(Limit(h), Exclusive), h.side)
  }

  /** Integer `ceil` of a Left bound: its least member. */
  function Ceil(h: HalfBounded): (r: int)
    requires h.side == Left
    ensures Contains(h, r)
    ensures forall t :: Contains(h, t) ==> r <= t
  {
    match Kind(h)
    case Inclusive => Limit(h)
    case Exclusive => Limit(h) + 1
  }

  /** Integer `floor` of a Right bound: its greatest member. */
  function Floor(h: HalfBounded): (r: int)
    requires h.side == Right
    ensures Contains(h, r)
    ensures forall t :: Contains(h, t) ==> t <= r
  {
    match Kind(h)
    case Inclusive => Limit(h)
    case Exclusive => Limit(h) - 1
  }

  /** `flip`: the complement, with the other side, the other kind and the same limit. */
  function Flip(h: HalfBounded): (r: HalfBounded)
    ensures r.side == FlipSide(h.side) && Limit(r) == Limit(h) && Kind(r) == BoundTypes.Flip(Kind(h))
    ensures forall t :: Contains(r, t) <==> !Contains(h, t)
  {
    HalfBounded(Bounds.Flip(h.bound), FlipSide(h.side))
  }

  // ---------------------------------------------------------------------------
  // Properties of the order

  lemma CmpAntisymmetric(a: HalfBounded, b: HalfBounded)
    requires a.side == b.side
    ensures Cmp(a, b) == Reverse(Cmp(b, a))
  {
    BoundTypes.KeyCmpAntisymmetric(a.side, Kind(a), Kind(b));
  }

  lemma CmpTransitive(a: HalfBounded, b: HalfBounded, c: HalfBounded)
    requires a.side == b.side == c.side
    requires Le(a, b) && Le(b, c)
    ensures Le(a, c)
  {
    if Limit(a) == Limit(b) == Limit(c) {
      BoundTypes.KeyCmpTransitive(a.side, Kind(a), Kind(b), Kind(c));
    }
  }

  /** With the same kind (as with the static markers), only limits order bounds. */
  lemma SameKindOrdersByLimit(a: HalfBounded, b: HalfBounded)
    requires a.side == b.side && Kind(a) == Kind(b)
    ensures Le(a, b) <==> Limit(a) <= Limit(b)
    ensures Lt(a, b) <==> Limit(a) < Limit(b)
  {
  }

  /** The tie-break examples: Left `[0` < Left `(0`, and Right `0]` > Right `0)`. */
  lemma TieBreakExamples()
    ensures Lt(HalfBounded(Bounds.Bound(0, Inclusive), Left), HalfBounded(Bounds.Bound(0, Exclusive), Left))
    ensures Cmp(HalfBounded(Bounds.Bound(0, Inclusive), Right), HalfBounded(Bounds.Bound(0, Exclusive), Right)) == Greater
  {
  }

  /**
   * The order is the containment order: a Left bound higher up contains
   * less, a Right bound higher up contains more.
   */
  lemma LeMeansTighter(a: HalfBounded, b: HalfBounded)
    requires a.side == b.side && Le(a, b)
    ensures a.side == Left ==> forall t :: Contains(b, t) ==> Contains(a, t)
    ensures a.side == Right ==> forall t :: Contains(a, t) ==> Contains(b, t)
  {
  }

  lemma LeMeansTighterReal(a: HalfBounded, b: HalfBounded)
    requires a.side == b.side && Le(a, b)
    ensures a.side == Left ==> forall x :: ContainsReal(b, x) ==> ContainsReal(a, x)
    ensures a.side == Right ==> forall x :: ContainsReal(a, x) ==> ContainsReal(b, x)
  {
  }

  lemma IntersectionCommutes(h: HalfBounded, o: HalfBounded)
    requires h.side == o.side
    ensures Intersection(h, o) == Intersection(o, h)
    ensures Union(h, o) == Union(o, h)
  {
    CmpAntisymmetric(h, o);
  }

  /** Applying the operations to a bound and itself gives the bound back. */
  lemma IntersectionIdempotent(h: HalfBounded)
    ensures Intersection(h, h) == h && Union(h, h) == h
  {
  }

  lemma {:induction false} FlipInvolutive(h: HalfBounded)
    ensures Flip(Flip(h)) == h
  {
    Bounds.FlipInvolutive(h.bound, Bounds.Bound(0, InclusiveMarker));
    BoundTypes.FlipInvolutive(Kind(h), InclusiveMarker, h.side);
  }

  /** The integer `ceil`/`floor` examples of the documentation. */
  lemma CeilFloorExamples()
    ensures Ceil(HalfBounded(Bounds.Bound(4, Inclusive), Left)) == 4
    ensures Ceil(HalfBounded(Bounds.Bound(4, Exclusive), Left)) == 5
    ensures Floor(HalfBounded(Bounds.Bound(7, Inclusive), Right)) == 7
    ensures Floor(HalfBounded(Bounds.Bound(7, Exclusive), Right)) == 6
  {
  }

  // ---------------------------------------------------------------------------
  // `includes`: as written, and kind-aware

  /** With equal kinds, as with the static markers, the limit-only test is exact. */
  lemma IncludesSameKindIsSuperset(h: HalfBounded, o: HalfBounded)
    requires h.side == o.side && Kind(h) == Kind(o)
    ensures Includes(h, o) <==> IncludesExact(h, o)
    ensures Includes(h, o) <==> forall t :: Contains(o, t) ==> Contains(h, t)
  {
    if !Includes(h, o) {
      var t := if Kind(h) == Inclusive then Limit(o) else Limit(h);
      assert Contains(o, t) && !Contains(h, t);
    }
  }

  /** With runtime kinds, the limit-only test admits `(0` as including `[0`. */
  lemma IncludesIgnoresKind()
    ensures var h := HalfBounded(Bounds.Bound(0, Exclusive), Left);
            var o := HalfBounded(Bounds.Bound(0, Inclusive), Left);
            Includes(h, o) && Contains(o, 0) && !Contains(h, 0)
  {
  }

  /** The kind-aware test is sound for integer membership. */
  lemma IncludesExactIsSuperset(h: HalfBounded, o: HalfBounded)
    requires h.side == o.side && IncludesExact(h, o)
    ensures forall t :: Contains(o, t) ==> Contains(h, t)
  {
    if h.side == Left { LeMeansTighter(h, o); } else { LeMeansTighter(o, h); }
  }

  /** On the real line the kind-aware test is exactly the superset relation. */
  lemma IncludesExactIffRealSuperset(h: HalfBounded, o: HalfBounded)
    requires h.side == o.side
    ensures IncludesExact(h, o) <==> forall x :: ContainsReal(o, x) ==> ContainsReal(h, x)
  {
    if IncludesExact(h, o) {
      if h.side == Left { LeMeansTighterReal(h, o); } else { LeMeansTighterReal(o, h); }
    } else {
      var x: real := if Limit(h) == Limit(o) then Limit(h) as real
                     else (Limit(h) as real + Limit(o) as real) / 2.0;
      assert ContainsReal(o, x) && !ContainsReal(h, x);
    }
  }

  /** On the real line, too, `flip` is the complement. */
  lemma FlipComplementsReal(h: HalfBounded, x: real)
    ensures ContainsReal(Flip(h), x) <==> !ContainsReal(h, x)
  {
  }

  /**
   * A point inside a half-bound and a point outside it lie in the order the
   * side dictates: the outside point is below for Left, above for Right.
   */
  lemma OutsideIsBeyond(h: HalfBounded, x: real, y: real)
    requires ContainsReal(h, x) && !ContainsReal(h, y)
    ensures h.side == Left ==> y < x
    ensures h.side == Right ==> x < y
  {
  }
}
