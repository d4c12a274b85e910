/**
 * Axis-aligned boxes (src/interval_box.rs): the cartesian product of one
 * interval per axis. The axis count `N` is the length of `axes`; binary
 * operations take two boxes of the same dimension, as the const generic
 * forces in the library.
 */
module IntervalBox {
  import opened Options
  import opened BoundTypes
  import Intervals

  type Interval = Intervals.Interval

  datatype BoxN = BoxN(axes: seq<Interval>)

  predicate Valid(bx: BoxN)
  {
    forall i :: 0 <= i < |bx.axes| ==> Intervals.Valid(bx.axes[i])
  }

  function Dim(bx: BoxN): nat
  {
    |bx.axes|
  }

  /** `contains`: every axis holds the matching coordinate. */
  predicate Contains(bx: BoxN, p: seq<int>)
    requires |p| == Dim(bx)
  {
    forall i :: 0 <= i < |p| ==> Intervals.Contains(bx.axes[i], p[i])
  }

  /** `includes`: every axis includes the matching axis. */
  predicate Includes(a: BoxN, b: BoxN)
    requires Valid(a) && Valid(b) && Dim(a) == Dim(b)
  {
    forall i :: 0 <= i < Dim(a) ==> Intervals.Includes(a.axes[i], b.axes[i])
  }

  /** The kind-aware superset test, axis by axis. */
  predicate IncludesExact(a: BoxN, b: BoxN)
    requires Valid(a) && Valid(b) && Dim(a) == Dim(b)
  {
    forall i :: 0 <= i < Dim(a) ==> Intervals.IncludesExact(a.axes[i], b.axes[i])
  }

  /** `try_between`: `Some` only when every axis' `try_between` is. */
  function TryBetween(a: seq<int>, b: seq<int>, lk: BoundType, rk: BoundType): (r: Option<BoxN>)
    requires |a| == |b|
    ensures r.Some? <==> forall i :: 0 <= i < |a| ==> a[i] != b[i] || (lk == Inclusive && rk == Inclusive)
    ensures r.Some? ==> Valid(r.value) && Dim(r.value) == |a|
    ensures r.Some? ==> forall i :: 0 <= i < |a| ==> Intervals.TryBetween(a[i], b[i], lk, rk) == Some(r.value.axes[i])
  {
    if forall i :: 0 <= i < |a| ==> Intervals.TryBetween(a[i], b[i], lk, rk).Some? then
      Some(BoxN(seq(|a|, i requires 0 <= i < |a| => Intervals.TryBetween(a[i], b[i], lk, rk).value)))
    else
      None
  }

  /** `between`: panics where `try_between` gives `None`. */
  function Between(a: seq<int>, b: seq<int>, lk: BoundType, rk: BoundType): (r: BoxN)
    requires |a| == |b|
    requires forall i :: 0 <= i < |a| ==> a[i] != b[i] || (lk == Inclusive && rk == Inclusive)
    ensures Valid(r) && Dim(r) == |a|
    ensures forall i :: 0 <= i < |a| ==> r.axes[i] == Intervals.Between(a[i], b[i], lk, rk)
  {
    TryBetween(a, b, lk, rk).value
  }

  /**
   * `intersection`: a copy of `a` overwritten axis by axis with the
   * per-axis intersection, giving up with `None` at the first empty axis.
   */
  method Intersection(a: BoxN, b: BoxN) returns (r: Option<BoxN>)
    requires Valid(a) && Valid(b) && Dim(a) == Dim(b)
    ensures r.Some? <==> forall i :: 0 <= i < Dim(a) ==> Intervals.Overlaps(a.axes[i], b.axes[i])
    ensures r.Some? ==> Valid(r.value) && Dim(r.value) == Dim(a)
    ensures r.Some? ==> forall i :: 0 <= i < Dim(a) ==> Intervals.Intersection(a.axes[i], b.axes[i]) == Some(r.value.axes[i])
  {
    var n := Dim(a);
    var dst := new Interval[n](i requires 0 <= i < n => a.axes[i]);
    for i := 0 to n
      invariant forall k :: 0 <= k < i ==> Intervals.Intersection(a.axes[k], b.axes[k]) == Some(dst[k])
      invariant forall k :: i <= k < n ==> dst[k] == a.axes[k]
    {
      var x := Intervals.Intersection(dst[i], b.axes[i]);
      if x.None? {
        return None;
      }
      dst[i] := x.value;
    }
    r := Some(BoxN(dst[..]));
  }

  /** `span`: the per-axis span. */
  function Span(a: BoxN, b: BoxN): (r: BoxN)
    requires Valid(a) && Valid(b) && Dim(a) == Dim(b)
    ensures Valid(r) && Dim(r) == Dim(a)
    ensures forall i :: 0 <= i < Dim(a) ==> r.axes[i] == Intervals.Span(a.axes[i], b.axes[i])
    ensures IncludesExact(r, a) && IncludesExact(r, b)
  {
    BoxN(seq(Dim(a), i requires 0 <= i < Dim(a) => Intervals.Span(a.axes[i], b.axes[i])))
  }

  /** `hull`: the per-axis hull with the matching coordinate of `p`. */
  function Hull(bx: BoxN, p: seq<int>): (r: BoxN)
    requires Valid(bx) && |p| == Dim(bx)
    ensures Valid(r) && Dim(r) == Dim(bx)
    ensures forall i :: 0 <= i < Dim(bx) ==> r.axes[i] == Intervals.Hull(bx.axes[i], p[i])
    ensures forall q :: |q| == Dim(bx) && Contains(bx, q) ==> Contains(r, q)
  {
    BoxN(seq(Dim(bx), i requires 0 <= i < Dim(bx) => Intervals.Hull(bx.axes[i], p[i])))
  }

  /** `span_many`: `None` on no boxes, otherwise the left fold of `span`. */
  function SpanMany(items: seq<BoxN>, n: nat): (r: Option<BoxN>)
    requires forall k :: 0 <= k < |items| ==> Valid(items[k]) && Dim(items[k]) == n
    ensures r.None? <==> |items| == 0
    ensures r.Some? ==> Valid(r.value) && Dim(r.value) == n
    ensures r.Some? ==> forall k :: 0 <= k < |items| ==> IncludesExact(r.value, items[k])
  {
    if |items| == 0 then None else Some(FoldSpan(items[0], items[1..], n))
  }

  function FoldSpan(acc: BoxN, rest: seq<BoxN>, n: nat): (r: BoxN)
    requires Valid(acc) && Dim(acc) == n
    requires forall k :: 0 <= k < |rest| ==> Valid(rest[k]) && Dim(rest[k]) == n
    ensures Valid(r) && Dim(r) == n && IncludesExact(r, acc)
    ensures forall k :: 0 <= k < |rest| ==> IncludesExact(r, rest[k])
    decreases |rest|
  {
    if |rest| == 0 then
      IncludesExactReflexive(acc);
      acc
    else
      var next := Span(acc, rest[0]);
      var r := FoldSpan(next, rest[1..], n);
      IncludesExactTransitive(r, next, acc);
      IncludesExactTransitive(r, next, rest[0]);
      assert forall k :: 1 <= k < |rest| ==> IncludesExact(r, rest[k]) by {
        forall k | 1 <= k < |rest| ensures IncludesExact(r, rest[k]) {
          assert rest[k] == rest[1..][k - 1];
        }
      }
      r
  }

  // ---------------------------------------------------------------------------
  // Lemmas

  lemma IncludesExactReflexive(a: BoxN)
    requires Valid(a)
    ensures IncludesExact(a, a)
  {
    forall i | 0 <= i < Dim(a) ensures Intervals.IncludesExact(a.axes[i], a.axes[i]) {
      Intervals.IncludesExactReflexive(a.axes[i]);
    }
  }

  lemma IncludesExactTransitive(a: BoxN, b: BoxN, c: BoxN)
    requires Valid(a) && Valid(b) && Valid(c) && Dim(a) == Dim(b) == Dim(c)
    requires IncludesExact(a, b) && IncludesExact(b, c)
    ensures IncludesExact(a, c)
  {
    forall i | 0 <= i < Dim(a) ensures Intervals.IncludesExact(a.axes[i], c.axes[i]) {
      Intervals.IncludesExactTransitive(a.axes[i], b.axes[i], c.axes[i]);
    }
  }

  /** Box `span` is the least box including both inputs, axis by axis. */
  lemma SpanIsLeast(a: BoxN, b: BoxN, c: BoxN)
    requires Valid(a) && Valid(b) && Valid(c) && Dim(a) == Dim(b) == Dim(c)
    requires IncludesExact(c, a) && IncludesExact(c, b)
    ensures IncludesExact(c, Span(a, b))
  {
    forall i | 0 <= i < Dim(a) ensures Intervals.IncludesExact(c.axes[i], Span(a, b).axes[i]) {
      Intervals.SpanIsLeast(a.axes[i], b.axes[i], c.axes[i]);
    }
  }

  /** The fold of box `span` is the least box including the seed and every box. */
  lemma {:induction false} FoldSpanIsLeast(acc: BoxN, rest: seq<BoxN>, n: nat, c: BoxN)
    requires Valid(acc) && Dim(acc) == n && Valid(c) && Dim(c) == n
    requires forall k :: 0 <= k < |rest| ==> Valid(rest[k]) && Dim(rest[k]) == n
    requires IncludesExact(c, acc) && forall k :: 0 <= k < |rest| ==> IncludesExact(c, rest[k])
    ensures IncludesExact(c, FoldSpan(acc, rest, n))
    decreases |rest|
  {
    if |rest| > 0 {
      SpanIsLeast(acc, rest[0], c);
      assert forall k :: 0 <= k < |rest[1..]| ==> rest[1..][k] == rest[k + 1];
      FoldSpanIsLeast(Span(acc, rest[0]), rest[1..], n, c);
    }
  }

  /** Box `span_many` is the least box including every item. */
  lemma SpanManyIsLeast(items: seq<BoxN>, n: nat, c: BoxN)
    requires |items| > 0 && Valid(c) && Dim(c) == n
    requires forall k :: 0 <= k < |items| ==> Valid(items[k]) && Dim(items[k]) == n
    requires forall k :: 0 <= k < |items| ==> IncludesExact(c, items[k])
    ensures SpanMany(items, n).Some? && IncludesExact(c, SpanMany(items, n).value)
  {
    assert forall k :: 0 <= k < |items[1..]| ==> items[1..][k] == items[k + 1];
    FoldSpanIsLeast(items[0], items[1..], n, c);
  }

  /** The kind-aware inclusion is sound for boxes: every point of `b` is in `a`. */
  lemma IncludesExactIsSuperset(a: BoxN, b: BoxN)
    requires Valid(a) && Valid(b) && Dim(a) == Dim(b) && IncludesExact(a, b)
    ensures forall p :: |p| == Dim(a) && Contains(b, p) ==> Contains(a, p)
  {
    forall i | 0 <= i < Dim(a) ensures forall t :: Intervals.Contains(b.axes[i], t) ==> Intervals.Contains(a.axes[i], t) {
      Intervals.IncludesExactIsSuperset(a.axes[i], b.axes[i]);
    }
  }

  /** With equal kinds on every axis `includes` is sound for boxes too. */
  lemma IncludesSameKindsIsSuperset(a: BoxN, b: BoxN)
    requires Valid(a) && Valid(b) && Dim(a) == Dim(b) && Includes(a, b)
    requires forall i :: 0 <= i < Dim(a) ==> Intervals.Kind(a.axes[i]) == Intervals.Kind(b.axes[i])
    ensures forall p :: |p| == Dim(a) && Contains(b, p) ==> Contains(a, p)
  {
    forall i | 0 <= i < Dim(a) ensures Intervals.IncludesExact(a.axes[i], b.axes[i]) {
      Intervals.IncludesSameKindsIsExact(a.axes[i], b.axes[i]);
    }
    IncludesExactIsSuperset(a, b);
  }

  /** A point is in the box intersection exactly when it is in both boxes. */
  lemma IntersectionMembership(a: BoxN, b: BoxN, r: BoxN, p: seq<int>)
    requires Valid(a) && Valid(b) && Dim(a) == Dim(b) && Dim(r) == Dim(a) && |p| == Dim(a)
    requires forall i :: 0 <= i < Dim(a) ==> Intervals.Intersection(a.axes[i], b.axes[i]) == Some(r.axes[i])
    ensures Contains(r, p) <==> Contains(a, p) && Contains(b, p)
  {
  }

  /** Boxes without an intersection share no point. */
  lemma NoIntersectionMeansDisjoint(a: BoxN, b: BoxN, p: seq<int>)
    requires Valid(a) && Valid(b) && Dim(a) == Dim(b) && |p| == Dim(a)
    requires !forall i :: 0 <= i < Dim(a) ==> Intervals.Overlaps(a.axes[i], b.axes[i])
    ensures !(Contains(a, p) && Contains(b, p))
  {
    var i :| 0 <= i < Dim(a) && !Intervals.Overlaps(a.axes[i], b.axes[i]);
    if Contains(a, p) && Contains(b, p) {
      Intervals.CommonPointOverlaps(a.axes[i], b.axes[i], p[i]);
    }
  }

  /** With both kinds inclusive, the box between two corners holds both corners. */
  lemma TryBetweenHoldsCorners(a: seq<int>, b: seq<int>)
    requires |a| == |b|
    ensures var r := TryBetween(a, b, Inclusive, Inclusive);
            r.Some? && Contains(r.value, a) && Contains(r.value, b)
  {
  }

  /**
   * A box hulled with one of its points is unchanged, and a closed box
   * hulled with any point contains it.
   */
  lemma HullContainsPoint(bx: BoxN, p: seq<int>)
    requires Valid(bx) && |p| == Dim(bx)
    ensures Contains(bx, p) ==> Hull(bx, p) == bx
    ensures (forall i :: 0 <= i < Dim(bx) ==> Intervals.Kind(bx.axes[i]) == (Inclusive, Inclusive)) ==> Contains(Hull(bx, p), p)
  {
    forall i | 0 <= i < Dim(bx)
      ensures Intervals.Contains(bx.axes[i], p[i]) ==> Intervals.Hull(bx.axes[i], p[i]) == bx.axes[i]
      ensures Intervals.Kind(bx.axes[i]) == (Inclusive, Inclusive) ==> Intervals.Contains(Hull(bx, p).axes[i], p[i])
    {
      Intervals.HullOfMember(bx.axes[i], p[i]);
    }
  }
}
