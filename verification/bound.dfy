/**
 * A limit paired with a boundary kind (src/bound.rs), generic in the kind so
 * that both the static markers and the runtime `BoundType` can be used.
 */
module Bounds {
  import opened BoundTypes

  datatype Bound<B> = Bound(limit: int, boundType: B)

  /** `Flip for Bound<T, BoundType>`: same limit, the other kind. */
  function Flip(b: Bound<BoundType>): (r: Bound<BoundType>)
    ensures r.limit == b.limit && r.boundType != b.boundType
  {
    Bound(b.limit, BoundTypes.Flip(b.boundType))
  }

  /** `Flip for Bound<T, Inclusive>` and `Bound<T, Exclusive>`. */
  function FlipMarkerBound(b: Bound<Marker>): (r: Bound<Marker>)
    ensures r.limit == b.limit && r.boundType != b.boundType
  {
    Bound(b.limit, FlipMarker(b.boundType))
  }

  /** `IntoGeneral for Bound`: the same limit with the marker generalised. */
  function IntoGeneral(b: Bound<Marker>): (r: Bound<BoundType>)
    ensures r.limit == b.limit
    ensures MarkerEq(b.boundType, r.boundType)
  {
    Bound(b.limit, BoundTypes.IntoGeneral(b.boundType))
  }

  /**
   * The derived `Ord for Bound<T, BoundType>`: `limit` first, then the kind
   * in declaration order (`Inclusive < Exclusive`).
   */
  function Cmp(a: Bound<BoundType>, b: Bound<BoundType>): (o: Ordering)
    ensures o == Equal <==> a == b
    ensures a.limit < b.limit ==> o == Less
    ensures a.limit > b.limit ==> o == Greater
    ensures a.limit == b.limit && a.boundType == Inclusive && b.boundType == Exclusive ==> o == Less
    ensures a.limit == b.limit && a.boundType == Exclusive && b.boundType == Inclusive ==> o == Greater
  {
    if a.limit < b.limit then Less
    else if a.limit > b.limit then Greater
    else KindCmp(a.boundType, b.boundType)
  }

  /** The derived `Ord for BoundType`. */
  function KindCmp(a: BoundType, b: BoundType): (o: Ordering)
    ensures o == Equal <==> a == b
  {
    match (a, b)
    case (Inclusive, Exclusive) => Less
    case (Exclusive, Inclusive) => Greater
    case _ => Equal
  }

  /** The derived kind order is the Left-side ordering key. */
  lemma DerivedKindOrderIsLeftKey(a: BoundType, b: BoundType)
    ensures KindCmp(a, b) == KeyCmp(Left, a, b)
  {
  }

  lemma {:induction false} FlipInvolutive(b: Bound<BoundType>, m: Bound<Marker>)
    ensures Flip(Flip(b)) == b
    ensures FlipMarkerBound(FlipMarkerBound(m)) == m
  {
    BoundTypes.FlipInvolutive(b.boundType, m.boundType, Left);
  }

  /** Generalising then flipping equals flipping then generalising. */
  lemma IntoGeneralCommutesWithFlip(b: Bound<Marker>)
    ensures Flip(IntoGeneral(b)) == IntoGeneral(FlipMarkerBound(b))
  {
  }
}
