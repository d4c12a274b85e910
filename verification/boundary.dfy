/**
 * The `boundary` design iteration (src/boundary.rs): the run-time kind enum
 * (`Bound` there) and the static markers, each with `flip` and `less`.
 * Unlike the `inclusion` iteration its trait also asks for a total order,
 * which the derived order of the enum gives (`Inclusive` first).
 */
module BoundaryKinds {
  import BoundTypes

  datatype Kind = Inclusive | Exclusive
  datatype Marker = InclusiveMarker | ExclusiveMarker

  function ToBoundType(k: Kind): (r: BoundTypes.BoundType)
    ensures r == BoundTypes.Inclusive <==> k == Inclusive
  {
    if k == Inclusive then BoundTypes.Inclusive else BoundTypes.Exclusive
  }

  function ToKind(m: Marker): (k: Kind)
    ensures k == Inclusive <==> m == InclusiveMarker
  {
    if m == InclusiveMarker then Inclusive else Exclusive
  }

  function FlipMarker(m: Marker): (r: Marker)
    ensures r != m
    ensures ToKind(r) == Flip(ToKind(m))
  {
    match m
    case InclusiveMarker => ExclusiveMarker
    case ExclusiveMarker => InclusiveMarker
  }

  function Flip(k: Kind): (r: Kind)
    ensures r != k
    ensures ToBoundType(r) == BoundTypes.Flip(ToBoundType(k))
  {
    match k
    case Inclusive => Exclusive
    case Exclusive => Inclusive
  }

  function MarkerLess(m: Marker, s: int, t: int): (r: bool)
    ensures r <==> Less(ToKind(m), s, t)
  {
    match m
    case InclusiveMarker => s <= t
    case ExclusiveMarker => s < t
  }

  /** `less`: `s <= t` for `Inclusive`, `s < t` for `Exclusive`. */
  function Less(k: Kind, s: int, t: int): (r: bool)
    ensures r <==> BoundTypes.KindLess(ToBoundType(k), s, t)
  {
    match k
    case Inclusive => s <= t
    case Exclusive => s < t
  }

  /** The derived order of the enum, which agrees with the Left-side tie-break of the canonical layer. */
  function Cmp(a: Kind, b: Kind): (o: BoundTypes.Ordering)
    ensures o == BoundTypes.KeyCmp(BoundTypes.Left, ToBoundType(a), ToBoundType(b))
  {
    if a == b then BoundTypes.Equal else if a == Inclusive then BoundTypes.Less else BoundTypes.Greater
  }

  lemma FlipInvolutive(k: Kind, m: Marker)
    ensures Flip(Flip(k)) == k && FlipMarker(FlipMarker(m)) == m
  {
  }

  /** Exclusive-less implies inclusive-less, and a flipped kind decides the reverse comparison. */
  lemma LessRelations(k: Kind, s: int, t: int)
    ensures Less(Exclusive, s, t) ==> Less(Inclusive, s, t)
    ensures Less(Flip(k), t, s) <==> !Less(k, s, t)
  {
  }
}
