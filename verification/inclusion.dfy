/**
 * The `inclusion` design iteration (src/inclusion.rs): the run-time kind
 * `Inclusion` and the static markers, each with `flip` and `less`.
 */
module InclusionKinds {
  import BoundTypes

  datatype Inclusion = Inclusive | Exclusive
  datatype Marker = InclusiveMarker | ExclusiveMarker

  function ToBoundType(i: Inclusion): (k: BoundTypes.BoundType)
    ensures k == BoundTypes.Inclusive <==> i == Inclusive
  {
    if i == Inclusive then BoundTypes.Inclusive else BoundTypes.Exclusive
  }

  function ToInclusion(m: Marker): (i: Inclusion)
    ensures i == Inclusive <==> m == InclusiveMarker
  {
    if m == InclusiveMarker then Inclusive else Exclusive
  }

  /** `Inclusive::flip` is `Exclusive` and back. */
  function FlipMarker(m: Marker): (r: Marker)
    ensures r != m
    ensures ToInclusion(r) == Flip(ToInclusion(m))
  {
    match m
    case InclusiveMarker => ExclusiveMarker
    case ExclusiveMarker => InclusiveMarker
  }

  function Flip(i: Inclusion): (r: Inclusion)
    ensures r != i
    ensures ToBoundType(r) == BoundTypes.Flip(ToBoundType(i))
  {
    match i
    case Inclusive => Exclusive
    case Exclusive => Inclusive
  }

  /** `less` of a marker: `s <= t` for `Inclusive`, `s < t` for `Exclusive`. */
  function MarkerLess(m: Marker, s: int, t: int): (r: bool)
    ensures r <==> Less(ToInclusion(m), s, t)
  {
    match m
    case InclusiveMarker => s <= t
    case ExclusiveMarker => s < t
  }

  function Less(i: Inclusion, s: int, t: int): (r: bool)
    ensures r <==> BoundTypes.KindLess(ToBoundType(i), s, t)
  {
    match i
    case Inclusive => s <= t
    case Exclusive => s < t
  }

  lemma FlipInvolutive(i: Inclusion, m: Marker)
    ensures Flip(Flip(i)) == i && FlipMarker(FlipMarker(m)) == m
  {
  }

  /** Exclusive-less implies inclusive-less, and a flipped kind decides the reverse comparison. */
  lemma LessRelations(i: Inclusion, s: int, t: int)
    ensures Less(Exclusive, s, t) ==> Less(Inclusive, s, t)
    ensures Less(Flip(i), t, s) <==> !Less(i, s, t)
  {
  }
}
