/**
 * The `bounding` design iteration (src/bounding.rs): the run-time kind
 * `Bounding`, the static markers `Inclusive`/`Exclusive`, and the
 * side-dependent order `SideInclusion` used to break ties between bounds at
 * the same limit.
 */
module BoundingKinds {
  import BoundTypes

  datatype Bounding = Inclusive | Exclusive
  datatype Marker = InclusiveMarker | ExclusiveMarker
  datatype Side = Left | Right

  function ToBoundType(b: Bounding): (k: BoundTypes.BoundType)
    ensures k == BoundTypes.Inclusive <==> b == Inclusive
  {
    if b == Inclusive then BoundTypes.Inclusive else BoundTypes.Exclusive
  }

  function ToSide(s: Side): (r: BoundTypes.Side)
    ensures r == BoundTypes.Left <==> s == Left
  {
    if s == Left then BoundTypes.Left else BoundTypes.Right
  }

  /** `SideInclusion<Bounding, S>::cmp`: Inclusive first on the Left, Exclusive first on the Right. */
  function SideCmp(side: Side, a: Bounding, b: Bounding): (o: BoundTypes.Ordering)
    ensures o == BoundTypes.KeyCmp(ToSide(side), ToBoundType(a), ToBoundType(b))
  {
    match (side, a, b)
    case (Left, Inclusive, Exclusive) => BoundTypes.Less
    case (Left, Exclusive, Inclusive) => BoundTypes.Greater
    case (Right, Inclusive, Exclusive) => BoundTypes.Greater
    case (Right, Exclusive, Inclusive) => BoundTypes.Less
    case _ => BoundTypes.Equal
  }

  /** `SideInclusion` of a static marker: two values of one marker type always compare `Equal`. */
  function MarkerSideCmp(side: Side, a: Marker, b: Marker): (o: BoundTypes.Ordering)
    requires a == b
    ensures o == SideCmp(side, IntoGeneral(a), IntoGeneral(b))
  {
    BoundTypes.Equal
  }

  /** `IntoGeneral`: each marker to the same-named `Bounding`. */
  function IntoGeneral(m: Marker): (b: Bounding)
    ensures b == Inclusive <==> m == InclusiveMarker
  {
    match m
    case InclusiveMarker => Inclusive
    case ExclusiveMarker => Exclusive
  }

  function Flip(b: Bounding): (r: Bounding)
    ensures r != b
    ensures ToBoundType(r) == BoundTypes.Flip(ToBoundType(b))
  {
    match b
    case Inclusive => Exclusive
    case Exclusive => Inclusive
  }

  function FlipMarker(m: Marker): (r: Marker)
    ensures IntoGeneral(r) == Flip(IntoGeneral(m))
  {
    match m
    case InclusiveMarker => ExclusiveMarker
    case ExclusiveMarker => InclusiveMarker
  }

  function FlipSide(s: Side): (r: Side)
    ensures r != s
  {
    match s
    case Left => Right
    case Right => Left
  }

  /** `Boundary::less`: `s <= t` when inclusive, `s < t` when exclusive. */
  function Less(b: Bounding, s: int, t: int): (r: bool)
    ensures r <==> BoundTypes.KindLess(ToBoundType(b), s, t)
  {
    match b
    case Inclusive => s <= t
    case Exclusive => s < t
  }

  function MarkerLess(m: Marker, s: int, t: int): (r: bool)
    ensures r <==> Less(IntoGeneral(m), s, t)
  {
    match m
    case InclusiveMarker => s <= t
    case ExclusiveMarker => s < t
  }

  /** The Right order is the Left order reversed, and each is antisymmetric. */
  lemma SideCmpReverses(a: Bounding, b: Bounding)
    ensures SideCmp(Right, a, b) == BoundTypes.Reverse(SideCmp(Left, a, b))
    ensures SideCmp(Left, a, b) == BoundTypes.Reverse(SideCmp(Left, b, a))
    ensures SideCmp(Left, a, b) == BoundTypes.Equal <==> a == b
  {
  }

  lemma FlipInvolutive(b: Bounding, m: Marker, s: Side)
    ensures Flip(Flip(b)) == b && FlipMarker(FlipMarker(m)) == m && FlipSide(FlipSide(s)) == s
  {
  }
}
