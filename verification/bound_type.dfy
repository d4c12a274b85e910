/**
 * Boundary kinds (src/bound_type.rs): the runtime enum `BoundType`, the static
 * zero-size markers `Inclusive`/`Exclusive`, the side tags `Left`/`Right`,
 * and the side-dependent ordering key used to break ties between two bounds
 * with the same limit.
 */
module BoundTypes {

  /** The runtime enum `BoundType`; declaration order gives the derived `Ord`. */
  datatype BoundType = Inclusive | Exclusive

  /** The static marker types `Inclusive` and `Exclusive`. */
  datatype Marker = InclusiveMarker | ExclusiveMarker

  /** The phantom side tags `Left` and `Right`. */
  datatype Side = Left | Right

  /** `std::cmp::Ordering`. */
  datatype Ordering = Less | Equal | Greater

  function Reverse(o: Ordering): Ordering
  {
    match o
    case Less => Greater
    case Equal => Equal
    case Greater => Less
  }

  /** `Ord for BoundOrderingKey<BoundType, Left>` and `<BoundType, Right>`. */
  function KeyCmp(side: Side, a: BoundType, b: BoundType): (o: Ordering)
    ensures o == Equal <==> a == b
  {
    match side
    case Left =>
      (match (a, b)
       case (Inclusive, Inclusive) => Equal
       case (Inclusive, Exclusive) => Less
       case (Exclusive, Inclusive) => Greater
       case (Exclusive, Exclusive) => Equal)
    case Right =>
      (match (a, b)
       case (Inclusive, Inclusive) => Equal
       case (Inclusive, Exclusive) => Greater
       case (Exclusive, Inclusive) => Less
       case (Exclusive, Exclusive) => Equal)
  }

  /**
   * `Ord for BoundOrderingKey<Inclusive, LR>` (and the other three static
   * instances): both keys have the same static marker type, and they always
   * compare `Equal`.
   */
  function MarkerKeyCmp(side: Side, a: Marker, b: Marker): (o: Ordering)
    requires a == b
    ensures o == KeyCmp(side, IntoGeneral(a), IntoGeneral(b))
  {
    Equal
  }

  /** `Flip for BoundType`. */
  function Flip(k: BoundType): (r: BoundType)
    ensures r != k
  {
    match k
    case Inclusive => Exclusive
    case Exclusive => Inclusive
  }

  /** `Flip for Inclusive` and `Flip for Exclusive`. */
  function FlipMarker(m: Marker): (r: Marker)
    ensures r != m
  {
    match m
    case InclusiveMarker => ExclusiveMarker
    case ExclusiveMarker => InclusiveMarker
  }

  /** `Flip for Left` and `Flip for Right`. */
  function FlipSide(s: Side): (r: Side)
    ensures r != s
  {
    match s
    case Left => Right
    case Right => Left
  }

  /** `IntoGeneral for Inclusive` and `for Exclusive`. */
  function IntoGeneral(m: Marker): (k: BoundType)
    ensures (k == Inclusive) <==> (m == InclusiveMarker)
  {
    match m
    case InclusiveMarker => Inclusive
    case ExclusiveMarker => Exclusive
  }

  /** `PartialEq<BoundType> for Inclusive` and `for Exclusive`. */
  predicate MarkerEq(m: Marker, k: BoundType)
  {
    match m
    case InclusiveMarker => (match k case Inclusive => true case Exclusive => false)
    case ExclusiveMarker => (match k case Inclusive => false case Exclusive => true)
  }

  /** `Boundary::less for BoundType`: may `s` be followed by `t` under this kind. */
  predicate KindLess(k: BoundType, s: int, t: int)
  {
    match k
    case Inclusive => s <= t
    case Exclusive => s < t
  }

  /** `Boundary::less for Inclusive` and `for Exclusive`. */
  predicate MarkerLess(m: Marker, s: int, t: int)
  {
    match m
    case InclusiveMarker => s <= t
    case ExclusiveMarker => s < t
  }

  /** The Right key is the Left key reversed, for every pair of kinds. */
  lemma RightKeyReversesLeft(a: BoundType, b: BoundType)
    ensures KeyCmp(Right, a, b) == Reverse(KeyCmp(Left, a, b))
    ensures KeyCmp(Left, Inclusive, Exclusive) == Less
    ensures KeyCmp(Right, Exclusive, Inclusive) == Less
  {
  }

  /** Swapping the operands reverses the comparison. */
  lemma KeyCmpAntisymmetric(side: Side, a: BoundType, b: BoundType)
    ensures KeyCmp(side, a, b) == Reverse(KeyCmp(side, b, a))
  {
  }

  /** Each side's key is a total order on the two kinds. */
  lemma KeyCmpTransitive(side: Side, a: BoundType, b: BoundType, c: BoundType)
    requires KeyCmp(side, a, b) != Greater && KeyCmp(side, b, c) != Greater
    ensures KeyCmp(side, a, c) != Greater
    ensures KeyCmp(side, a, b) == Less || KeyCmp(side, b, c) == Less ==> KeyCmp(side, a, c) == Less
  {
  }

  lemma FlipInvolutive(k: BoundType, m: Marker, s: Side)
    ensures Flip(Flip(k)) == k
    ensures FlipMarker(FlipMarker(m)) == m
    ensures FlipSide(FlipSide(s)) == s
  {
  }

  /** Exclusive `less` is the stricter one. */
  lemma ExclusiveLessImpliesInclusiveLess(s: int, t: int)
    ensures KindLess(Exclusive, s, t) ==> KindLess(Inclusive, s, t)
    ensures KindLess(Inclusive, s, t) <==> s <= t
    ensures KindLess(Exclusive, s, t) <==> s < t
  {
  }

  /**
   * Flipping the kind and swapping the operands complements `less`: this is
   * what makes a flipped half-bound the complement of the original.
   */
  lemma FlipLessComplements(k: BoundType, s: int, t: int)
    ensures KindLess(Flip(k), t, s) <==> !KindLess(k, s, t)
  {
  }

  /** The static markers behave exactly as their generalised runtime kinds. */
  lemma MarkersAgreeWithGeneral(m: Marker, k: BoundType, s: int, t: int)
    ensures MarkerEq(m, k) <==> IntoGeneral(m) == k
    ensures MarkerLess(m, s, t) <==> KindLess(IntoGeneral(m), s, t)
    ensures IntoGeneral(FlipMarker(m)) == Flip(IntoGeneral(m))
  {
  }
}
