# inter-val: a verified model of interval arithmetic over bounds

This project models the core of the `inter-val` (`kd_interval`) Rust
library: intervals such as *[a, b]*, *(a, b)*, *[a, b)* and *(a, b]* built
from half-bounds, and axis-aligned boxes built from intervals.

The scalar is `int`. The library reads every interval on the real line,
even when its scalar is an integer (`src/interval.rs:50`). So an interval
is *valid* when each bound contains the other's limit, and that means the
interval is non-empty on the reals. Membership (`contains`) is stated on
integers. A `ContainsReal` predicate states the real-line reading where a
property needs it.

Layers, leaf first:

- `bound_type.dfy` (module `BoundTypes`): the runtime kind `BoundType`,
  the static markers `Inclusive`/`Exclusive` (datatype `Marker`), the sides
  `Left`/`Right`, `flip`, `less`, `into_general`, and the side-dependent
  tie-break order `BoundOrderingKey`.
- `bound.dfy` (module `Bounds`): `Bound { limit, bound_type }` with `flip`,
  `into_general` and its derived order.
- `half.dfy` (module `Half`): `HalfBounded`, a bound tagged with its side.
  It is ordered by `(limit, kind key)`, and provides `partial_min`/`partial_max`,
  `contains`, `includes`, `intersection`, `union`, `hull`, `dilate`,
  `closure`/`interior`, `ceil`/`floor` and `flip`.
- `interval.dfy` (module `Intervals`): the interval, its validity
  invariant and every interval operation. `span` and
  `IntervalUnion::into_iter` build intervals without checking them; their
  results are proved valid. `hull_many` is a method with the source's loop.
- `interval_box.dfy` (module `IntervalBox`): `BoxN`, one interval per axis.
  `intersection` is a method that overwrites a copied array axis by axis and
  gives up at the first empty axis, as the source does.
- Earlier design iterations, one module each: `core.dfy` (`CoreInterval`),
  `idea1.dfy` (`Idea1Interval`), `idea2.dfy` (`Idea2Interval`), `general.dfy`
  (`GeneralInterval`), `bounding.dfy` (`BoundingKinds`), `inclusion.dfy`
  (`InclusionKinds`) and `boundary.dfy` (`BoundaryKinds`). Each maps its
  encoding onto the canonical layer and is proved to agree with it.

Kinds and sides are type parameters in the library. Here they are datatype
fields. A binary operation on two values of one Rust type requires equal
sides, or equal kinds where the kinds are static. A panic (`new`, `between`,
`dilate`) becomes a precondition or an `Option` result.

`gap` flips the facing bounds, so the gap between `[0,3)` and `[5,8)` is
`[3,5)`, as the doc test at `src/interval.rs:321-335` expects.
`Intervals.SpanHullExamples` proves it.

## Model

| member | source | states |
|---|---|---|
| BoundTypes.KeyCmp | src/bound_type.rs:58-69 | the kind ordering key per side; it answers Equal exactly for equal kinds |
| BoundTypes.MarkerKeyCmp | src/bound_type.rs:54-57 | keys of one static marker type always compare Equal, which agrees with the runtime key of the generalised marker |
| BoundTypes.RightKeyReversesLeft | src/bound_type.rs:58-69 | Left: Inclusive < Exclusive; Right: Exclusive < Inclusive; the Right key is the Left key reversed for every pair |
| BoundTypes.KeyCmpAntisymmetric | src/bound_type.rs:58-69 | swapping the operands reverses each side's comparison |
| BoundTypes.KeyCmpTransitive | src/bound_type.rs:58-69 | each side's key is transitive, strictly so when either step is strict, so it is a total order |
| BoundTypes.Flip | src/bound_type.rs:97-104 | flipping a runtime kind always changes it |
| BoundTypes.FlipMarker | src/bound_type.rs:85-96 | flipping a static marker always changes it |
| BoundTypes.FlipSide | src/bound_type.rs:106-117 | flipping a side always changes it |
| BoundTypes.FlipInvolutive | src/bound_type.rs:85-117 | flip twice is the identity on kinds, markers and sides |
| BoundTypes.IntoGeneral | src/bound_type.rs:72-83 | each marker generalises to the same-named `BoundType` |
| BoundTypes.ExclusiveLessImpliesInclusiveLess | src/bound_type.rs:136-153 | `less` is `s <= t` for Inclusive and `s < t` for Exclusive, so Exclusive-less implies Inclusive-less |
| BoundTypes.FlipLessComplements | src/bound_type.rs:97-153 | the flipped kind's `less` with swapped operands is the negation of the original `less` |
| BoundTypes.MarkersAgreeWithGeneral | src/bound_type.rs:119-145 | a marker equals a `BoundType` exactly when it generalises to it, its `less` is that kind's, and generalising commutes with flipping |
| Bounds.Flip | src/bound.rs:19-27 | `flip` keeps the limit and changes the kind |
| Bounds.FlipMarkerBound | src/bound.rs:19-27 | the same for a bound with a static marker |
| Bounds.IntoGeneral | src/bound.rs:9-17 | `into_general` keeps the limit and generalises the kind to the matching variant |
| Bounds.Cmp | src/bound.rs:3-7 | the derived order: Equal exactly on equal bounds, a smaller limit sorts first whatever the kinds, and at equal limits `Inclusive` sorts before `Exclusive` |
| Bounds.DerivedKindOrderIsLeftKey | src/bound.rs:3-7 | the derived kind order (declaration order) coincides with the Left-side ordering key |
| Bounds.FlipInvolutive | src/bound.rs:19-27 | flipping a bound twice gives it back |
| Bounds.IntoGeneralCommutesWithFlip | src/bound.rs:9-27 | generalising then flipping equals flipping then generalising |
| Half.Cmp | src/half.rs:36-45 | half-bounds order by limit first, then by the side's kind key; Equal exactly on equal half-bounds |
| Half.Contains | src/half.rs:107-109 | `contains` on each side: the kind's `less` from the limit to `t` (Left) or from `t` to the limit (Right); its meaning is given by `Half.LeMeansTighter`, `Half.Flip` and `Half.IncludesExactIffRealSuperset` |
| Half.Includes | src/half.rs:104-106 | `includes` as written compares limits only; `Half.IncludesSameKindIsSuperset` and `Half.IncludesIgnoresKind` give its meaning |
| Half.CmpAntisymmetric | src/half.rs:36-45 | swapping the operands reverses the comparison |
| Half.CmpTransitive | src/half.rs:36-45 | the half-bound order is transitive |
| Half.SameKindOrdersByLimit | src/half.rs:36-45 | between equal kinds only the limits decide the order |
| Half.TieBreakExamples | src/half.rs:36-45 | Left Inclusive 0 < Left Exclusive 0, and Right Inclusive 0 > Right Exclusive 0 |
| Half.PartialMin | src/half.rs:79-85 | the result is one of the arguments and no greater than either; the second wins a tie |
| Half.PartialMax | src/half.rs:86-92 | the result is one of the arguments and no smaller than either; the second wins a tie |
| Half.LeMeansTighter | src/half.rs:36-45 | a greater Left bound holds fewer points, a smaller Right bound holds fewer points |
| Half.LeMeansTighterReal | src/half.rs:36-45 | the same tightening read on the real line |
| Half.OutsideIsBeyond | src/half.rs:107-179 | a real point outside a Left bound lies below every point inside, and outside a Right bound above |
| Half.Intersection | src/half.rs:110-182 | Left takes the max and Right the min; the result is an argument and holds exactly the points both hold, on the integers and on the real line |
| Half.Union | src/half.rs:113-185 | Left takes the min and Right the max; the result is an argument and holds exactly the points either holds, on the integers and on the real line |
| Half.IntersectionCommutes | src/half.rs:79-115 | intersection and union do not depend on the argument order |
| Half.IntersectionIdempotent | src/half.rs:110-185 | a half-bound intersected or united with itself is unchanged |
| Half.Hull | src/half.rs:117-193 | the kind is kept, the limit moves to min (Left) or max (Right) of the limit and `t`, and no point is lost |
| Half.Dilate | src/half.rs:125-204 | the kind is kept; `t` is in the result exactly when `t + delta` (Left) or `t - delta` (Right) was in the original |
| Half.Closure | src/half.rs:140-216 | same limit, Inclusive; the result holds the original points and the limit |
| Half.Interior | src/half.rs:148-154 | same limit, Exclusive; the result holds the original points except the limit |
| Half.Ceil | src/half.rs:156-171 | integer `ceil` of a Left bound is its least member |
| Half.Floor | src/half.rs:218-232 | integer `floor` of a Right bound is its greatest member |
| Half.CeilFloorExamples | src/half.rs:156-232 | ceil of Left Inclusive 4 is 4 and of Exclusive 4 is 5; floor of Right Inclusive 7 is 7 and of Exclusive 7 is 6 |
| Half.Flip | src/half.rs:61-66 | the opposite side, the flipped kind, the same limit; exactly one of `h` and its flip holds each point |
| Half.FlipInvolutive | src/half.rs:61-66 | flipping a half-bound twice gives it back |
| Half.FlipComplementsReal | src/half.rs:61-66 | on the real line too, a flipped half-bound is the complement |
| Half.IncludesSameKindIsSuperset | src/half.rs:104-176 | with equal kinds the limit-only `includes` is exactly the superset relation |
| Half.IncludesIgnoresKind | src/half.rs:104-106 | as written, Left Exclusive 0 `includes` Left Inclusive 0, which holds 0 |
| Half.IncludesExactIsSuperset | src/half.rs:104-176 | the kind-aware inclusion implies the superset relation |
| Half.IncludesExactIffRealSuperset | src/half.rs:104-176 | on the real line the kind-aware inclusion is exactly the superset relation |
| Intervals.FromHalves | src/interval.rs:30-81 | `Some` exactly when each bound holds the other's limit, and then the pair is a valid interval |
| Intervals.IsValidInterval | src/interval.rs:30-37 | each half-bound holds the other's limit; `Intervals.ValidIffNonEmptyOnReals` proves this is non-emptiness on the real line |
| Intervals.Contains | src/interval.rs:214-226 | both half-bounds hold `t`; `Intervals.Items` and `Intervals.Intersection` are stated with it |
| Intervals.TryNew | src/interval.rs:83-106 | `Some` exactly when each bound holds the other's limit (the left kind's `less` and the right kind's `less` both hold from left limit to right limit); a result is valid, keeps both bounds, and holds exactly the points between them by kind |
| Intervals.New | src/interval.rs:134-136 | a valid pair gives a valid interval keeping both bounds |
| Intervals.TryNewExamples | src/interval.rs:83-158 | `[3,0)` and `[3,3)` are empty, `[3,3]` and `(0,1)` are not; `[4,7)` holds 4 and not 7; `try_between(3,-1)` swaps; `[1,1)` is empty and `[1,1]` is not |
| Intervals.ValidIffNonEmptyOnReals | src/interval.rs:30-50 | a pair is valid exactly when some real number lies in both bounds |
| Intervals.NonEmptyIsValid | src/interval.rs:30-37 | a pair with an integer in both bounds is valid |
| Intervals.TryBetween | src/interval.rs:149-158 | `Some` exactly when the scalars differ or both kinds are inclusive; the smaller scalar goes left |
| Intervals.Between | src/interval.rs:175-180 | under `try_between`'s condition, a valid interval over the two scalars in order |
| Intervals.Min | src/interval.rs:191-196 | integer `min` is the least integer of the left bound (its `ceil`), even when the interval holds no integer; no member is smaller |
| Intervals.Max | src/interval.rs:207-212 | integer `max` is the greatest integer of the right bound (its `floor`), even when the interval holds no integer; no member is larger |
| Intervals.MinMaxAreMembers | src/interval.rs:191-212 | `min` and `max` are members exactly when the interval holds an integer |
| Intervals.Items | src/interval.rs:542-569 | iteration yields `min..=max`: consecutive integers, exactly the members |
| Intervals.MinMaxItemsExamples | src/interval.rs:182-212 | `min` of `(4,7]` is 5, `max` of `[4,7)` is 6, and `(0,10]` iterates 1..10, 10 items |
| Intervals.Dilate | src/interval.rs:228-240 | `Some` exactly when the bounds moved out by `delta` (left limit `- delta`, right limit `+ delta`) still hold each other's limits, `None` where the source panics; a result keeps the kinds and shifts membership by `delta` on each side; `delta >= 0` never fails and loses no point |
| Intervals.DilateExamples | src/interval.rs:228-240 | `[4,7)` dilated by 2 is `[2,9)`, by -1 is `[5,6)`, and by -2 fails |
| Intervals.Intersection | src/interval.rs:279-287 | `Some` exactly when `overlaps`; the result is valid and holds exactly the common points, on the integers and on the real line |
| Intervals.Overlaps | src/interval.rs:255-268 | the larger left and the smaller right bound form a valid pair; `Intervals.OverlapsIffCommonRealPoint` proves this is sharing a real point |
| Intervals.Includes | src/interval.rs:242-253 | the limit-only test on both sides; `Intervals.IncludesSameKindsIsExact` and `Intervals.IncludesAsWrittenCounterexample` give its meaning |
| Intervals.IntersectionCommutes | src/interval.rs:264-287 | intersection and `overlaps` do not depend on the argument order |
| Intervals.IntersectionIdempotent | src/interval.rs:270-277 | `a ∩ a == Some(a)` |
| Intervals.IntersectionExamples | src/interval.rs:255-278 | `[0,3) ∩ [1,4) == Some([1,3))`, `[0,3) ∩ [3,5) == None`, with the matching `overlaps` answers |
| Intervals.OverlapsIffCommonRealPoint | src/interval.rs:264-268 | `overlaps` holds exactly when the two intervals share a real point |
| Intervals.CommonPointOverlaps | src/interval.rs:264-268 | intervals sharing an integer overlap |
| Intervals.IncludesExactReflexive | src/interval.rs:247-253 | `includes` is reflexive |
| Intervals.IncludesExactTransitive | src/interval.rs:251-253 | the kind-aware inclusion is transitive |
| Intervals.IncludesExactIsSuperset | src/interval.rs:251-253 | the kind-aware inclusion implies the superset relation on integers |
| Intervals.IncludesExactIffRealSuperset | src/interval.rs:251-253 | on the real line the kind-aware inclusion is exactly the superset relation |
| Intervals.IncludesSameKindsIsExact | src/interval.rs:251-253 | when both intervals have the same kinds, `includes` as written is the kind-aware inclusion |
| Intervals.IncludesAsWrittenCounterexample | src/interval.rs:251-253 | as written, `(0,3)` includes `[0,3]`, though 0 is in `[0,3]` and not in `(0,3)` |
| Intervals.IncludesExamples | src/interval.rs:242-250 | `a ⊇ a`, `[0,4) ⊇ [0,3)` but not the reverse, and `[0,3)`, `[1,4)` include neither way |
| Intervals.Span | src/interval.rs:289-303 | built without a check, the result is valid, each of its bounds is one of the inputs' bounds, it includes both inputs and holds every point of either |
| Intervals.SpanCommutes | src/interval.rs:295-303 | span does not depend on the argument order, and `span(a, a) == a` |
| Intervals.SpanIsLeast | src/interval.rs:289-303 | any interval including both inputs includes their span: the span is the least such interval |
| Intervals.IncludesSpanIffIncludes | src/interval.rs:289-303 | `a` includes `a.span(b)` exactly when `a` includes `b` |
| Intervals.Hull | src/interval.rs:305-319 | built without a check, the result is valid, keeps the kinds, loses no point; its left limit is the smaller of the left limit and `t`, its right limit the larger of the right limit and `t` |
| Intervals.HullOfMember | src/interval.rs:311-319 | hull with a member changes nothing; a closed interval hulled with `t` holds `t`; an exclusive right end stops at `t` without holding it |
| Intervals.SpanHullExamples | src/interval.rs:289-335 | `[0,3)` span `[5,8)` is `[0,8)`; `hull(-2)` is `[-2,3)`, `hull(5)` is `[0,5)`; `gap([0,3),[5,8))` is `[3,5)` |
| Intervals.Gap | src/interval.rs:327-335 | `Some` exactly when `(a.right flipped, b.left flipped)` or `(b.right flipped, a.left flipped)` is valid, and then it is that pair; a gap is valid and holds no point of either input |
| Intervals.GapMeansDisjoint | src/interval.rs:327-335 | when a gap exists the inputs do not overlap |
| Intervals.Union | src/interval.rs:349-359 | `union` pairs a valid span with the gap |
| Intervals.IntoIter | src/interval.rs:10-27 | one piece without a gap, two with one; the pieces start at the span's left bound and end at its right bound |
| Intervals.UnionIntoIterSplitsBack | src/interval.rs:10-27 | with a gap, the pieces, built without a check, are valid and are exactly the two inputs, left one first |
| Intervals.SpanWithoutGapIsUnion | src/interval.rs:295-335 | without a gap the span holds exactly the points of the two inputs |
| Intervals.SpanWithoutGapIsUnionReal | src/interval.rs:295-335 | without a gap the span holds exactly the real points of the two inputs |
| Intervals.UnionIntoIterCoversExactly | src/interval.rs:10-27 | every piece of a union is valid, and the pieces hold exactly the points of the two inputs |
| Intervals.UnionExample | src/interval.rs:337-348 | the union of `[0,3)` and `[5,8)` iterates as `[0,3)`, `[5,8)` |
| Intervals.LowerBound | src/interval.rs:361-366 | the flipped left bound holds exactly what the left bound does not, all below every member |
| Intervals.UpperBound | src/interval.rs:368-373 | the flipped right bound holds exactly what the right bound does not, all above every member |
| Intervals.SpanMany | src/interval.rs:388-397 | `None` exactly on no items; otherwise a valid interval including every item |
| Intervals.FoldSpan | src/interval.rs:394-396 | the left fold of `span` is valid and includes the seed and every folded item |
| Intervals.FoldSpanIsLeast | src/interval.rs:394-396 | any interval including the seed and every folded item includes the fold |
| Intervals.SpanManyIsLeast | src/interval.rs:388-397 | any interval including every item includes `span_many`'s result: it is the least such interval |
| Intervals.SpanManyExample | src/interval.rs:375-387 | `span_many([0,3), [1,5), [8,10))` is `[0,10)` |
| Intervals.HullMany | src/interval.rs:413-428 | `None` exactly on no items or on one repeated value with a non-closed kind; otherwise the limits are the least and greatest items |
| Intervals.HullManyExample | src/interval.rs:398-412 | `hull_many([3, 9, 2, 5])` is `[2, 9]`, and no items give `None` |
| Intervals.Closure | src/interval.rs:484-489 | both ends inclusive at the same limits; always valid; holds exactly the original points plus the two limits, on integers and on reals |
| Intervals.Interior | src/interval.rs:490-492 | both ends exclusive at the same limits; `None` exactly for a single point; a result is valid and holds exactly the original points minus the two limits, on integers and on reals |
| IntervalBox.TryBetween | src/interval_box.rs:73-82 | `Some` exactly when every axis' `try_between` is, and then axis `i` is that axis' result |
| IntervalBox.Contains | src/interval_box.rs:119-121 | every axis holds the matching coordinate; `IntervalBox.IntersectionMembership` is stated with it |
| IntervalBox.Includes | src/interval_box.rs:123-125 | every axis includes the matching axis as written; `IntervalBox.IncludesSameKindsIsSuperset` gives its meaning |
| IntervalBox.Between | src/interval_box.rs:84-89 | under the same condition, axis `i` is the per-axis `between` |
| IntervalBox.TryBetweenHoldsCorners | src/interval_box.rs:73-82 | a closed box between two corners holds both corners |
| IntervalBox.Intersection | src/interval_box.rs:127-133 | `Some` exactly when every axis overlaps, and then axis `i` is the per-axis intersection |
| IntervalBox.IntersectionMembership | src/interval_box.rs:119-133 | a point is in the box intersection exactly when it is in both boxes |
| IntervalBox.NoIntersectionMeansDisjoint | src/interval_box.rs:119-133 | boxes without an intersection share no point |
| IntervalBox.IncludesExactIsSuperset | src/interval_box.rs:119-125 | axis-wise kind-aware inclusion implies that every point of one box is in the other |
| IntervalBox.IncludesSameKindsIsSuperset | src/interval_box.rs:119-125 | with equal kinds on every axis, `includes` as written implies the superset relation |
| IntervalBox.IncludesExactReflexive | src/interval_box.rs:123-125 | box inclusion is reflexive |
| IntervalBox.IncludesExactTransitive | src/interval_box.rs:123-125 | box inclusion is transitive |
| IntervalBox.Span | src/interval_box.rs:135-137 | axis `i` is the per-axis span; the result is valid and includes both boxes |
| IntervalBox.Hull | src/interval_box.rs:144-147 | axis `i` is the per-axis hull with `p[i]`; the result is valid and loses no point |
| IntervalBox.HullContainsPoint | src/interval_box.rs:144-147 | hull with a member point changes nothing; a closed box hulled with `p` holds `p` |
| IntervalBox.SpanMany | src/interval_box.rs:149-153 | `None` exactly on no boxes; otherwise a valid box including every item |
| IntervalBox.FoldSpan | src/interval_box.rs:151-152 | the left fold of box `span` is valid and includes the seed and every folded box |
| IntervalBox.SpanIsLeast | src/interval_box.rs:135-137 | any box including both inputs includes their span |
| IntervalBox.FoldSpanIsLeast | src/interval_box.rs:151-152 | any box including the seed and every folded box includes the fold |
| IntervalBox.SpanManyIsLeast | src/interval_box.rs:149-153 | any box including every item includes `span_many`'s result: it is the least such box |
| CoreInterval.LowerContains | src/core.rs:17-19 | `Lower::contains` is the canonical Left membership |
| CoreInterval.UpperContains | src/core.rs:40-42 | `Upper::contains` is the canonical Right membership |
| CoreInterval.LowerIncludes | src/core.rs:14-16 | comparing values only is exactly the superset relation for same-type lower bounds |
| CoreInterval.UpperIncludes | src/core.rs:37-39 | comparing whole same-type boundaries is exactly the superset relation for upper bounds |
| CoreInterval.LowerIntersection | src/core.rs:22-24 | the max of two lower bounds holds exactly the common points |
| CoreInterval.LowerUnion | src/core.rs:25-27 | the min of two lower bounds holds exactly the points of either |
| CoreInterval.UpperIntersection | src/core.rs:45-47 | the min of two upper bounds holds exactly the common points |
| CoreInterval.UpperUnion | src/core.rs:48-50 | the max of two upper bounds holds exactly the points of either |
| CoreInterval.LowerFlip | src/core.rs:28-30 | `Lower::flip` is an `Upper` of the flipped boundary, holding exactly the points the lower bound does not |
| CoreInterval.UpperFlip | src/core.rs:51-53 | `Upper::flip` is a `Lower` of the flipped boundary, holding exactly the points the upper bound does not |
| CoreInterval.NewPair | src/core.rs:97-101 | `Ok` exactly when each bound holds the other's value, otherwise `IntervalIsEmpty` |
| CoreInterval.New | src/core.rs:102-104 | agrees with the canonical `try_new` |
| CoreInterval.Contains | src/core.rs:125-127 | the conjunction of the two memberships, as the canonical `contains` |
| CoreInterval.Includes | src/core.rs:129-131 | `includes` is the canonical `includes`, equally the kind-aware inclusion, and holds exactly when every real point of the other interval is in this one; it implies the integer superset relation |
| CoreInterval.Intersection | src/core.rs:133-143 | a result is valid and holds exactly the common points |
| CoreInterval.UnionInterval | src/core.rs:145-154 | the covering interval holds every point of both |
| CoreInterval.Union | src/core.rs:156-165 | the subtrahend, tried as `(self.upper, other.lower)` then `(other.upper, self.lower)`, is valid and holds no point of either input |
| CoreInterval.Overlaps | src/core.rs:167-173 | `overlaps` exactly when `intersection` is `Some`, exactly when the canonical `overlaps` holds, exactly when the two intervals share a real point |
| CoreInterval.Measure | src/core.rs:118-123 | `sup - inf` is never negative for a valid interval |
| CoreInterval.LowerRangeBounds | src/core.rs:56-71 | the start bound by kind and no end, holding exactly the lower bound's points |
| CoreInterval.UpperRangeBounds | src/core.rs:72-87 | no start and the end bound by kind, holding exactly the upper bound's points |
| CoreInterval.RangeBoundsAsWritten | src/core.rs:175-182 | always `Included(inf)` and `Excluded(sup)`; right only for `[a, b)` |
| CoreInterval.RangeBounds | src/core.rs:56-87 | each end reported by its kind; the range holds exactly the interval's points |
| CoreInterval.RangeBoundsAsWrittenCounterexample | src/core.rs:175-182 | `[0,3]` holds 3, but its range bounds as written exclude 3 |
| CoreInterval.ContainsExample | src/core.rs:199-207 | `[0,3)` holds 0, 1 and 2, and not 3 or -1 |
| CoreInterval.IntersectionAgrees | src/core.rs:133-173 | `intersection` and `overlaps` agree with the canonical ones |
| CoreInterval.UnionAgrees | src/core.rs:145-165 | `union_interval` is the canonical `span` and the subtrahend is the canonical `gap` |
| Idea1Interval.OppositeIE | src/idea1.rs:32-37 | `Opposite` changes the kind |
| Idea1Interval.OppositeLU | src/idea1.rs:38-43 | `Opposite` changes the side |
| Idea1Interval.OppositeInvolutive | src/idea1.rs:29-43 | `Opposite` and `complement` are involutions |
| Idea1Interval.SetIntersection | src/idea1.rs:51-64 | Lower takes the max and Upper the min of the two values |
| Idea1Interval.SetUnion | src/idea1.rs:54-67 | Lower takes the min and Upper the max of the two values |
| Idea1Interval.SetIncludes | src/idea1.rs:57-70 | `boundary <= t` for Lower and `t <= boundary` for Upper; whenever it holds, the boundary holds every point the other holds |
| Idea1Interval.Contains | src/idea1.rs:76-125 | the four side/kind cases are the canonical half-bound membership |
| Idea1Interval.Includes | src/idea1.rs:126-128 | `includes` implies the superset relation |
| Idea1Interval.IncludesIsSuperset | src/idea1.rs:126-128 | for one boundary type `includes` is exactly the superset relation |
| Idea1Interval.Intersection | src/idea1.rs:129-131 | the per-side intersection holds exactly the common points |
| Idea1Interval.Union | src/idea1.rs:132-134 | the per-side union holds exactly the points of either |
| Idea1Interval.Complement | src/idea1.rs:137-156 | same value, opposite side and kind: the canonical flip, holding exactly the points not held |
| Idea1Interval.New | src/idea1.rs:184-188 | `Some` exactly when each boundary holds the other's value, and then the interval is valid |
| Idea1Interval.IntervalContains | src/idea1.rs:203-205 | the conjunction of the two memberships, as the canonical `contains` |
| Idea1Interval.IntervalIntersection | src/idea1.rs:207-209 | a result is valid and holds exactly the common points |
| Idea1Interval.UnionInterval | src/idea1.rs:211-215 | the covering interval holds every point of both |
| Idea1Interval.IntervalUnion | src/idea1.rs:217-221 | the subtrahend of complements, tried in both orders, is valid and holds no point of either input |
| Idea1Interval.Overlaps | src/idea1.rs:223-225 | `overlaps` exactly when `intersection` is `Some`, exactly when the canonical `overlaps` holds, exactly when the two intervals share a real point |
| Idea1Interval.IntervalIncludes | src/idea1.rs:227-229 | `includes` is the canonical `includes`, equally the kind-aware inclusion, and holds exactly when every real point of the other interval is in this one; it implies the integer superset relation |
| Idea1Interval.Measure | src/idea1.rs:196-201 | `sup - inf` is never negative for a valid interval |
| Idea1Interval.ContainsExample | src/idea1.rs:259-266 | `[0,3)` holds 0, 1 and 2, and not 3 or -1 |
| Idea1Interval.IntersectionAgrees | src/idea1.rs:207-225 | `intersection` and `overlaps` agree with the canonical ones |
| Idea1Interval.UnionAgrees | src/idea1.rs:211-221 | `union_interval` is the canonical `span` and the subtrahend is the canonical `gap` |
| Idea2Interval.Opposite | src/idea2.rs:19-38 | the other wrapper around the same value: the canonical kind flip |
| Idea2Interval.OppositeInvolutive | src/idea2.rs:19-38 | `opposite` is an involution |
| Idea2Interval.LowerContains | src/idea2.rs:79-88 | `inf <= t` for Inclusive and `inf < t` for Exclusive, as the canonical Left membership |
| Idea2Interval.UpperContains | src/idea2.rs:89-98 | `t <= sup` for Inclusive and `t < sup` for Exclusive, as the canonical Right membership |
| Idea2Interval.LowerIntersection | src/idea2.rs:47-49 | the max of two lower bounds holds exactly the common points |
| Idea2Interval.LowerUnion | src/idea2.rs:50-52 | the min of two lower bounds holds exactly the points of either |
| Idea2Interval.UpperIntersection | src/idea2.rs:65-67 | the min of two upper bounds holds exactly the common points |
| Idea2Interval.UpperUnion | src/idea2.rs:68-70 | the max of two upper bounds holds exactly the points of either |
| Idea2Interval.LowerIncludes | src/idea2.rs:44-46 | between same-type bounds, `inf <= other.inf` holds exactly when every point of the other is in this one |
| Idea2Interval.UpperIncludes | src/idea2.rs:62-64 | between same-type bounds, `other <= self` holds exactly when every point of the other is in this one |
| Idea2Interval.LowerComplement | src/idea2.rs:53-55 | an `Upper` of the opposite boundary, holding exactly the points not held |
| Idea2Interval.UpperComplement | src/idea2.rs:71-73 | a `Lower` of the opposite boundary, holding exactly the points not held |
| Idea2Interval.NewInternal | src/idea2.rs:112-115 | `Some` exactly when each bound holds the other's value, and then the interval is valid |
| Idea2Interval.New | src/idea2.rs:116-118 | agrees with the canonical `try_new` |
| Idea2Interval.Contains | src/idea2.rs:139-141 | the conjunction of the two memberships, as the canonical `contains` |
| Idea2Interval.Includes | src/idea2.rs:143-145 | `includes` is the canonical `includes`, equally the kind-aware inclusion, and holds exactly when every real point of the other interval is in this one; it implies the integer superset relation |
| Idea2Interval.Intersection | src/idea2.rs:147-152 | a result is valid and holds exactly the common points |
| Idea2Interval.UnionInterval | src/idea2.rs:154-159 | the covering interval holds every point of both |
| Idea2Interval.Union | src/idea2.rs:161-170 | the subtrahend of opposite bounds, tried in both orders, is valid and holds no point of either input |
| Idea2Interval.Overlaps | src/idea2.rs:172-174 | `overlaps` exactly when `intersection` is `Some`, exactly when the canonical `overlaps` holds, exactly when the two intervals share a real point |
| Idea2Interval.Measure | src/idea2.rs:132-137 | `sup - inf` is never negative for a valid interval |
| Idea2Interval.ContainsExample | src/idea2.rs:195-201 | `[0,3)` holds 0, 1 and 2, and not 3 or -1 |
| Idea2Interval.IntersectionAgrees | src/idea2.rs:147-174 | `intersection` and `overlaps` agree with the canonical ones |
| Idea2Interval.UnionAgrees | src/idea2.rs:154-170 | `union_interval` is the canonical `span` and the subtrahend is the canonical `gap` |
| GeneralInterval.From | src/general.rs:7-11 | a bare value becomes an inclusive bound at that value |
| GeneralInterval.Deref | src/general.rs:12-20 | the value, whatever the kind |
| GeneralInterval.FromDerefRoundTrip | src/general.rs:7-20 | `deref(from(t)) == t`, and `from(deref(b)) == b` exactly for inclusive `b` |
| GeneralInterval.New | src/general.rs:27-33 | under the asserted condition the pair is a valid interval |
| GeneralInterval.NewConditionAgrees | src/general.rs:27-33 | the assertion (`a <= b` for two inclusive ends, `a < b` otherwise) is exactly the canonical validity check |
| GeneralInterval.Contains | src/general.rs:40-47 | the four kind combinations are the canonical interval membership |
| BoundingKinds.SideCmp | src/bounding.rs:58-69 | Left: Inclusive < Exclusive; Right: Exclusive < Inclusive; the canonical ordering key |
| BoundingKinds.MarkerSideCmp | src/bounding.rs:54-57 | static-marker keys always compare Equal, matching the runtime key of the generalised marker |
| BoundingKinds.SideCmpReverses | src/bounding.rs:58-69 | the Right order is the Left order reversed; swapping operands reverses it; Equal exactly on equal kinds |
| BoundingKinds.IntoGeneral | src/bounding.rs:72-83 | each marker maps to the same-named `Bounding` |
| BoundingKinds.Flip | src/bounding.rs:97-105 | `flip` changes the kind, as the canonical flip |
| BoundingKinds.FlipMarker | src/bounding.rs:85-96 | flipping a marker is flipping its generalised kind |
| BoundingKinds.FlipSide | src/bounding.rs:106-117 | flipping a side changes it |
| BoundingKinds.FlipInvolutive | src/bounding.rs:85-117 | flip is an involution on kinds, markers and sides |
| BoundingKinds.Less | src/bounding.rs:129-136 | `less` is the canonical `less`: `<=` for Inclusive, `<` for Exclusive |
| BoundingKinds.MarkerLess | src/bounding.rs:119-128 | a marker's `less` is that of its generalised kind |
| InclusionKinds.Flip | src/inclusion.rs:37-44 | `flip` changes the kind, as the canonical flip |
| InclusionKinds.FlipMarker | src/inclusion.rs:19-36 | Inclusive flips to Exclusive and back, as the enum does |
| InclusionKinds.FlipInvolutive | src/inclusion.rs:19-44 | flip is an involution on the enum and on the markers |
| InclusionKinds.Less | src/inclusion.rs:45-50 | `less` is the canonical `less` |
| InclusionKinds.MarkerLess | src/inclusion.rs:24-35 | a marker's `less` is that of the matching enum variant |
| InclusionKinds.LessRelations | src/inclusion.rs:24-50 | Exclusive-less implies Inclusive-less; the flipped kind with swapped operands is the negation |
| BoundaryKinds.Flip | src/boundary.rs:27-34 | `flip` changes the kind, as the canonical flip |
| BoundaryKinds.FlipMarker | src/boundary.rs:9-26 | Inclusive flips to Exclusive and back, as the enum does |
| BoundaryKinds.FlipInvolutive | src/boundary.rs:9-34 | flip is an involution on the enum and on the markers |
| BoundaryKinds.Less | src/boundary.rs:35-40 | `less` is the canonical `less` |
| BoundaryKinds.MarkerLess | src/boundary.rs:14-25 | a marker's `less` is that of the matching enum variant |
| BoundaryKinds.LessRelations | src/boundary.rs:14-40 | Exclusive-less implies Inclusive-less; the flipped kind with swapped operands is the negation |
| BoundaryKinds.Cmp | src/boundary.rs:3 | the order the trait asks for (the enum's declaration order) is the canonical Left-side key |

## Left out

- Floating point: `inf`, `sup`, `measure`, `center` and `iou` (`src/interval.rs:442-512`) and the box `center`/`size`/`measure` (`src/interval_box.rs:156-168`). The model's scalar is an integer.
- `NotNan` and the other `ordered_float` conversions (`src/converters.rs`, `src/std_range.rs`). They belong to a foreign crate.
- `src/kd.rs`, `src/ndim.rs`, `src/nullable.rs`, `src/std_range.rs`, `src/impl_range_bounds.rs`, `src/traits.rs`, `src/lib.rs`, `src/pow.rs`: array views, an `Option` newtype that only calls `span_many`/`hull_many`, `RangeBounds`/`TryFrom` adapters, trait declarations, and a stale copy of the box layer.
- `cast`/`try_cast` (`src/half.rs:68-77`): numeric conversions between scalar types.
- `IntoGeneral` for `HalfBounded` and `Interval` (`src/half.rs:54-59`, `src/interval.rs:514-522`): kinds are already run-time values here, so generalising changes nothing.
- The box accessors and constructors `from`, `new`, `left`, `right`, `inf`, `sup`, `closure` and `interior` (`src/interval_box.rs:10-117`): they copy per-axis values with no logic of their own.
- Side and kind type parameters, `PhantomData` and `Deref`/`DerefMut`: the model keeps side and kind as fields.
- `Minimum`/`Maximum` and `Ceil`/`Floor` for `Bound` are only declared as traits (`src/traits.rs`); the library's integer impls are not modelled. The model takes integer `ceil`/`floor` as the least and greatest integer member, as the doc tests at `src/half.rs:156-171` and `src/half.rs:218-232` expect, and builds `min`/`max`/iteration on them.
- `CoreInterval`: `val`, `less_eq` and `greater_eq` are called at `src/core.rs:10-20` and `src/core.rs:33-43`, but the `Boundary` trait of `src/boundary.rs` declares none of them. The model takes them as the value and the kind's `less`, which is what the file's test at `src/core.rs:199-207` expects.
- Intervals.Closure: the source declares `closure` and `interior` only for floating-point scalars; their bodies use no arithmetic, so the model states them on integers.
- Panics: `Intervals.New`, `Intervals.Between`, `IntervalBox.Between` and `GeneralInterval.New` require the condition the source checks. `Intervals.Dilate` returns `None` where the source panics.
- Intervals.Dilate: the scalar is an unbounded integer, so the overflow of a fixed-width `T` in `limit - delta` and `limit + delta` is not modelled.
- Half.Dilate: the same unbounded scalar, so the overflow of `limit - delta` and `limit + delta` (`src/half.rs:125-134`, `src/half.rs:195-204`) is not modelled.
- CoreInterval.Measure: `sup - inf` (`src/core.rs:118-123`) is computed on unbounded integers, so the overflow of a fixed-width `T` (say `(-128, 127]` over `i8`) is not modelled, and `r >= 0` holds only for the unbounded reading.
- Idea1Interval.Measure: the same unbounded `sup - inf` (`src/idea1.rs:196-201`); overflow is not modelled.
- Idea2Interval.Measure: the same unbounded `sup - inf` (`src/idea2.rs:132-137`); overflow is not modelled.
- Intervals.HullMany: it takes a sequence rather than a one-shot iterator.
- Intervals.SpanMany: the iterator fold is a recursive function over a sequence.
- IntervalBox.TryBetween: the temporary array filled and emptied with `take()` is a comprehension over the axes.

## Findings

| source | as written | input that shows it | evidently intended | confidence | as-written member | corrected member |
|---|---|---|---|---|---|---|
| src/interval.rs:251-253 | `includes` compares limits only (via `src/half.rs:104-106` and `src/half.rs:174-176`), ignoring run-time kinds | `(0,3).includes([0,3])` is true, yet 0 is in `[0,3]` and not in `(0,3)` | an interval includes another when it holds every point of it (kind-aware order) | medium, not executed | Intervals.IncludesAsWrittenCounterexample | Intervals.IncludesExactIffRealSuperset |
| src/core.rs:175-182 | `RangeBounds` for `Interval` always reports `Included(inf)` and `Excluded(sup)` | `[0,3]` holds 3, but its range bounds exclude 3 | report each end by its kind, as the `Lower`/`Upper` impls at src/core.rs:56-87 do | medium, not executed | CoreInterval.RangeBoundsAsWrittenCounterexample | CoreInterval.RangeBounds |
