# phetcommon core, modelled in Dafny

This project models the parts of PhET's `phetcommon` library that compute something. It states what each of them does and proves it.

- **`SphereBucket`** (`SphereBucket.dfy`, `SphereLattice.dfy`). A bucket keeps an ordered list of same-radius spheres ("particles") stacked in a narrowing triangular lattice.
  - A new particle goes either to the first open slot in scan order or to the nearest supported open slot.
  - A particle that the user grabs leaves the bucket through a listener on its user-controlled flag.
  - After a removal, dangling particles fall until none dangles.
  - The bucket is a class: a `seq` of particle identities, plus a map from identity to the particle state the bucket reads and writes (position, destination, user-controlled flag, removal listener linked or not).
  - The lattice geometry, the support relation and the two search orders are functions on values in module `SphereLattice`.
  - Every search method is proved against those functions.
- **`Fraction`** (`Fractions.dfy`, from `Fraction.ts`). Exact rational arithmetic on an integer numerator and denominator.
  - The mutating operations change the object in place and return it; the others return fresh objects.
  - Every result is related to the exact value `numerator / denominator`, a real.
  - gcd, lcm and decimal text are in `IntMath.dfy`.
- **The legacy `Fraction`** (`LegacyFractions.dfy`, from `Fraction.js`). It reuses the reduction of `Fractions`.
- **`ModelViewTransform2`** (`ModelViewTransforms.dfy`). An aligned affine model-to-view transform, represented by its four coefficients.
  - Per-axis conversions and their inverses.
  - The two rectangle mutators and the factories.
- **`ModelViewTransform2D`** (`ModelViewTransform2D.dfy`). The older transform: a scale and an offset applied to numbers and vectors. Any other argument raises an error.
- **`StringUtils`** (`StringUtils.dfy`). The single-digit placeholder formatter and the LTR/RTL embedding wrappers.
- **Query parameters** (`QueryParameters.dfy`). The table built from the URL's search string, and its lookup.

Shared value types (`Vector2`, `Dimension2`, `Bounds2`) are in `Geometry.dfy`; `Option` and `Result` are in `Wrappers.dfy`.

Coordinates are exact reals. Distances are compared as squares, which orders non-negative lengths the same way (`Geometry.SquareMonotone`). JavaScript numbers used as integers are unbounded `int`s.

## Model

| member | source | states |
|---|---|---|
| SphereBuckets.DefaultLayout | js/model/SphereBucket.ts:31-46 | with no options (radius 10, width 200, whole width usable) the layout is valid, has nine bottom slots, and its bottom row lies 4 below the opening |
| SphereBuckets.ZeroOffsetFallsBack | js/model/SphereBucket.ts:46 | a vertical offset option of 0 counts as absent: the offset becomes -0.4 radius |
| SphereBuckets.Without | js/model/SphereBucket.ts:107 | an id is in the result exactly when it is in the list and is not the dropped one |
| SphereBuckets.WithoutRemovesOne | js/model/SphereBucket.ts:107 | in a list without repeats, dropping the k-th id removes just that entry and keeps the rest in order |
| SphereBuckets.WithoutAbsent | js/model/SphereBucket.ts:107 | dropping an id that is not listed changes nothing |
| SphereBuckets.AppendThenWithout | js/model/SphereBucket.ts:84-107 | pushing a new id and then dropping it gives back the original list |
| SphereBuckets.WithoutKeepsDistinct | js/model/SphereBucket.ts:107 | dropping an id keeps the list free of repeats |
| SphereBuckets.SphereBucket.constructor | js/model/SphereBucket.ts:29-50 | the layout is the one the options give, and the bucket starts with no members and no particles |
| SphereBuckets.SphereBucket.ContainsParticle | js/model/SphereBucket.ts:126-128 | true exactly when some index of the member list holds the particle |
| SphereBuckets.SphereBucket.ParticleList | js/model/SphereBucket.ts:158 | the members, entry by entry, in order |
| SphereBuckets.SphereBucket.IsPositionOpen | js/model/SphereBucket.ts:181-191 | open exactly when no member's destination equals the point |
| SphereBuckets.SphereBucket.GetFirstOpenPosition | js/model/SphereBucket.ts:198-238 | the result is the centre of the first slot in scan order (layer by layer upward, left to right) that no member is heading for; the loop terminates |
| SphereBuckets.SphereBucket.CountSupportingParticles | js/model/SphereBucket.ts:348-360 | the number of members whose destination is strictly lower than the point and nearer than 3 radii |
| SphereBuckets.SphereBucket.IsDangling | js/model/SphereBucket.ts:337-340 | dangling exactly when the destination is off the bottom row and has fewer than two supporters |
| SphereBuckets.SphereBucket.HighestOccupiedLayer | js/model/SphereBucket.ts:259-265 | the highest layer any member's destination is nearest to, or 0 (bounds in SphereLattice.HighestLayerBounds) |
| SphereBuckets.SphereBucket.CollectOpenPositions | js/model/SphereBucket.ts:268-303 | the centres of the candidate slots of layers 0 through the given layer plus one, in scan order |
| SphereBuckets.SphereBucket.LayerOpenPositions | js/model/SphereBucket.ts:277-289 | the centres of one layer's candidate slots, left to right |
| SphereBuckets.SphereBucket.ClosestOpenPosition | js/model/SphereBucket.ts:309-316 | the origin for an empty list; otherwise a nearest point such that every earlier point is strictly farther |
| SphereBuckets.SphereBucket.SearchedOpenPositions | js/model/SphereBucket.ts:259-303 | the centres of every candidate slot up to one layer above the highest occupied layer, in scan order |
| SphereBuckets.SphereBucket.GetNearestOpenPosition | js/model/SphereBucket.ts:257-318 | the origin when no slot is searched; otherwise the first nearest of the searched slots (what those are: SphereLattice.NearestCandidateMeaning and NearestCandidatesComplete) |
| SphereBuckets.SphereBucket.FindClosestParticle | js/model/SphereBucket.ts:137-143 | none exactly when the bucket is empty; otherwise the member whose current position is first nearest to the point |
| SphereBuckets.SphereBucket.AddParticle | js/model/SphereBucket.ts:80-95 | the particle is appended last; its position becomes its destination unless animated; its removal listener is linked; every other particle is unchanged |
| SphereBuckets.SphereBucket.AddParticleFirstOpen | js/model/SphereBucket.ts:58-61 | as AddParticle, with the destination set to the first open slot of the old members |
| SphereBuckets.SphereBucket.AddParticleNearestOpen | js/model/SphereBucket.ts:69-72 | as AddParticle, with the destination set to the searched slot nearest to the old destination, or the origin when none is searched |
| SphereBuckets.SphereBucket.RelayoutBucketParticles | js/model/SphereBucket.ts:366-379 | membership, order, positions, flags and the states of non-members are unchanged; a run that settles leaves no member dangling |
| SphereBuckets.SphereBucket.RemoveParticle | js/model/SphereBucket.ts:103-119 | the particle is no longer a member; the others keep their order; its listener is unlinked; the others change at most their destinations and non-members not at all; with skipLayout no state changes, otherwise a settled run leaves nothing dangling |
| SphereBuckets.SphereBucket.SetUserControlled | js/model/SphereBucket.ts:87-94 | a change of the flag on a member removes it as RemoveParticle does: the others change at most their destinations, non-members not at all, and a settled run leaves nothing dangling; otherwise only the flag changes |
| SphereBuckets.SphereBucket.ExtractClosestParticle | js/model/SphereBucket.ts:136-151 | none exactly when the bucket was empty; otherwise the member first nearest by current position, now user-controlled; if the flag was not already set it is no longer a member, its listener is unlinked, the others change at most their destinations, non-members not at all, and a settled run leaves nothing dangling; if it was already set nothing changes |
| SphereBuckets.SphereBucket.Reset | js/model/SphereBucket.ts:163-173 | the member list is empty; every listener is unlinked; nothing else about any particle changes |
| SphereLattice.RoundSymmetric | js/model/SphereBucket.ts:247 | the nearest integer, with halves rounded away from zero |
| SphereLattice.Layout.SlotCount | js/model/SphereBucket.ts:219-234 | every layer has at least one slot |
| SphereLattice.LayerSize | js/model/SphereBucket.ts:219-234 | one slot fewer per layer above the bottom, and never fewer than one |
| SphereLattice.Layout.SlotPosition | js/model/SphereBucket.ts:207-210 | a slot's centre lies at its layer's height |
| SphereLattice.SupportCount | js/model/SphereBucket.ts:348-360 | the count of supporters is at most the number of members |
| SphereLattice.SupportCountExtremes | js/model/SphereBucket.ts:348-360 | the count is 0 exactly when no member supports the point, and full exactly when every member does |
| SphereLattice.FirstNearestUnique | js/model/SphereBucket.ts:309-316 | the first nearest point of a list is unique, so the strict-less scan has one answer |
| SphereLattice.YForLayerLinear | js/model/SphereBucket.ts:326-328 | a layer's height is the bottom row's plus the layer times 2 × 0.866 radii |
| SphereLattice.LayerOfLayerHeight | js/model/SphereBucket.ts:246-248 | the layer of every layer's own height is that layer |
| SphereLattice.LayersRise | js/model/SphereBucket.ts:326-328 | higher layers lie strictly higher |
| SphereLattice.LayerAbove | js/model/SphereBucket.ts:206-236 | some layer lies strictly above any height |
| SphereLattice.FreeLayer | js/model/SphereBucket.ts:206-236 | some layer lies above every destination, so the first-open search ends before it |
| SphereLattice.LayerStart | js/model/SphereBucket.ts:200-202 | the searches start with the bottom layer's slot count and edge offset |
| SphereLattice.LayerStep | js/model/SphereBucket.ts:219-234 | the next layer has one slot fewer and its offset is one radius further in, except that a count reaching 0 becomes 1 and the offset steps back |
| SphereLattice.EdgeOffsetClosedForm | js/model/SphereBucket.ts:219-234 | a layer's edge offset is the bottom's plus one radius per layer, up to the first single-slot layer |
| SphereLattice.SlotsDistinct | js/model/SphereBucket.ts:207-210 | distinct slots have distinct centres |
| SphereLattice.ScanAdvance | js/model/SphereBucket.ts:206-236 | after a failed probe every slot before the next probe is occupied |
| SphereLattice.FirstOpenUnique | js/model/SphereBucket.ts:198-238 | there is only one first open slot |
| SphereLattice.FirstOpenOfEmpty | js/model/SphereBucket.ts:198-238 | in an empty bucket the first open slot is the bottom layer's leftmost |
| SphereLattice.HighestLayerBounds | js/model/SphereBucket.ts:259-265 | the highest layer bounds every destination's layer and is 0 or the layer of some destination |
| SphereLattice.LayerPicksMembers | js/model/SphereBucket.ts:277-289 | a slot is listed for a layer exactly when it is in that layer, within the count, and a candidate |
| SphereLattice.PicksBelowMembers | js/model/SphereBucket.ts:274-303 | a slot is listed exactly when it is a valid slot of a searched layer and a candidate |
| SphereLattice.LayerPicksOrdered | js/model/SphereBucket.ts:277-289 | one layer's slots are listed left to right |
| SphereLattice.PicksBelowOrdered | js/model/SphereBucket.ts:274-303 | the listed slots are in scan order and on the searched layers |
| SphereLattice.PickedAt | js/model/SphereBucket.ts:274-303 | the k-th listed slot is a candidate of a searched layer, after every slot listed before it |
| SphereLattice.NearestCandidateMeaning | js/model/SphereBucket.ts:268-303 | each searched slot is open, within one layer above the highest occupied, on layer 0 or with exactly two supporters, and in scan order |
| SphereLattice.NearestCandidatesComplete | js/model/SphereBucket.ts:268-303 | every such candidate slot is searched |
| SphereLattice.EmptyBucketCandidates | js/model/SphereBucket.ts:268-318 | in an empty bucket the first searched slot is the bottom layer's leftmost |
| Geometry.SquareMonotone | js/model/SphereBucket.ts:312 | comparing non-negative distances is comparing their squares |
| Fractions.Fraction.constructor | js/model/Fraction.ts:33-40 | both parts are stored unchanged |
| Fractions.Fraction.IsInteger | js/model/Fraction.ts:81-83 | true exactly when the denominator is nonzero and the value is a whole number |
| Fractions.IntegerRatio | js/model/Fraction.ts:81-83 | the remainder test agrees with the value being whole |
| Fractions.Fraction.ToString | js/model/Fraction.ts:85-87 | the numerator's decimal text, a slash, the denominator's; the text determines both parts (IntMath.RatioStringInjective) |
| Fractions.Fraction.Copy | js/model/Fraction.ts:89-91 | a fresh fraction with the same parts |
| Fractions.Reduced | js/model/Fraction.ts:96-101 | a gcd of 0 gives 0/0; otherwise the parts times the gcd give the old parts, their gcd is 1, and a nonzero denominator keeps its sign and the value |
| Fractions.Fraction.Reduce | js/model/Fraction.ts:96-101 | the fraction becomes the reduction of its old parts and the method returns it |
| Fractions.Fraction.ReducedCopy | js/model/Fraction.ts:106-108 | a fresh reduced fraction; the receiver is unchanged |
| Fractions.Fraction.IsReduced | js/model/Fraction.ts:113-115 | true exactly when no factor above 1 divides both parts |
| Fractions.Fraction.Equals | js/model/Fraction.ts:120-122 | the same numerator and the same denominator, which implies the same value |
| Fractions.Fraction.Sign | js/model/Fraction.ts:138-140 | for a nonzero denominator -1, 0 or 1 exactly as the value is negative, zero or positive |
| Fractions.SignOfRatio | js/model/Fraction.ts:138-140 | the sign of a ratio is the product of the signs of its parts |
| Fractions.LessThan | js/model/Fraction.ts:127-133 | the sign test of the difference is true exactly when the first value is smaller |
| Fractions.DifferenceSign | js/model/Fraction.ts:127-133 | the lcm-based difference is negative exactly when the first value is smaller |
| Fractions.LessThanStrict | js/model/Fraction.ts:127-133 | the order is irreflexive and asymmetric; -2/2 and 2/-2 compare neither way |
| Fractions.Fraction.IsLessThan | js/model/Fraction.ts:127-133 | true exactly when this value is smaller; only the scratch fraction changes |
| Fractions.Fraction.Abs | js/model/Fraction.ts:145-147 | a fresh fraction of the absolute parts, whose value is the absolute value |
| Fractions.AbsRatio | js/model/Fraction.ts:145-147 | the ratio of the absolute parts is the absolute ratio |
| Fractions.Fraction.Set | js/model/Fraction.ts:152-156 | this fraction takes the parts of the argument, which is left unchanged |
| Fractions.SumNumerator | js/model/Fraction.ts:168-170 | over the lcm of the denominators this numerator gives the exact sum of the two values |
| Fractions.ScaledTerm | js/model/Fraction.ts:169-170 | scaling a numerator to a multiple of its denominator is exact and keeps its value |
| Fractions.Fraction.SetToSum | js/model/Fraction.ts:162-173 | denominator the lcm, numerator the scaled sum, and value the exact sum |
| Fractions.Fraction.Add | js/model/Fraction.ts:179-181 | in place: the exact sum over the lcm, unreduced; an argument other than this is unchanged |
| Fractions.Fraction.Plus | js/model/Fraction.ts:187-189 | a fresh fraction holding the sum as Add gives it |
| Fractions.Fraction.Subtract | js/model/Fraction.ts:195-197 | in place: the exact difference over the lcm, unreduced; an argument other than this is unchanged |
| Fractions.Fraction.Minus | js/model/Fraction.ts:203-205 | a fresh fraction holding the difference as Subtract gives it |
| Fractions.Fraction.Multiply | js/model/Fraction.ts:211-215 | both parts multiplied componentwise, so the value is the product |
| Fractions.ProductRatio | js/model/Fraction.ts:211-215 | the componentwise product has the product value |
| Fractions.Fraction.Times | js/model/Fraction.ts:221-223 | a fresh fraction holding the product |
| Fractions.Fraction.Divide | js/model/Fraction.ts:229-233 | as written: cross-multiplied, but when the argument is this fraction the denominator takes the already-changed numerator |
| Fractions.Fraction.DivideInPlace | js/model/Fraction.ts:229-233 | cross-multiplied with the argument's old parts, so the value is the quotient even for this fraction itself |
| Fractions.QuotientRatio | js/model/Fraction.ts:229-233 | the cross product has the quotient value |
| Fractions.Fraction.Divided | js/model/Fraction.ts:239-241 | a fresh fraction holding the quotient |
| Fractions.Fraction.PlusInteger | js/model/Fraction.ts:248-251 | same denominator, value raised by the integer |
| Fractions.ShiftRatio | js/model/Fraction.ts:248-261 | adding k times the denominator adds k to the value |
| Fractions.Fraction.MinusInteger | js/model/Fraction.ts:258-261 | same denominator, value lowered by the integer |
| Fractions.Fraction.TimesInteger | js/model/Fraction.ts:268-271 | same denominator, value multiplied by the integer |
| Fractions.Fraction.DividedInteger | js/model/Fraction.ts:279-282 | only the denominator changes; dividing by 0 gives denominator 0; otherwise the value is the quotient |
| Fractions.Fraction.FromInteger | js/model/Fraction.ts:287-290 | the fraction value/1, an integer of that value |
| Fractions.Fraction.ToStateObject | js/model/Fraction.ts:319-324 | both parts as stored |
| Fractions.Fraction.FromStateObject | js/model/Fraction.ts:329-331 | a fresh fraction whose state object is the given one, so it inverts ToStateObject |
| Fractions.DivideBySelfAsWritten | js/model/Fraction.ts:229-233 | dividing 2/3 by itself as written gives 6/18, whose value is not 1 |
| Fractions.DivideBySelfIntended | js/model/Fraction.ts:229-233 | the corrected division of 2/3 by itself gives 6/6, value 1 |
| IntMath.Gcd | js/model/Fraction.ts:97 | a non-negative common divisor of both arguments, 0 only for 0 and 0 |
| IntMath.GcdGreatest | js/model/Fraction.ts:97 | every nonzero common divisor divides the gcd |
| IntMath.GcdOneIffCoprime | js/model/Fraction.ts:114 | the gcd is 1 exactly when no factor above 1 divides both |
| IntMath.DivideByGcdIsCoprime | js/model/Fraction.ts:97-99 | both parts divided by their gcd have gcd 1 |
| IntMath.LcmIsCommonMultiple | js/model/Fraction.ts:168 | for nonzero arguments the lcm is positive and a multiple of both |
| IntMath.LcmFactor | js/model/Fraction.ts:168 | the lcm is a times b divided by the gcd, in absolute value |
| IntMath.LcmSymmetric | js/model/Fraction.ts:168 | the lcm does not depend on the argument order |
| IntMath.IntToString | js/model/Fraction.ts:86 | decimal digits, with a leading minus sign for negative numbers |
| IntMath.ParseIntToString | js/model/Fraction.ts:86 | reading the text back gives the number |
| IntMath.IntToStringInjective | js/model/Fraction.ts:86 | distinct numbers have distinct texts |
| IntMath.RatioString | js/model/Fraction.ts:86 | the first slash separates the numerator's text from the denominator's |
| IntMath.RatioStringParses | js/model/Fraction.ts:86 | both sides of the slash read back as the two parts |
| IntMath.RatioStringInjective | js/model/Fraction.ts:86 | two fraction texts are equal exactly when both parts are |
| LegacyFractions.Fraction.constructor | js/model/Fraction.js:26-30 | both parts are stored unchanged |
| LegacyFractions.Fraction.IsInteger | js/model/Fraction.js:39-41 | true exactly when the denominator is nonzero and the quotient is a whole number, that is, the denominator divides the numerator |
| LegacyFractions.Fraction.ToString | js/model/Fraction.js:43-45 | the numerator's text, a slash, the denominator's |
| LegacyFractions.Fraction.Reduce | js/model/Fraction.js:47-51 | in place, the reduction of Fraction.ts's reduce; a nonzero denominator keeps the value, and a nonzero gcd leaves the parts coprime |
| LegacyFractions.Fraction.Equals | js/model/Fraction.js:53-55 | the same parts exactly when the texts are the same |
| LegacyFractions.Fraction.Create | js/model/Fraction.js:60-62 | a fresh fraction with the given parts, as the constructor makes |
| ModelViewTransforms.Inverse | js/view/ModelViewTransform2.ts:84-92 | no inverse exactly when a scale is 0; otherwise it undoes the matrix on each axis in both orders |
| ModelViewTransforms.OffsetXYScaleMatrix | js/view/ModelViewTransform2.ts:193-195 | view x is model x times xScale plus offset x, and likewise for y |
| ModelViewTransforms.OffsetScaleMatrix | js/view/ModelViewTransform2.ts:180-182 | the XY mapping with one scale for both axes |
| ModelViewTransforms.SinglePointXYScaleMatrix | js/view/ModelViewTransform2.ts:206-214 | the given scales, with the model point sent exactly to the view point |
| ModelViewTransforms.SinglePointScaleMatrix | js/view/ModelViewTransform2.ts:224-227 | the single-point mapping with equal scales |
| ModelViewTransforms.SinglePointScaleInvertedYMatrix | js/view/ModelViewTransform2.ts:239-242 | y scale is the negated scale, the point still maps exactly, and for a positive scale higher model y is lower view y |
| ModelViewTransforms.RectangleMatrix | js/view/ModelViewTransform2.ts:139-146 | a point a fraction t across the model rectangle goes the same fraction across the view rectangle; min corner to min corner, max to max |
| ModelViewTransforms.RectangleInvertedYMatrix | js/view/ModelViewTransform2.ts:151-160 | x as in RectangleMatrix; model maxY goes to view minY and model minY to view maxY |
| ModelViewTransforms.ScaledInterval | js/view/ModelViewTransform2.ts:140-143 | the computed scale and offset carry one interval onto the other |
| ModelViewTransforms.FlippedInterval | js/view/ModelViewTransform2.ts:154-157 | the flipped scale and offset carry the model interval onto the view interval upside down |
| ModelViewTransforms.InverseAffine | js/view/ModelViewTransform2.ts:84-92 | the inverse coefficients undo an axis map |
| ModelViewTransforms.AffineInverse | js/view/ModelViewTransform2.ts:84-92 | the axis map undoes the inverse coefficients |
| ModelViewTransforms.ModelViewTransform2.constructor | js/view/ModelViewTransform2.ts:22 | the transform holds the given aligned matrix |
| ModelViewTransforms.ModelViewTransform2.ModelToViewX | js/view/ModelViewTransform2.ts:36-38 | the matrix's x map, independent of y |
| ModelViewTransforms.ModelViewTransform2.ModelToViewY | js/view/ModelViewTransform2.ts:40-42 | the matrix's y map, independent of x |
| ModelViewTransforms.ModelViewTransform2.ModelToViewXY | js/view/ModelViewTransform2.ts:32-34 | each coordinate mapped on its own axis |
| ModelViewTransforms.ModelViewTransform2.ViewToModelX | js/view/ModelViewTransform2.ts:84-87 | fails exactly when the matrix is singular; otherwise the unique model x that maps to the view x |
| ModelViewTransforms.ModelViewTransform2.ViewToModelY | js/view/ModelViewTransform2.ts:89-92 | fails exactly when the matrix is singular; otherwise the unique model y that maps to the view y |
| ModelViewTransforms.ModelViewTransform2.ViewToModelXY | js/view/ModelViewTransform2.ts:80-82 | fails exactly when singular; otherwise a point that maps back to the given view point |
| ModelViewTransforms.ModelViewTransform2.SetToRectangleMapping | js/view/ModelViewTransform2.ts:139-146 | the matrix becomes the rectangle mapping and the method returns this transform |
| ModelViewTransforms.ModelViewTransform2.SetToRectangleInvertedYMapping | js/view/ModelViewTransform2.ts:151-160 | the matrix becomes the inverted-y rectangle mapping and the method returns this transform |
| ModelViewTransforms.ModelViewTransform2.CreateIdentity | js/view/ModelViewTransform2.ts:169-171 | every point maps to itself |
| ModelViewTransforms.ModelViewTransform2.CreateOffsetScaleMapping | js/view/ModelViewTransform2.ts:180-182 | a fresh transform with the offset-scale matrix |
| ModelViewTransforms.ModelViewTransform2.CreateOffsetXYScaleMapping | js/view/ModelViewTransform2.ts:193-195 | a fresh transform with the offset-XY-scale matrix |
| ModelViewTransforms.ModelViewTransform2.CreateSinglePointXYScaleMapping | js/view/ModelViewTransform2.ts:206-214 | a fresh transform that maps the model point to the view point |
| ModelViewTransforms.ModelViewTransform2.CreateSinglePointScaleMapping | js/view/ModelViewTransform2.ts:224-227 | the same, with one scale |
| ModelViewTransforms.ModelViewTransform2.CreateSinglePointScaleInvertedYMapping | js/view/ModelViewTransform2.ts:239-242 | the same, with y scaled by the negated scale |
| ModelViewTransforms.ModelViewTransform2.CreateRectangleMapping | js/view/ModelViewTransform2.ts:253-255 | a fresh transform with the rectangle mapping |
| ModelViewTransforms.ModelViewTransform2.CreateRectangleInvertedYMapping | js/view/ModelViewTransform2.ts:267-269 | a fresh transform with the inverted-y rectangle mapping |
| ModelViewTransforms.AxesIndependent | js/view/ModelViewTransform2.ts:6-8 | view x does not depend on model y, nor view y on model x |
| ModelViewTransforms.ViewModelRoundTrip | js/view/ModelViewTransform2.ts:84-92 | for an invertible matrix, mapping a point to the view and back gives the point |
| ModelViewTransform2D.ModelViewTransform2D.ModelToView | js/view/ModelViewTransform2D.js:25-35 | fails exactly for an unsupported argument, with the message naming its type; a number gives a number and a vector a vector |
| ModelViewTransform2D.ModelViewTransform2D.ViewToModel | js/view/ModelViewTransform2D.js:42-52 | the same error behaviour; kinds are preserved |
| ModelViewTransform2D.ModelViewRoundTrip | js/view/ModelViewTransform2D.js:25-52 | for a nonzero scale, view to model undoes model to view on numbers and vectors |
| ModelViewTransform2D.ViewModelRoundTrip | js/view/ModelViewTransform2D.js:25-52 | for a nonzero scale, model to view undoes view to model |
| ModelViewTransform2D.NumberIgnoresOffset | js/view/ModelViewTransform2D.js:26-28 | a number is only scaled, whatever the offset, in both directions |
| ModelViewTransform2D.NegatedOffsetAtOrigin | js/view/ModelViewTransform2D.js:30 | the model point at minus the offset maps to the view origin |
| StringUtils.Format | js/util/StringUtils.js:27-30 | a pattern with no placeholder comes back unchanged |
| StringUtils.FormatAppend | js/util/StringUtils.js:29 | formatting distributes over a join that splits no placeholder, so every placeholder is replaced wherever it is |
| StringUtils.PlaceholderInPrefix | js/util/StringUtils.js:29 | a placeholder inside a prefix is seen the same in the whole string |
| StringUtils.PlaceholderInSuffix | js/util/StringUtils.js:29 | dropping k characters shifts every placeholder k places |
| StringUtils.FormatPlaceholder | js/util/StringUtils.js:29 | a lone placeholder becomes its argument, or "undefined" when there is none |
| StringUtils.FormatExample | js/util/StringUtils.js:22 | the documented example gives "2 + 3" |
| StringUtils.ArgumentNotRescanned | js/util/StringUtils.js:29 | an argument reading "{1}" is inserted literally |
| StringUtils.RepeatedPlaceholder | js/util/StringUtils.js:29 | a placeholder written twice is replaced at both places |
| StringUtils.MultiDigitBraceIsLiteral | js/util/StringUtils.js:29 | "{10}" is copied unchanged |
| StringUtils.WrapLTR | js/util/StringUtils.js:39-41 | the string between the LTR mark and the POP mark, two characters longer |
| StringUtils.WrapRTL | js/util/StringUtils.js:50-52 | as written, the same as WrapLTR |
| StringUtils.WrapRTLOpensLeftToRight | js/util/StringUtils.js:50-52 | the as-written result opens with the LTR mark, never the RTL mark |
| StringUtils.WrapRTLIntended | js/util/StringUtils.js:43-52 | the string between the RTL mark and the POP mark, which differs from WrapLTR |
| QueryParameters.Split | js/util/query-parameters.js:52 | the pieces contain no separator and joined with it give back the string |
| QueryParameters.SplitWithoutSeparator | js/util/query-parameters.js:54 | a string without the separator is one piece |
| QueryParameters.SplitAtFirstSeparator | js/util/query-parameters.js:54 | the text before the first separator is the first piece |
| QueryParameters.SplitJoin | js/util/query-parameters.js:52 | splitting undoes joining pieces that contain no separator |
| QueryParameters.Params | js/util/query-parameters.js:51-52 | none for an empty search string; otherwise the pieces that rejoin with '&' to the text after the first character |
| QueryParameters.PairKey | js/util/query-parameters.js:54-55 | the text before the first '=', or the whole parameter when it has none |
| QueryParameters.BuildQueryParamsMap | js/util/query-parameters.js:49-57 | the loop builds the table of the search string; an empty search string gives an empty table |
| QueryParameters.ParamsMapKeys | js/util/query-parameters.js:53-56 | a key is in the table exactly when some parameter has it |
| QueryParameters.ParamsMapLastWins | js/util/query-parameters.js:53-56 | a key's entry is the value of the last parameter with that key |
| QueryParameters.GetQueryParameter | js/util/query-parameters.js:65-67 | the table's entry for the key, or none exactly when the key is absent |
| QueryParameters.LookupFindsParameter | js/util/query-parameters.js:51-67 | a lookup succeeds exactly when some parameter of the search string has the key |
| QueryParameters.ValueStopsAtSecondEquals | js/util/query-parameters.js:54-55 | the value is the decoded text between the first and second '='; the rest is dropped |
| QueryParameters.BareNameIsRecorded | js/util/query-parameters.js:54-55 | a parameter without '=' is recorded under its whole text with the decoded "undefined" |
| QueryParameters.LastOccurrenceWins | js/util/query-parameters.js:53-61 | with a key given twice the table keeps the second value, not the first |

## Left out

- SphereBuckets.SphereBucket.RelayoutBucketParticles: the source repeats its pass until no particle moves, with no bound. The model stops after RELAYOUT_PASS_LIMIT (10000) passes and returns `settled`. No dangling member is promised only when `settled` is true, and nothing is said about termination.
- SphereBuckets.SphereBucket.RemoveParticle, SetUserControlled and ExtractClosestParticle: their "nothing dangles" promise inherits the same `settled` condition.
- SphereBuckets.SphereBucket.AddParticle, AddParticleFirstOpen and AddParticleNearestOpen: these require that the particle is not already a member. The source would push it a second time.
- SphereBuckets.SphereBucket.constructor: this requires a positive sphere radius and a bottom layer of at least one slot. With fewer slots the source's reset of a zero count never fires.
- SphereBuckets.SphereBucket.CountSupportingParticles: the documented range "0 to 2" is not proved. The model proves only that the count is at most the number of members.
- SphereBuckets.SphereBucket.ParticleList: the source returns its live array. The model returns the list as a value, so aliasing is not captured.
- The Axon listener machinery (`lazyLink`, `unlink`, the closure) is reduced to a flag per particle.
  - A change of the user-controlled flag on a linked member removes it.
  - As in the source, the listener fires on any change of the flag, not only on a change to true.
- PhET-iO serialisation (the IO types, tandems, `phetioType`) and the legacy `SphereBucket.js` are not part of this model.
- The bucket's shapes (`Bucket.ts`, `Bucket.js`) are not part of this model. Only their `position` and `size` (defaults: the origin and 200 by 50) are used.
- `Utils.roundSymmetric`, `Utils.gcd` and `Utils.lcm` come from a library that is not part of this model. They are defined here as:
  - rounding half away from zero;
  - the non-negative gcd, with 0 for 0 and 0;
  - `|a * b| / gcd`, with 0 when both arguments are 0.
- Floating point is not modelled. Coordinates and transform coefficients are exact reals, fraction parts are unbounded integers, and `roundSymmetric` of an exact quotient is integer division.
- Fractions.Fraction.Sign: for a zero denominator the model gives the numerator's sign, which is the sign of the infinity. For 0/0 (NaN in JavaScript) it gives 0.
- Fractions.Fraction.SetToSum, Add, Plus, Subtract, Minus and IsLessThan: these require nonzero denominators. With a zero denominator the source computes NaN, which its integer assertion rejects.
- Fractions.Fraction.IsLessThan: the module-level scratch fraction is passed in as a parameter.
- `getValue`, `fromDecimal` and the constants `ZERO` and `ONE` of `Fraction.ts` are left out. The first two are floating-point computations; the exact value is the ghost `Value()` instead.
- Integer parts above 2^53 are not modelled. The source's exactness claim depends on staying below that bound.
- ModelViewTransform2D.ModelViewTransform2D.ViewToModel: this requires a nonzero scale, because dividing by zero would give an infinity.
- The bounds, shape, ray, normal and delta conversions of `ModelViewTransform2.ts` are left out. They delegate to `Transform3`, which is not part of this model.
- `Matrix3` itself and the older `ModelViewTransform2.js` are not part of this model.
- ModelViewTransforms.ModelViewTransform2.SetToRectangleMapping, SetToRectangleInvertedYMapping, CreateRectangleMapping and CreateRectangleInvertedYMapping: these require a model rectangle of nonzero width and height, as the source documents.
- Change notification on `setMatrix` is left out.
- `StringUtils.endsWith` and `fillIn` do not exist in the `StringUtils.js` modelled here, so they are not modelled.
- `decodeURIComponent` is a parameter of the model, and its URIError on malformed input is not modelled.
- Reading `window.location.search` is replaced by a search-string argument.
- The comment on `getNearestOpenPosition` says only the X-component picks the nearest open position, but the code compares full distances. The model follows the code (SphereBuckets.SphereBucket.ClosestOpenPosition uses the squared distance in both coordinates).
- The bucket's `position` is a public field the source may reassign. The model fixes it at construction.
- StringUtils.Format: the source turns each argument into text with `String()` during the replacement. The model takes the arguments as strings that are already converted.
- The documentation of `getQueryParameter` promises the first occurrence of a key, but the code keeps the last. The model follows the code (QueryParameters.LastOccurrenceWins).
- JavaScript object keys such as `__proto__` are not modelled. The table is a Dafny map.

## Findings

| source | as written | input that shows it | evidently intended | confidence | as-written member | corrected member |
|---|---|---|---|---|---|---|
| js/util/StringUtils.js:50-52 | `wrapRTL` wraps the string in the left-to-right embedding mark | any string, e.g. "" gives LTR, POP | the right-to-left embedding mark U+202B, as the documentation says | not executed | StringUtils.WrapRTL, StringUtils.WrapRTLOpensLeftToRight | StringUtils.WrapRTLIntended |
| js/model/Fraction.ts:229-233 | `divide` updates the numerator before reading `value.numerator`, so `f.divide(f)` uses the new numerator | 2/3 divided by itself gives 6/18, value 1/3 | the quotient, 6/6 | not executed | Fractions.Fraction.Divide, Fractions.DivideBySelfAsWritten | Fractions.Fraction.DivideInPlace, Fractions.DivideBySelfIntended |
