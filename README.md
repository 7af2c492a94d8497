# Background remover and round-robin contact router, in Dafny

This project models two parts of the repository and proves properties of
them.

**The background remover (`remove-background.js`).** The pipeline that
`rerun` applies to an RGBA image:

- It derives the classifier thresholds from the aggressiveness slider.
- It classifies every pixel as background or not: an RGB to HSV conversion,
  then the HSV, distance-to-white and uniform-colour rules, plus three
  "extreme" rules above 80 percent.
- It flood-fills from every border pixel through 8-connected background
  pixels, breadth first.
- It closes the mask: a dilation, then an erosion, over a square window.
- It feathers the mask, which is one more dilation.
- It splits the masked pixels into edge pixels and interior pixels, in that
  order.
- It sets alpha to 0 for each listed pixel in a copy of the original image.

The modules:

- `Classify` (`classify.dfy`): the classifier and its parameters, as pure
  functions.
- `FloodFill` (`floodfill.dfy`): the flood fill, imperative over arrays.
- `Morphology` (`morphology.dfy`): the closing, imperative over arrays.
- `Compositing` (`compositing.dfy`): feathering, the clear order and
  compositing, imperative over arrays.

Each imperative method is proved against a ghost specification: the
reachable-pixel map of `Grid` (`grid.dfy`), the dilation and the erosion,
the clear order and the composited buffer. Lemmas about those
specifications state what the pipeline guarantees:

- The fill mask holds exactly the pixels that a background path from the
  border reaches.
- The closing only adds pixels and is idempotent.
- The clear order lists every removed pixel exactly once, edge pixels
  first.
- `rerun` keeps every colour byte and clears exactly the alpha of the
  removed pixels.

**The round-robin contact manager (`roundrobin.js`).** The modules:

- `Conditions` (`conditions.dfy`): matching a contact against a workflow's
  conditions.
- `Weighting` (`weighting.dfy`): the weighted round-robin choice of the next
  owner in a group.
- `RoundRobin` (`app.dfy`): routing a new contact, and the class
  `RoundRobinApp` with the contact, group and workflow lists as `seq`
  fields. Its methods change those fields the way the app's handlers do.

`Seqs` (`seqs.dfy`) holds the list functions both parts share: `find` and
`filter`. `Options` (`option.dfy`) holds the option type.

JavaScript numbers are modelled as follows:

- Pixel values are integers.
- Thresholds and HSV components are exact reals.
- The deficits of the round-robin pick are exact reals extended with two
  infinities and NaN (`Weighting.Score`). A total weight of 0 makes
  JavaScript divide by zero, and the pick behaves exactly as JavaScript's
  `>` does on those values.

Three facts about the code that its comments do not suggest:

- Raising the slider can turn a background pixel into foreground. Every
  derived threshold grows with the slider (`Classify.DeriveParamsMonotone`),
  but so do the brightness floors of rules 2 and 3. So light grey
  (210, 210, 210) is background at 0 percent and foreground at 50 percent
  (`Classify.NotMonotoneInAggressiveness`).
- Rule 1 and rule 4c compare `v`, which is at most 1, with thresholds of at
  least 200 and at least 20, so they never fire (`Classify.ValueRulesDead`).
- The flood fill is 8-connected.

## Model

| member | source | states |
|---|---|---|
| Classify.RoundHundredths | remove-background.js:323-329 | Math.round of n/100: the result r satisfies 100r <= n + 50 < 100r + 100, so halves round up |
| Classify.RoundHundredthsMonotone | remove-background.js:323-329 | the rounding is monotone |
| Classify.DeriveParams | remove-background.js:317-330 | every derived threshold lies in its documented range (200-255, 20-255, 200-255, 0.05-1.0, 5-100, 180-255, 1-6); the exact sets at 0 and at 100 percent |
| Classify.DeriveParamsMonotone | remove-background.js:317-330 | every derived threshold is non-decreasing in the slider percent |
| Classify.Hue | remove-background.js:146-154 | the hue, with the channel tests in the source's order, lies in [0, 1) |
| Classify.RgbToHsv | remove-background.js:139-160 | h in [0, 1), s and v in [0, 1]; 255·v is the largest channel; s is 0 exactly for greys and black |
| Classify.Brightness | remove-background.js:165 | the channel mean (r + g + b) / 3 |
| Classify.DistSqToWhite | remove-background.js:174 | the squared Euclidean distance to (255, 255, 255); compared with the squared threshold in place of the square root |
| Classify.MaxDiff | remove-background.js:181 | the largest of the three pairwise channel differences |
| Classify.HsvRule | remove-background.js:167-170 | rule 1: v at least the value threshold and s at most the saturation threshold |
| Classify.DistanceRule | remove-background.js:172-178 | rule 2: brightness at least the brightness threshold and distance to white at most the distance threshold |
| Classify.UniformRule | remove-background.js:180-184 | rule 3: largest channel difference at most the uniform threshold and brightness at least the uniform floor |
| Classify.ExtremeFactor | remove-background.js:189 | (aggr - 0.8) / 0.2 for aggr = percent / 100 |
| Classify.ExtremeBrightnessRule | remove-background.js:191-195 | rule 4a: brightness at least 30 + factor · 225 |
| Classify.ExtremeSaturationRule | remove-background.js:197-201 | rule 4b: s at least 0.05 + factor · 0.95 and brightness above 20 |
| Classify.ExtremeValueRule | remove-background.js:203-207 | rule 4c: v at least 20 + factor · 235 and brightness above 20 |
| Classify.IsBackgroundPixel | remove-background.js:163-211 | rules 1-3 or'ed, plus rules 4a-4c only when the slider is above 80 percent |
| Classify.ValueRulesDead | remove-background.js:163-211 | with derived thresholds, rule 1 and the extreme value rule never fire, so isBackgroundPixel is the disjunction of the distance rule, the uniform rule and (above 80 percent) the extreme brightness and saturation rules |
| Classify.WhiteIsBackground | remove-background.js:172-178 | pure white is background at every aggressiveness |
| Classify.DarkIsNeverBackground | remove-background.js:163-211 | a pixel of brightness at most 20 (black included) is never background, at any aggressiveness |
| Classify.NotMonotoneInAggressiveness | remove-background.js:163-211 | classification is not monotone in aggressiveness: (210,210,210) is background at 0 percent but not at 50 percent |
| Classify.ExtremeBoundary | remove-background.js:186-208 | at 100 percent a saturated colour of brightness 21 is removed, one of brightness 20 is kept, and a grey of brightness 21 is kept |
| FloodFill.BackgroundMap | remove-background.js:278-281 | one classification per pixel of the RGBA buffer (alpha ignored) |
| FloodFill.PixelIsBackground | remove-background.js:278-281 | isBackgroundPixel on the red, green and blue bytes at 4p, 4p + 1 and 4p + 2 |
| FloodFill.FloodMask | remove-background.js:264-309 | the intended result: a pixel is set exactly when it is reachable from the border through 8-connected background pixels |
| FloodFill.InitialInvariant | remove-background.js:265-268 | the all-clear start state satisfies the fill invariant |
| FloodFill.VisitForeground | remove-background.js:272-286 | visiting a non-background pixel only marks it visited and keeps the invariant |
| FloodFill.VisitBackground | remove-background.js:272-286 | visiting a background pixel on the border or next to a masked pixel masks it, queues it, appends it to clearOrder, and keeps the invariant |
| FloodFill.Enqueue | remove-background.js:272-286 | out-of-range or visited pixels change nothing; otherwise the pixel becomes visited, and masked, queued and appended to clearOrder exactly when it is background; the fill invariant is kept |
| FloodFill.NeighbourAt | remove-background.js:303-305 | each of the eight positions in the source's order is an 8-neighbour |
| FloodFill.NeighbourAtComplete | remove-background.js:303-305 | the eight positions cover every 8-neighbour |
| FloodFill.Dequeue | remove-background.js:300 | taking the head off the queue keeps the invariant, with the head open |
| FloodFill.CloseExpanded | remove-background.js:303-305 | once all eight neighbours of the dequeued pixel are visited, it counts as expanded |
| FloodFill.EnqueueStep | remove-background.js:303-305 | enqueueing neighbour k keeps the invariant and extends the visited or out-of-range neighbours to the first k + 1 |
| FloodFill.EnqueueRowAbove | remove-background.js:303 | after the three calls for the row above, neighbours 0 to 2 are visited or out of range |
| FloodFill.EnqueueSides | remove-background.js:304 | after the left and right calls, neighbours 0 to 4 are visited or out of range |
| FloodFill.EnqueueRowBelow | remove-background.js:305 | after the row below, all eight neighbours are visited or out of range |
| FloodFill.EnqueueNeighbours | remove-background.js:303-305 | enqueues the eight neighbours in order; the dequeued pixel is then expanded and the invariant holds with no open pixel |
| FloodFill.SeedStep | remove-background.js:289-296 | one border enqueue keeps the invariant, visits its pixel and never unvisits one |
| FloodFill.SeedRows | remove-background.js:289-292 | after the first seeding loop every pixel of the first and last row is visited |
| FloodFill.SeedColumns | remove-background.js:293-296 | after the second seeding loop the whole border is visited |
| FloodFill.ExpandQueue | remove-background.js:299-306 | the breadth-first loop terminates (at most w·h dequeues) with an empty queue and the invariant intact |
| FloodFill.FloodMaskExact | remove-background.js:264-309 | an empty queue over a visited border leaves a mask that is exactly the reachable pixels |
| FloodFill.FloodFillFromEdges | remove-background.js:264-309 | the mask is exactly FloodMask; clearOrder lists every masked index exactly once and nothing else, so it has at most w·h entries |
| Grid.Idx | remove-background.js:270 | the flat index y·w + x of an in-bounds pixel lies in the buffer |
| Grid.Row | remove-background.js:270 | row and column of a flat index map back to the same index |
| Grid.CoordsOfIdx | remove-background.js:270 | index and coordinates are mutually inverse |
| Grid.IdxInjective | remove-background.js:270 | distinct in-bounds pixels have distinct indices |
| Grid.Near | remove-background.js:222-225 | (nx, ny) lies in the (2r+1) × (2r+1) square centred on (x, y) |
| Grid.Adjacent | remove-background.js:303-305 | 8-connectivity: distinct pixels at Chebyshev distance 1 |
| Grid.OnBorder | remove-background.js:289-296 | an in-bounds pixel of the first or last column or row, the pixels the seeding loops enqueue |
| Grid.Reachable | remove-background.js:264-309 | some 8-connected path of background pixels leads from a border pixel to (x, y) |
| Grid.ReachMap | remove-background.js:264-309 | the reachable pixels as a w·h grid |
| Grid.Closed | remove-background.js:281-306 | a grid containing every background border pixel and every background 8-neighbour of its own pixels |
| Grid.BorderReachable | remove-background.js:289-296 | a background border pixel is reachable |
| Grid.ReachableStep | remove-background.js:303-305 | reachability extends to a background 8-neighbour |
| Grid.ReachableIsSet | remove-background.js:281-283 | every reachable pixel is background and in bounds |
| Grid.ClosedContainsReachable | remove-background.js:264-309 | a grid containing the background border pixels and closed under background neighbours contains every reachable pixel |
| Grid.ReachMapClosed | remove-background.js:264-309 | the reachable pixels are themselves such a closed grid, and so the least one |
| Morphology.WindowHas | remove-background.js:222-233 | some in-bounds pixel within radius r of (x, y) has the target value; the scans at lines 222-233 (target set), 244-254 (target clear) and 432-443 (radius 1, target clear) |
| Morphology.Dilation | remove-background.js:217-236 | a w·h mask; pixel-wise meaning in DilationAt |
| Morphology.DilationAt | remove-background.js:217-236 | a pixel is set after dilation exactly when it was set or a set pixel lies in its clipped window |
| Morphology.Erosion | remove-background.js:238-258 | a w·h mask; pixel-wise meaning in ErosionAt |
| Morphology.ErosionAt | remove-background.js:238-258 | a pixel stays set after erosion exactly when it was set and no clear pixel lies in its clipped window |
| Morphology.Closing | remove-background.js:214-261 | erosion of the dilation, a w·h mask |
| Morphology.FindInWindow | remove-background.js:222-233 | the nested dy/dx scan with its early breaks reports exactly whether a pixel of the target value lies in the clipped window |
| Morphology.DilateInto | remove-background.js:218-236 | the dilation loop turns a copy of the mask into its dilation |
| Morphology.ErodeInto | remove-background.js:239-258 | the erosion loop turns a copy of the dilated mask into its erosion |
| Morphology.Copy | remove-background.js:215 | new Uint8Array(mask): a fresh array with the same contents |
| Morphology.MorphologicalClose | remove-background.js:214-261 | a fresh mask holding the closing of the input, which is left unchanged |
| Morphology.NearSymmetric | remove-background.js:222-225 | the clipped-window relation is symmetric |
| Morphology.SmallRadiusIdentity | remove-background.js:214-261 | a radius of 0 or less leaves the mask unchanged under dilation, erosion and closing |
| Morphology.DilationMonotone | remove-background.js:217-236 | dilation is monotone |
| Morphology.ClosingExtensive | remove-background.js:214-261 | for a radius of 0 or more, closing never clears a set pixel |
| Morphology.OpeningAntiExtensive | remove-background.js:214-261 | dilating an eroded mask never sets a pixel the mask did not have |
| Morphology.ClosingIdempotent | remove-background.js:214-261 | closing a closed mask changes nothing |
| Morphology.ClosingFillsCoveredPixel | remove-background.js:214-261 | for a radius of 0 or more, closing sets a pixel when every in-bounds pixel of its window is set or within the radius of a set pixel, so small holes in the mask are filled |
| Morphology.SmallHole | remove-background.js:214-261 | a 4 × 4 mask, set except for the 2 × 2 block in its middle |
| Morphology.ClosingFillsSmallHole | remove-background.js:214-261 | the radius-1 closing (the radius at 0 percent) fills the 2 × 2 hole of SmallHole, masking the whole image |
| Morphology.SmallHoleDilated | remove-background.js:217-236 | the radius-1 dilation of SmallHole is the full mask |
| Morphology.SmallHoleDilatedAt | remove-background.js:217-236 | each pixel of SmallHole is set after the radius-1 dilation |
| Morphology.FilledFrom | remove-background.js:220-234 | a pixel next to a set pixel is set by the radius-1 dilation |
| Morphology.FullStaysFull | remove-background.js:238-258 | erosion keeps a full mask full |
| Compositing.Feathered | remove-background.js:379-418 | the mask after feathering: its dilation by featherAmount when that is positive, otherwise unchanged |
| Compositing.Feather | remove-background.js:379-418 | the feathering step and the merge loop leave exactly Feathered(old mask) in cleanedMask |
| Compositing.FeatherExtensive | remove-background.js:380-418 | feathering keeps every set pixel; every pixel it adds lies within featherAmount of a set one; a featherAmount of 0 or less changes nothing |
| Compositing.IsEdge | remove-background.js:431-443 | a masked pixel is an edge pixel when a clear in-bounds pixel lies in its 3 × 3 window |
| Compositing.PixelsWhere | remove-background.js:426-451 | the masked indices below n that are edge (or interior) pixels, in scan order |
| Compositing.ClearOrder | remove-background.js:420-455 | finalClearOrder: the edge pixels, then the interior pixels |
| Compositing.PixelsWhereMembers | remove-background.js:426-451 | the edge (interior) list holds exactly the masked pixels below n that have (do not have) a clear 8-neighbour |
| Compositing.PixelsWhereIncreasing | remove-background.js:426-451 | each list is strictly increasing, in the scan's row-major order |
| Compositing.PixelsWhereKind | remove-background.js:426-451 | every listed pixel is masked and of its list's kind |
| Compositing.ClearOrderSpec | remove-background.js:420-455 | finalClearOrder lists every masked pixel, only masked pixels, none twice, with no interior pixel before an edge pixel |
| Compositing.DisjointIncreasingDistinct | remove-background.js:454-455 | concatenating two increasing lists with no common entry gives a list without duplicates |
| Compositing.IsEdgeAt | remove-background.js:431-443 | the edge test at a pixel is the 3×3 window scan for a clear pixel |
| Compositing.SplitRow | remove-background.js:427-450 | one row of the scan extends both lists by exactly that row's edge and interior pixels |
| Compositing.FinalClearOrder | remove-background.js:420-455 | returns exactly ClearOrder of the mask: the edge pixels, then the interior pixels, each in scan order |
| Compositing.Composited | remove-background.js:459-463 | the buffer with the alpha byte of every listed pixel set to 0, same length |
| Compositing.CompositedPixel | remove-background.js:459-463 | the colour bytes of each pixel are unchanged; alpha becomes 0 exactly for listed pixels |
| Compositing.CompositedStep | remove-background.js:459-462 | one more listed pixel clears one more alpha byte, or nothing when the store falls outside the buffer |
| Compositing.ClearAlpha | remove-background.js:459-463 | the loop leaves exactly Composited(old data, order) |
| Compositing.RemovedMask | remove-background.js:373-418 | the mask rerun removes: flood mask, closed with the derived radius, then feathered |
| Compositing.Rerun | remove-background.js:311-463 | on a fresh copy of the original (left unchanged), the output is the original composited with the clear order of the removed mask |
| Compositing.RerunPixel | remove-background.js:365-463 | per pixel: colour kept, alpha 0 exactly when the pixel is in the removed mask |
| Compositing.FloodPixelsRemoved | remove-background.js:373-418 | every pixel the flood fill reaches is removed, whatever the feathering |
| Compositing.NoBackgroundBorderUnchanged | remove-background.js:264-463 | an image with no background pixel on its border comes out unchanged |
| Compositing.EmptyStaysEmpty | remove-background.js:214-418 | dilation, erosion, closing and feathering keep an empty mask empty |
| Conditions.LowerChar | roundrobin.js:160-161 | toLowerCase on one character: A-Z map to a-z, everything else is kept |
| Conditions.Lower | roundrobin.js:160-161 | toLowerCase on a string, character by character |
| Conditions.IsPrefix | roundrobin.js:168-169 | startsWith: the value begins with the needle |
| Conditions.IsSuffix | roundrobin.js:170-171 | endsWith: the value ends with the needle |
| Conditions.Contains | roundrobin.js:166-167 | includes: the needle starts at the front of the value or somewhere in its tail |
| Conditions.Field | roundrobin.js:160 | contact[field]: the seven contact fields, null for an unassigned owner, undefined for any other name |
| Conditions.ContactValue | roundrobin.js:160 | contact[field]?.toLowerCase() or '' when the field is missing |
| Conditions.ConditionHolds | roundrobin.js:160-174 | the operator switch on the lower-cased values, false for any other operator |
| Conditions.KnownOperator | roundrobin.js:163-171 | the four operators the switch handles |
| Conditions.LowerHasNoUpper | roundrobin.js:160-161 | the lowered string has no upper-case ASCII letter |
| Conditions.LowerIdempotent | roundrobin.js:160-161 | lowering twice equals lowering once |
| Conditions.ContainsAt | roundrobin.js:166-167 | includes holds exactly when the needle starts at some position of the value |
| Conditions.AffixContained | roundrobin.js:166-171 | a prefix or a suffix is also contained |
| Conditions.MatchesAll | roundrobin.js:157-176 | every(...): true exactly when every condition holds, so an empty list matches all |
| Conditions.UnknownOperatorFails | roundrobin.js:172-173 | an operator other than the four never holds |
| Conditions.OperatorMeaning | roundrobin.js:160-171 | equals, contains, starts_with and ends_with mean equality, substring, prefix and suffix of the lower-cased values |
| Conditions.ValueCaseInsensitive | roundrobin.js:161 | the condition value's case is irrelevant |
| Conditions.ContactCaseInsensitive | roundrobin.js:160 | the contact fields' case is irrelevant |
| Conditions.MissingFieldIsEmpty | roundrobin.js:160 | a field the contact lacks (or a null owner) reads as ''; a known operator then holds exactly when the condition value is empty |
| Conditions.EmptyConditionsMatch | roundrobin.js:159 | an empty condition list matches every contact |
| Conditions.MoreConditionsNarrow | roundrobin.js:159-175 | matching a concatenation is matching both parts |
| Seqs.FindFirst | roundrobin.js:139-141 | find: the first element passing the test, none exactly when no element passes |
| Seqs.DistinctBounded | remove-background.js:284 | distinct indices below n are at most n |
| Seqs.Without | roundrobin.js:442 | filter(x => key(x) !== id): the elements kept are exactly those of the list whose key differs |
| Seqs.WithoutAppend | roundrobin.js:442 | filter distributes over concatenation |
| Seqs.WithoutCount | roundrobin.js:442 | filter drops every occurrence of a keyed element and keeps every other with its multiplicity |
| Seqs.WithoutNothing | roundrobin.js:442 | filtering an id no element has changes nothing |
| Weighting.Greater | roundrobin.js:201 | JavaScript > on numbers: false with NaN, +Infinity above everything else, -Infinity below |
| Weighting.GreaterIsStrictOrder | roundrobin.js:201 | the > on deficits is irreflexive and transitive, and total apart from NaN |
| Weighting.PickUnique | roundrobin.js:193-205 | at most one member is the one the strict-> scan keeps |
| Weighting.Best | roundrobin.js:193-205 | the scan from -Infinity picks the first index of the largest deficit, none exactly when no deficit exceeds -Infinity |
| Weighting.OwnedCount | roundrobin.js:185 | filter(c => c.owner === repId).length, at most the number of contacts |
| Weighting.OwnedSplit | roundrobin.js:189-190 | the contacts owned by a set of reps plus one more rep split into two counts |
| Weighting.TotalWeight | roundrobin.js:189 | the sum of the members' weights, from the left |
| Weighting.FirstOccurrences | roundrobin.js:183-186 | the keys of assignmentCounts: each member's rep once, in insertion order |
| Weighting.FirstOccurrencesStep | roundrobin.js:184-186 | one more member adds its rep to the keys exactly when it is new |
| Weighting.SumOwned | roundrobin.js:190 | the counts of the keys summed in key order |
| Weighting.TotalAssigned | roundrobin.js:190 | totalAssigned: the counts summed over the object's keys |
| Weighting.SumOwnedDistinct | roundrobin.js:190 | summing the counts of distinct reps counts the contacts owned by any of them |
| Weighting.TotalAssignedCountsOwners | roundrobin.js:190 | totalAssigned is the number of contacts owned by some member, so at most the number of contacts, even with a rep listed twice |
| Weighting.Deficit | roundrobin.js:197-199 | (totalAssigned + 1) · (weight / totalWeight) - count; for a total weight of 0 the division gives +Infinity, -Infinity or NaN by the weight's sign |
| Weighting.Deficits | roundrobin.js:196-200 | one deficit per member, in member order |
| Weighting.NextOwner | roundrobin.js:178-208 | null without members; otherwise the rep of the member the scan picks, or null when none beats -Infinity |
| Weighting.NextOwnerIsMember | roundrobin.js:178-208 | no members gives null; a returned owner is a member's rep; a non-zero total weight always gives an owner |
| Weighting.PickMaximisesDeficit | roundrobin.js:192-205 | with a non-zero total weight every deficit is finite and the chosen member's is the largest, strictly larger than every earlier one |
| Weighting.DeficitCrossMultiplied | roundrobin.js:198-201 | for a positive total weight, comparing deficits is comparing (totalAssigned+1)·weight − count·totalWeight |
| Weighting.TotalWeightUniform | roundrobin.js:189 | equal weights w sum to |members|·w |
| Weighting.EqualWeightsFewestOwned | roundrobin.js:178-208 | with equal non-zero weights the pick is the earliest member owning the fewest contacts |
| Weighting.DeficitByCount | roundrobin.js:196-201 | under one weight, a larger deficit means fewer owned contacts |
| Weighting.ZeroTotalWeight | roundrobin.js:189-205 | a zero total weight picks the first member with a positive weight, or nobody |
| Weighting.CountAssignments | roundrobin.js:183-186 | the map holds, for exactly the members' reps, the number of contacts each owns; the keys are in insertion order |
| Weighting.SumWeights | roundrobin.js:189 | the reduce equals TotalWeight |
| Weighting.SumCounts | roundrobin.js:190 | the reduce over Object.values equals the sum over the keys |
| Weighting.SelectMember | roundrobin.js:193-205 | the forEach with maxDeficit from -Infinity selects exactly Best of the deficits |
| RoundRobin.MatchingWorkflow | roundrobin.js:139-141 | the first workflow all of whose conditions hold, none exactly when none matches |
| RoundRobin.GroupWithId | roundrobin.js:144 | the first group with the id, none exactly when there is none |
| RoundRobin.GroupNamed | roundrobin.js:150 | the first group named so, none exactly when there is none |
| RoundRobin.MemberWithRep | roundrobin.js:397 | the first member with the rep, none exactly when there is none |
| RoundRobin.Route | roundrobin.js:137-155 | the owner assignContactToOwner leaves: the next owner of the first matching workflow's group, else of the 'Default' group when no workflow matches, else the owner unchanged |
| RoundRobin.MatchingWorkflowIs | roundrobin.js:139-141 | the first matching workflow is the one found |
| RoundRobin.GroupWithIdIs | roundrobin.js:144 | the first group with the id is the one found |
| RoundRobin.GroupNamedIs | roundrobin.js:150 | the first group with the name is the one found |
| RoundRobin.FirstMatchRoutes | roundrobin.js:137-147 | the first matching workflow decides, and its group's next owner becomes the owner |
| RoundRobin.DanglingWorkflowKeepsOwner | roundrobin.js:143-147 | a matching workflow whose group is missing leaves the owner as it was; Default is not tried |
| RoundRobin.DefaultWhenNoMatch | roundrobin.js:148-154 | with no matching workflow the first 'Default' group picks the owner |
| RoundRobin.UnroutedKeepsOwner | roundrobin.js:148-154 | with no match and no 'Default' group the owner is unchanged |
| RoundRobin.DeletedGroupStrandsWorkflow | roundrobin.js:439-445 | after deleting a workflow's group, contacts that workflow matches first keep their owner |
| RoundRobin.NewContact | roundrobin.js:118-126 | no owner; the company is kept when given and is 'N/A' otherwise; the other fields are as entered |
| RoundRobin.ParsedWeight | roundrobin.js:399 | parseInt(...) or 1: NaN and 0 become 1, any other value is kept, so the weight is never 0 |
| RoundRobin.DefaultMembers | roundrobin.js:261-267 | one member per selected rep, in order, each with weight 1 |
| RoundRobin.NewGroupPicksFewest | roundrobin.js:261-267 | a new group routes to its earliest rep owning the fewest contacts |
| RoundRobin.SetWeight | roundrobin.js:393-402 | the group list keeps its shape: ids, names, member counts and rep ids |
| RoundRobin.SetWeightChangesOnlyNamedMember | roundrobin.js:393-402 | only the first member with the rep in the first group with the id changes, and gets the weight; an unknown group or rep changes nothing |
| RoundRobin.RoundRobinApp.constructor | roundrobin.js:3-7 | each list is what storage holds, or empty |
| RoundRobin.RoundRobinApp.NextOwnerInGroup | roundrobin.js:178-208 | the method returns exactly NextOwner of the stored contacts and the group's members |
| RoundRobin.RoundRobinApp.AssignContactToOwner | roundrobin.js:137-155 | the contact with the owner Route gives: the first matching workflow's group, else the Default group, else unchanged |
| RoundRobin.RoundRobinApp.CreateContact | roundrobin.js:115-135 | appends the new contact with its routed owner; the groups and workflows are unchanged |
| RoundRobin.RoundRobinApp.CreateGroup | roundrobin.js:258-285 | with no rep selected nothing is added; otherwise one group with every selected rep at weight 1 is appended |
| RoundRobin.RoundRobinApp.CreateWorkflow | roundrobin.js:492-521 | a workflow without conditions is refused; otherwise it is appended |
| RoundRobin.RoundRobinApp.UpdateMemberWeight | roundrobin.js:393-402 | the groups become SetWeight with the parsed weight; nothing else changes |
| RoundRobin.RoundRobinApp.DeleteGroup | roundrobin.js:439-445 | the groups become those with another id; nothing else changes |
| RoundRobin.RoundRobinApp.DeleteWorkflow | roundrobin.js:582-588 | the workflows become those with another id; nothing else changes |

## Left out

- Everything outside these two scripts is not part of this model: the water shaders, the fluid simulation, the terminal animations and the 3D viewer.
- DOM, canvas and image I/O: decoding the image, putImageData, toDataURL and the slider displays. `Rerun` takes the original RGBA bytes and returns the new ones.
- `rerun`'s early return without an image, the animation token `currentAnimToken` and the debounced slider handler: these are UI scheduling.
- Floating point: thresholds, HSV components and deficits are exact reals. Math.round is modelled exactly on the rational n/100, so a tie landing on a value that a double cannot represent exactly may round differently in the source.
- Math.sqrt in the distance rule is replaced by comparing squared distances with the squared threshold. The two are equal for non-negative thresholds, and every derived threshold is one.
- The feathering loop's pushes into the fill's clearOrder are not modelled. That list is never read after this point, because the final order is rebuilt from the mask.
- Typed-array clamping: the masks are boolean arrays, because the source only ever stores 0 or 1 in them. An alpha store outside the buffer is modelled as doing nothing, like a typed-array store out of range.
- parseInt of the slider and weight strings: the model takes the parsed value. An unparsable weight is `None`.
- toLowerCase covers ASCII letters only.
- Condition fields outside the seven contact fields read as missing. Inherited object properties such as `toString`, which would make `toLowerCase` fail or return other text, are not modelled.
- JavaScript Sets are modelled as sequences, and object key order as insertion order. A rep id that looks like an integer would come first as an object key. The sum of the counts does not depend on the order.
- `Date.now()` ids and ISO timestamps are parameters. The `createdAt` of groups and workflows is not kept.
- `alert` and `confirm`. A confirmed deletion is modelled; a cancelled one changes nothing and has no method.
- localStorage saving and loading other than the `|| []` default, rendering, the sales-rep generator and formatCondition.
- Member objects shared between group entries are not modelled. Groups are values, so a weight update changes one list entry only.
- Weighting.DeficitCrossMultiplied: stated only for a positive total weight. With a negative total weight the order of the deficits is reversed, and with zero it is covered by Weighting.ZeroTotalWeight.
