# Keypoints, descriptors and matching for convection-pattern images

A Dafny model of the discrete machinery in the Rayleigh–Bénard convection
image-analysis scripts. The scripts find keypoints in grayscale snapshots of
convection rolls, describe them, and track topological features from frame
to frame. The model covers:

- **Pattern filters** (`pinch_upper.py`, `pinch_lower.py`, `plumes_other.py`,
  `rings_other.py`, `plumes_upper.py`, `rings_upper.py`). These select
  persistence pairs that show a pinch-off, plume or ring. Each filter is an
  order-preserving selection (`Persistence.Select`) over a diagram
  (`Persistence.Pair`: dim, birth, death and the birth and death cells).
- **Keypoint table assembly**. This is `loadKeypoints` in `data_access.py`
  and its copy in `get-keypoint-descriptors.py`. Persistence pairs and
  defect triples become rows of x, y and eight one-hot type flags.
- **Singular-point detector**. This is `singular_points` in
  `numerical_analysis.py`: the ±π-corrected discrete curl of a director
  field, rounded to an integer charge. It is modelled in exact real
  arithmetic.
- **Orientation assignment**. This is `assignOrientations` in
  `computer_vision.py`, built on a disk-masked byte histogram of the
  orientation field around each keypoint (module `Patches`):
  - peaks are labelled in runs, and the first and last runs merge when the
    histogram wraps;
  - a keypoint's own row carries its first run's (bin, weight);
  - one copy of the keypoint row is appended for each further run.
- **Keypoint descriptor**. This is `getFeatureVector` in
  `computer_vision.py`: eight weighted histograms of the rotated field,
  over four inner-disk quadrants and four annulus quadrants. Also modelled
  is the descriptor loop of `get-keypoint-descriptors.py`, which keeps the
  oriented keypoints inside the crop circle.
- **Persistence-diagram matching cascade** (`match-pd-forward.py`).
  - It is a class `PdMatching.Cascade` whose `isMatched` columns are
    updated in place by four greedy passes.
  - A source row is paired only when exactly one unmatched target of the
    same dimension satisfies the pass's predicate.
- **Forward singular-point matching** (`match-singular-points-forward.py`).
  Each point is paired with a nearest point of the same type in the next
  frame, and the result is sorted by type and distance.
- **Match-chain deviation** (`get-deviation-from-actual.py`,
  `get-deviation-from-linear.py`). A row's match is followed through a
  sequence of matching tables, and a running maximum of a per-step distance
  is kept.

The Euclidean distance of the deviation scripts, the Gaussian smoothing of
the orientation histogram and the Gaussian weight grid of the descriptor
come from numeric libraries. They are parameters of the model. Images,
tables and files are given as sequences.

Where the code and its comments or documentation disagree, the model
follows the code:

- `getFeatureVector` returns 8·nbins values, not the 4·nbins its docstring
  states.
- The matching cascade runs each pass once with the fixed radius 5. There is
  no escalating radius and no mutual nearest-neighbour matcher.
- The `max_error` bound is applied only by the bottleneck pass.
- The singular-point matcher imposes no uniqueness on matches.
- The script's keypoint table follows the pandas it was written for (before
  1.0, which still runs Python 2). There, `concat` of frames whose columns
  differ sorts the columns by name. The later `np.concatenate` reads columns
  by position, so the upper-saddle rows of `get-keypoint-descriptors.py:93`
  read as (0, 0) (`KeypointTable.ScriptUpperSaddles`).

There is one exception. `ChainDeviation.LinearDeviation` follows the comments
at `get-deviation-from-linear.py:63-64` and 72, not the formula at lines
69-74. Findings records the formula as a bug, and
`ChainDeviation.AsWrittenOffsets` models it as written.

## Model

| member | source | states |
|---|---|---|
| Persistence.Select | python/pinch_upper.py:18-22 | a boolean-mask selection keeps exactly the rows satisfying the predicate and is no longer than its input |
| Persistence.SelectIsSubsequence | python/pinch_upper.py:18-22 | the selection is a subsequence of its input, so the input order is kept |
| Persistence.SelectMultiplicity | python/pinch_upper.py:18-22 | every qualifying row is kept as often as it occurs, every other row is dropped |
| Persistence.SelectIdempotent | python/pinch_upper.py:18-22 | selecting twice with the same mask changes nothing |
| Persistence.SelectAppend | python/data_access.py:47-90 | selecting from two tables in sequence is the concatenation of the two selections |
| Persistence.SelectMonotone | python/plumes_upper.py:8-18 | a weaker mask selects at least the rows of a stronger one, in the same order |
| Persistence.SelectCongruent | python/plumes_upper.py:8-18 | two masks that agree on every row of the table select the same rows |
| PatternFilters.PinchUpper | python/pinch_upper.py:18-22 | a row is in the result iff it is a superlevel row with dim 0, death in the closed band [death_lower, death_upper] and birth − death > 10 |
| PatternFilters.PinchUpperIsOrderedSelection | python/pinch_upper.py:18-25 | the result is a subsequence of the superlevel diagram, holding each qualifying row as often as the input does and no other row |
| PatternFilters.PinchUpperIdempotent | python/pinch_upper.py:18-25 | filtering the result again returns it unchanged |
| PatternFilters.PinchUpperIgnoresSublevel | python/pinch_upper.py:8-16 | the sublevel diagram never affects the result, because the `hasMatch` test is not applied |
| PatternFilters.PinchLower | python/pinch_lower.py:18-21 | a row is in the result iff it is a sublevel row with dim 0, death in the half-open band [death_lower, death_upper) and L1 distance between birth and death cells > 2; there is no lifespan test |
| PatternFilters.PinchLowerIsOrderedSelection | python/pinch_lower.py:18-24 | the result is a subsequence of the sublevel diagram with the multiplicity of each qualifying row |
| PatternFilters.PinchLowerIdempotent | python/pinch_lower.py:18-24 | filtering the result again returns it unchanged |
| PatternFilters.PlumesOther | python/plumes_other.py:6-18 | a row is in the result iff it is a sublevel row with dim 1, birth_lower < birth ≤ birth_upper (parameters in the order upper, lower) and death − birth > 10 |
| PatternFilters.PlumesOtherIsOrderedSelection | python/plumes_other.py:15-21 | the result is an order-preserving selection of the sublevel diagram with each qualifying row's multiplicity |
| PatternFilters.RingsOther | python/rings_other.py:15-18 | a row is in the result iff it is a superlevel row with dim 1, birth_lower ≤ birth < birth_upper and birth − death > 10 |
| PatternFilters.RingsOtherIsOrderedSelection | python/rings_other.py:15-21 | the result is an order-preserving selection of the superlevel diagram with each qualifying row's multiplicity |
| PatternFilters.PlumesUpper | python/plumes_upper.py:8-18 | a row is in the result iff it is a sublevel dim-1 row with birth ≤ birth_upper and death − birth > lifespan, and some superlevel dim-0 row has its birth cell within 1 of the row's death cell in x and in y |
| PatternFilters.PlumesUpperIsOrderedSelection | python/plumes_upper.py:15-20 | the result is a subsequence of the sublevel diagram |
| PatternFilters.PlumesUpperEmptySuperlevel | python/plumes_upper.py:10-18 | with an empty superlevel diagram the result is empty |
| PatternFilters.PlumesUpperMonotone | python/plumes_upper.py:8-18 | a superlevel diagram containing more rows yields a result that contains the previous result as a subsequence |
| PatternFilters.RingsUpper | python/rings_upper.py:15-17 | a row is in the result iff it is a superlevel row with dim 1, birth ≥ med and birth − death ≤ lifespan (an upper bound, inclusive) |
| PatternFilters.RingsUpperIsOrderedSelection | python/rings_upper.py:15-21 | the result is an order-preserving selection of the superlevel diagram with each qualifying row's multiplicity |
| KeypointTable.OneHotIsOneHot | python/data_access.py:16-24 | a group's flag vector has exactly one 1, at the group's column, and seven 0s |
| KeypointTable.DefectFlagsMeaning | python/data_access.py:101-104 | charge 1, −1, 2, −2 sets exactly td_p1, td_m1, td_p2, td_m2 respectively; any other charge sets no flag |
| KeypointTable.LoadKeypoints | python/data_access.py:92-110 | the table has one row per persistence keypoint plus one per defect triple, each of 10 columns (each group keeps 10 columns: `LowerSaddles`, `UpperSaddles`, `LowerPlumes`, `UpperPlumes`, `Defects`) |
| KeypointTable.PersistenceKeypointsOneHot | python/data_access.py:47-90 | every persistence keypoint carries exactly one of the eight flags |
| KeypointTable.DefectRowsAtEnd | python/data_access.py:95-110 | defect rows follow the persistence rows in input order, with (y, x) swapped to (x, y) and the flags fixed by the charge |
| KeypointTable.LoadKeypointsComplete | python/data_access.py:42-92 | each qualifying pair contributes its critical cell with its group's flag: lower-saddle death and birth cells, upper-saddle death and birth cells, lower-plume and upper-plume death cells |
| KeypointTable.UpperSaddleRowsSound | python/data_access.py:56-68 | conversely, every ph_sup_0 row is the death cell of a qualifying superlevel dim-0 pair or the birth cell of a qualifying superlevel dim-1 pair |
| KeypointTable.UpperSaddleSource | python/data_access.py:56-68 | every upper-saddle row is the death cell of a qualifying superlevel dim-0 pair or the birth cell of a qualifying superlevel dim-1 pair |
| KeypointTable.CellFlags | python/data_access.py:47-90 | the death and birth cells of a group carry that group's flag vector |
| KeypointTable.DefectFlagsNoDiagramFlag | python/data_access.py:97-100 | no defect row carries any of the four persistence flags ph_sub_0, ph_sub_1, ph_sup_0, ph_sup_1 |
| KeypointTable.LowerSaddleRowsSound | python/data_access.py:42-54 | every ph_sub_0 row is the death cell of a qualifying sublevel dim-0 pair or the birth cell of a qualifying sublevel dim-1 pair |
| KeypointTable.LowerPlumeRowsSound | python/data_access.py:70-79 | every ph_sub_1 row is the death cell of a qualifying sublevel dim-1 pair |
| KeypointTable.UpperPlumeRowsSound | python/data_access.py:81-90 | every ph_sup_1 row is the death cell of a qualifying superlevel dim-1 pair |
| KeypointTable.DeathCellSource | python/data_access.py:42 | a death-cell row of a selection of the diagram is the death cell of a diagram row meeting the selection's condition |
| KeypointTable.BirthCellSource | python/data_access.py:44 | a birth-cell row of a selection of the diagram is the birth cell of a diagram row meeting the selection's condition |
| KeypointTable.LoadKeypointsLayout | python/data_access.py:92-110 | the table is the lower saddles, upper saddles, lower plumes, upper plumes and defects as five contiguous blocks, in that order, each block exactly that group |
| KeypointTable.GroupsOverlap | python/data_access.py:44-70 | a single sublevel dim-1 pair yields both a lower saddle (its birth cell) and a lower plume (its death cell) |
| KeypointTable.ScriptKeypoints | python/get-keypoint-descriptors.py:75-143 | the script's table has twice the lower-saddle rows plus the superlevel dim-1 birth cells, lower plumes, upper plumes and defects |
| KeypointTable.ScriptUpperSaddleRow | python/get-keypoint-descriptors.py:93-101 | a cell joined to the ten-column frame gets sorted columns, with ph_sup_0 set by name; read by position it becomes (0, 0) with ph_sub_0 set and its x and y in td_p2 and td_m2 |
| KeypointTable.ScriptUpperSaddleBlock | python/get-keypoint-descriptors.py:93-125 | each row of the script's upper-saddle block is (0, 0), flagged ph_sub_0, with a lower saddle's or a superlevel dim-1 birth cell's x and y in td_p2 and td_m2 |
| KeypointTable.ScriptDuplicatesLowerSaddles | python/get-keypoint-descriptors.py:89-101 | every lower saddle reappears at the same position in the next group, at (0, 0) with ph_sub_0 set and the saddle's own x and y in td_p2 and td_m2 |
| KeypointTable.ScriptDropsUpperSaddleDeathCells | python/get-keypoint-descriptors.py:89-93 | for one qualifying superlevel saddle and no other input, the library emits its death cell and the script emits nothing |
| SingularPoints.Correction | python/numerical_analysis.py:52-53 | a first difference is corrected by +π exactly when below −π/2, by −π exactly when above π/2, and by 0 otherwise |
| SingularPoints.WrapInRange | python/numerical_analysis.py:41-53 | for differences of angles in [−π/2, π/2], every corrected difference lies in [−π/2, π/2] |
| SingularPoints.Rint | python/numerical_analysis.py:54 | the rounded value lies within 1/2 of its argument and is the argument itself when that is an integer |
| SingularPoints.SingularPointGrid | python/numerical_analysis.py:49-54 | the charge grid has one row and one column fewer than the field |
| SingularPoints.CurlIsInteger | python/numerical_analysis.py:50-54 | the curl divided by π is the integer sum of the four correction units (the raw differences cancel), and the charge is that integer |
| SingularPoints.ChargeBounded | python/numerical_analysis.py:41-54 | for field values in [−π/2, π/2] every charge lies in −2..2 |
| SingularPoints.SmoothBlockHasNoCharge | python/numerical_analysis.py:52-54 | when no difference around a block exceeds π/2 in absolute value, its charge is 0 |
| SingularPoints.ChargeIsLocal | python/numerical_analysis.py:50-54 | the charge of a block depends only on the four field values of the block |
| SingularPoints.PlusOneDefect | python/numerical_analysis.py:49-54 | a concrete 2×2 field with a +1 winding gives the grid [[1]] |
| PdMatching.CandidatesFrom | python/match-pd-forward.py:78-83 | the candidate list holds, in increasing order, exactly the target rows that are unmatched, of the same dimension and satisfy the pass's predicate (lines 109-116, 143-155, 185-197 for the other passes) |
| PdMatching.UniqueMatch | python/match-pd-forward.py:85-88 | the result is a candidate when it is not −1, it is −1 when there is no candidate, and it is the only candidate whenever one candidate exists (likewise lines 118-121, 157-160, 199-202) |
| PdMatching.MatchPass | python/match-pd-forward.py:123-136 | the in-order loop over source rows yields the pass specification `PassFrom` from row 0 and keeps the flag tables' shapes |
| PdMatching.StepConsistent | python/match-pd-forward.py:91-96 | one iteration keeps target flags in {−1, 1}, keeps every matched target flagged, and never pairs two source rows with one target |
| PdMatching.ConsistentAfterMatch | python/match-pd-forward.py:91-96 | pairing an unmatched source row with an unmatched target keeps the bookkeeping consistent |
| PdMatching.EvolvesTransitive | python/match-pd-forward.py:221-226 | two successive evolutions of the flags compose into one |
| PdMatching.StepEvolves | python/match-pd-forward.py:91-96 | one iteration only pairs an unmatched source row with a previously unmatched, same-dimension target satisfying the predicate, and only flips that target from −1 to 1 |
| PdMatching.PassEvolves | python/match-pd-forward.py:123-136 | a whole pass keeps the bookkeeping consistent, freezes matched rows, and each new pairing and newly flagged target is justified by the predicate |
| PdMatching.PassDecidesRow | python/match-pd-forward.py:124-129 | when an unmatched eligible source row is reached, its flag becomes the unique candidate or −1 |
| PdMatching.RowsBeforeUntouched | python/match-pd-forward.py:124-129 | a pass never rewrites the flag of a row before its current position |
| PdMatching.PassNeverUnmatches | python/match-pd-forward.py:91-103 | the number of unmatched source rows never increases over a pass |
| PdMatching.CountUnmatchedMonotone | python/match-pd-forward.py:227-228 | when every matched row stays matched, the number of unmatched rows does not grow |
| PdMatching.MaxError | python/match-pd-forward.py:47 | `max_error` is non-negative, bounds every pixelwise absolute difference, and equals one of them |
| PdMatching.InitialSourceFlags | python/match-pd-forward.py:56-69 | source flags start at −1 except row 0 (the point at infinity), which is paired with target 0 |
| PdMatching.InitialTargetFlags | python/match-pd-forward.py:58-71 | target flags start at −1 except row 0, which is flagged 1 |
| PdMatching.InitialConsistent | python/match-pd-forward.py:56-71 | the initial flags satisfy the matching bookkeeping invariant |
| PdMatching.UnmatchedRows | python/match-pd-forward.py:227-228 | the output holds as many rows as are flagged −1, including every such row |
| PdMatching.UnmatchedRowsIsSelection | python/match-pd-forward.py:227-228 | the output is the mask selection `isMatched == -1` over the rows paired with their flags: exactly the −1 rows, each as often as it occurs, in table order (with `Persistence.SelectIsSubsequence` and `Persistence.SelectMultiplicity`) |
| PdMatching.Cascade.constructor | python/match-pd-forward.py:38-71 | the state holds the four diagrams, `max_error` of the two frames, and the initial flags |
| PdMatching.Cascade.FindStableGeneratorMatches | python/match-pd-forward.py:105-136 | sublevel and superlevel flags advance by one pass with birth and death cells within 5, as `Evolves` allows |
| PdMatching.Cascade.FindStablePinchOffMatches | python/match-pd-forward.py:138-176 | only the sublevel flags change, by a pass over dim-0 rows dying below 170 with death cells within 5; superlevel flags are unchanged |
| PdMatching.Cascade.FindStableRollMatches | python/match-pd-forward.py:180-218 | only the sublevel flags change, by a pass over dim-0 rows dying at 170 or above with birth cells within 5; superlevel flags are unchanged |
| PdMatching.Cascade.FindBottleneckMatches | python/match-pd-forward.py:74-103 | both flag tables advance by one pass with birth and death values within `max_error` |
| PdMatching.Cascade.Run | python/match-pd-forward.py:221-228 | the sublevel flags are those of the stable-generator, pinch-off, roll and bottleneck passes run in that order from the initial flags, the superlevel flags those of the stable-generator and bottleneck passes; the outputs are the rows of frame 1 still at −1 under those flags, and neither unmatched count has grown |
| SingularPointMatching.Types | python/match-singular-points-forward.py:45 | the type list holds each type occurring in frame 1 exactly once |
| SingularPointMatching.TypeRows | python/match-singular-points-forward.py:74-75 | the per-type table holds, with its original row number, every frame-2 point of that type and no other |
| SingularPointMatching.BuildPartition | python/match-singular-points-forward.py:70-78 | the partition has a table for exactly the frame-1 types, each the type's frame-2 rows |
| SingularPointMatching.Nearest | python/match-singular-points-forward.py:88 | the query returns a candidate no farther from the point than any other |
| SingularPointMatching.TypeRowsEmpty | python/match-singular-points-forward.py:74-77 | a type's table is empty exactly when frame 2 has no point of that type |
| SingularPointMatching.MatchPoint | python/match-singular-points-forward.py:85-99 | the match columns name a frame-2 row of the same type, its coordinates and its squared distance, and no same-type frame-2 point is closer |
| SingularPointMatching.MatchForward | python/match-singular-points-forward.py:80-99 | it fails exactly when some frame-1 type has no frame-2 point; otherwise every frame-1 row gets a nearest same-type match |
| SingularPointMatching.SortByTypeAndDistance | python/match-singular-points-forward.py:105 | the result is ordered by type, then distance, and is a permutation of the input |
| SingularPointMatching.Insert | python/match-singular-points-forward.py:105 | inserting a row into a table sorted by type and distance keeps it sorted and adds exactly that row |
| SingularPointMatching.HeadBelowAll | python/match-singular-points-forward.py:105 | a row ordered before the inserted row and before every row of the rest is ordered before every row of the result |
| SingularPointMatching.ReorderedMatches | python/match-singular-points-forward.py:101-105 | a reordering of the per-point match table has |sp1| rows, contains the match row of every frame-1 point, and every row is the nearest match of some frame-1 point |
| SingularPointMatching.MatchSingularPoints | python/match-singular-points-forward.py:101-105 | the whole script: failure exactly as above; otherwise the output is sorted by type and distance and is a permutation (equal multisets) of a table whose row i is a nearest match of frame-1 point i |
| SingularPointMatching.MatchesNeedNotBeUnique | python/match-singular-points-forward.py:107-109 | two frame-1 points can be matched to the same frame-2 point |
| ChainDeviation.ActualChain | python/get-deviation-from-actual.py:70-94 | following a row through the tables records one step per table |
| ChainDeviation.ActualMatchedThrough | python/get-deviation-from-actual.py:70-96 | a row ends with `finalmatch` ≠ −1 exactly when its chain reaches a row of every table, and then it names a row of the last table |
| ChainDeviation.ActualRecordsFollowChain | python/get-deviation-from-actual.py:80-89 | step 1 records the row `finalmatch` names, and later steps are the chain of that row's match through the remaining tables |
| ChainDeviation.FollowActualChains | python/get-deviation-from-actual.py:68-94 | the in-place loop over tables leaves every row with its chain |
| ChainDeviation.RunningMax | python/get-deviation-from-actual.py:139-150 | the running maximum is at least its start and every value, and equals one of them |
| ChainDeviation.RunningMaxExtend | python/get-deviation-from-actual.py:147-150 | each step's `max` extends the running maximum by one value |
| ChainDeviation.RunningMaxStep | python/get-deviation-from-actual.py:147-150 | the running maximum over a sequence is the running maximum over its values from position k on, started from the running maximum over its first k values |
| ChainDeviation.ActualDeviation | python/get-deviation-from-actual.py:129-151 | rows matched through in both chains get the running maximum of −1 and the step distances, others keep −1; tables of different lengths fail |
| ChainDeviation.ActualDeviationBounds | python/get-deviation-from-actual.py:137-150 | with a non-negative distance, the deviation is non-negative and bounds every step distance |
| ChainDeviation.LinearChain | python/get-deviation-from-linear.py:42-59 | following a row through the tables records one (birth, death) per table |
| ChainDeviation.LinearNeedsOnwardMatch | python/get-deviation-from-linear.py:42-61 | unlike the actual script, `finalmatch` also advances at the last table, so a fully followed row counts as matched only when its terminal row is matched onward |
| ChainDeviation.FollowLinearChains | python/get-deviation-from-linear.py:40-59 | the in-place loop over tables leaves every row with its chain |
| ChainDeviation.LinearChainStep | python/get-deviation-from-linear.py:42-59 | one step of the loop keeps each row's `finalmatch` and recorded values on course for its chain |
| ChainDeviation.LinearOffsets | python/get-deviation-from-linear.py:63-74 | there is one offset per step, each the distance at that step between the recorded value and the interpolation line |
| ChainDeviation.RowsRunningMaxStep | python/get-deviation-from-linear.py:76-78 | taking each matched row's maximum with its next offset advances every row's running maximum by one step, and other rows keep −1 |
| ChainDeviation.RowsRunningMaxWhole | python/get-deviation-from-linear.py:61-78 | after every step, each matched row holds the running maximum of all its offsets and other rows −1 |
| ChainDeviation.LinearDeviation | python/get-deviation-from-linear.py:61-78 | rows with `finalmatch` ≠ −1 get the running maximum of −1 and the step-wise distances between the path and its interpolation line, others keep −1 |
| ChainDeviation.StraightPathHasNoLinearDeviation | python/get-deviation-from-linear.py:63-64 | a path lying on the line from its start to its terminal value, at constant speed, deviates from it by 0 |
| ChainDeviation.AsWrittenFlagsStraightPath | python/get-deviation-from-linear.py:69-74 | for a one-step straight path the as-written deviation is the whole displacement (25 for squared distance) |
| ChainDeviation.AsWrittenOffsets | python/get-deviation-from-linear.py:69-74 | there is one as-written offset per step |
| ChainDeviation.SingleStepIsStraight | python/get-deviation-from-linear.py:63-64 | a one-step path always lies on the line from its start to its terminal value |
| Common.TruncToInt | python/computer_vision.py:137 | `astype(int)` truncates toward zero: floor for non-negative values, ceiling for negative ones |
| Patches.RegionCells | python/computer_vision.py:61-64 | the masked cells of a rectangle are exactly the cells inside it that the mask keeps, in row-major order |
| Patches.Crop | python/computer_vision.py:61 | the crop has one value per mask cell, read at the window offset (y − r, x − r) |
| Patches.Bin | python/computer_vision.py:64 | a byte v falls in the bin b < nbins with b·256 ≤ v·nbins < (b+1)·256 |
| Patches.CountHistogram | python/computer_vision.py:64 | the histogram has nbins non-negative counts summing to the number of values |
| Patches.WeightedHistogram | python/computer_vision.py:141-144 | the weighted histogram has nbins entries whose total is the total weight |
| Patches.CountHistogramBin | python/computer_vision.py:64 | bin k counts exactly the values falling in bin k |
| Patches.WeightedHistogramBin | python/computer_vision.py:165-168 | bin k holds the weights of exactly the values falling in bin k |
| KeypointOrientation.MaxOf | python/computer_vision.py:66 | `maxpeak` is at least every histogram value and is one of them |
| KeypointOrientation.Peaks | python/computer_vision.py:68 | bin k is a peak iff its smoothed value is at least `max_factor·maxpeak` |
| KeypointOrientation.LabelsOfPeaks | python/computer_vision.py:71-76 | exactly the peak bins are labelled, and every merged label lies in 1..max label |
| KeypointOrientation.PeakHasLabel | python/computer_vision.py:71 | every peak bin gets a label of at least 1 |
| KeypointOrientation.NoGapWithinRun | python/computer_vision.py:71 | two peak bins with the same run count are joined by peak bins only |
| KeypointOrientation.RunStartNumbered | python/computer_vision.py:71 | every label up to the number of runs so far starts some run |
| KeypointOrientation.RunsUpToMonotone | python/computer_vision.py:71 | the number of runs seen never decreases along the histogram |
| KeypointOrientation.AdjacentPeaksShareLabel | python/computer_vision.py:71 | neighbouring peak bins share their label |
| KeypointOrientation.SameLabelIsOneBlock | python/computer_vision.py:71 | bins with the same label are joined by peak bins, so runs are maximal blocks |
| KeypointOrientation.WrapJoinsRuns | python/computer_vision.py:74-76 | when both end bins are peaks, the last run takes the first run's label |
| KeypointOrientation.ComponentNonempty | python/computer_vision.py:76-81 | every label 1..max after the merge is carried by some bin |
| KeypointOrientation.AllPeaksOneRun | python/computer_vision.py:71 | when every bin is a peak there is a single run |
| KeypointOrientation.AllPeaksLabelOne | python/computer_vision.py:71-76 | when every bin is a peak, every merged label is 1 |
| KeypointOrientation.ZeroPeakMakesAllPeaks | python/computer_vision.py:66-68 | for a non-negative histogram, if an empty bin is a peak then every bin is a peak |
| KeypointOrientation.ScaledDown | python/computer_vision.py:68 | a factor of at most 1 never raises a non-negative maximum, so the threshold is at most `maxpeak` |
| KeypointOrientation.Labels | python/computer_vision.py:71-76 | the label array has one entry per bin, each the bin's merged label |
| KeypointOrientation.TopLabelIsComponentCount | python/computer_vision.py:81 | `max(peak_components)` is the number of runs after the merge |
| KeypointOrientation.ArgMax | python/computer_vision.py:84 | `np.argmax` returns the lowest index attaining the maximum |
| KeypointOrientation.RunValues | python/computer_vision.py:83 | `peak_values` is the histogram on the run and 0 elsewhere |
| KeypointOrientation.PeakEntries | python/computer_vision.py:78-84 | there is one (bin, weight) entry per run after the merge |
| KeypointOrientation.PeakOrientations | python/computer_vision.py:66-84 | the loop over labels 1..max builds exactly the entries of `PeakEntries`, in label order |
| KeypointOrientation.LabelEntries | python/computer_vision.py:78-84 | for a given peak mask, the loop over labels 1..max yields one entry per run, entry l − 1 being run l's (bin, weight) |
| KeypointOrientation.PeakEntriesAre | python/computer_vision.py:78-84 | a sequence with one run entry per label, in label order, is exactly `PeakEntries` |
| KeypointOrientation.RunBinInRun | python/computer_vision.py:81-84 | each run's bin lies in that run, and the run's weight is at least the histogram value at that bin |
| KeypointOrientation.SomeRunExists | python/computer_vision.py:66-68 | for a non-negative histogram and `max_factor` ≤ 1 there is at least one run |
| KeypointOrientation.SmoothedHistogramNonNegative | python/computer_vision.py:64-65 | the smoothed histogram of a keypoint whose window fits has no negative bin |
| KeypointOrientation.InCircleKeypointHasRun | python/computer_vision.py:58-84 | with `max_factor` ≤ 1, every in-circle keypoint whose window fits gets at least one run |
| KeypointOrientation.DiskMask | python/computer_vision.py:49-51 | the mask keeps exactly the cells of the 2r window within distance r of (r, r) |
| KeypointOrientation.SmoothedHistogram | python/computer_vision.py:61-65 | the smoothed histogram of a keypoint has nbins entries |
| KeypointOrientation.ExtraRowsCopyKeypoints | python/computer_vision.py:89-96 | every appended row copies some keypoint's columns and carries one of that keypoint's later runs |
| KeypointOrientation.WriteOrientations | python/computer_vision.py:89-96 | the keypoint's own row gets its first run's (bin, weight), or keeps (0, 0), and one copy is appended for each further run |
| KeypointOrientation.KeypointEntries | python/computer_vision.py:58-84 | a keypoint outside the crop circle gets no runs; a keypoint inside it fails exactly when its window leaves the field, and otherwise gets the runs of its smoothed histogram (`EntriesFor`) |
| KeypointOrientation.RowsExtendKeypoints | python/computer_vision.py:45-46 | once all keypoints are written, every table row is a keypoint followed by two new columns |
| KeypointOrientation.BlankTable | python/computer_vision.py:46 | the keypoints with two zero columns appended are the table before any keypoint is written |
| KeypointOrientation.NextRowBlank | python/computer_vision.py:46 | before keypoint i is written its own row is still the keypoint with (0, 0) |
| KeypointOrientation.TableStep | python/computer_vision.py:89-96 | writing keypoint i's first run and appending copies for the rest extends the table's description by that keypoint |
| KeypointOrientation.TableOfIsTableAfter | python/computer_vision.py:45-96 | the table built from the first keypoints' runs has their rows written, the other rows blank, and the copies after all original rows |
| KeypointOrientation.TableAfterUnique | python/computer_vision.py:45-96 | that description fixes the table completely |
| KeypointOrientation.AssignStep | python/computer_vision.py:53-96 | one loop iteration extends both the run of successful keypoints and the table by keypoint i |
| KeypointOrientation.OutcomesAreEntries | python/computer_vision.py:53-84 | when every keypoint succeeds, no keypoint inside the crop circle has a window that leaves the field, and the collected runs are `AllEntries` |
| KeypointOrientation.AssignedTable | python/computer_vision.py:45-98 | a table described by all keypoints' runs satisfies `Assigned`: own rows in place, copies after them, every row extending a keypoint |
| KeypointOrientation.AssignedIsOrientedTable | python/computer_vision.py:45-98 | `OrientedTable` (the table built from every keypoint's runs) satisfies `Assigned`, and it is the only table that does |
| KeypointOrientation.FinishedTable | python/computer_vision.py:98 | the table after the last keypoint satisfies `Assigned` |
| KeypointOrientation.AssignOrientations | python/computer_vision.py:31-99 | fails iff some keypoint inside the crop circle has a window that leaves the field (one outside the circle is skipped whatever its window); otherwise rows keep their positions with (bin, weight) or (0, 0) appended, extra rows follow all originals, and every row extends a keypoint |
| Descriptor.InnerRadius | python/computer_vision.py:116 | `int(R·factor)` is the floor of R·factor for non-negative factors |
| Descriptor.ScriptInnerRadius | python/get-keypoint-descriptors.py:48-50 | the script's inner radius is 10 |
| Descriptor.RotateIsShift | python/computer_vision.py:137 | the rotation shifts a byte by the rotation in byte units, truncated and wrapped modulo 256, so the result is always a byte |
| Descriptor.RotateZero | python/computer_vision.py:160 | a zero rotation leaves every value unchanged |
| Descriptor.RotateHalfTurn | python/computer_vision.py:137 | a 180° rotation moves v to (v + 255) mod 256 |
| Descriptor.RotatedValues | python/computer_vision.py:137 | every value of the window is rotated |
| Descriptor.QuadrantCells | python/computer_vision.py:141-144 | the quadrant's cells are exactly the kept cells with rows and columns in [0, r) or [r+1, 2r) |
| Descriptor.QuadrantsSkipCentreCross | python/computer_vision.py:165-168 | a cell lies in some quadrant iff it is off the centre row and the centre column, and then in only one |
| Descriptor.OuterMaskIsAnnulus | python/computer_vision.py:148-154 | the outer mask keeps exactly the cells with r < distance ≤ R from the centre |
| Descriptor.Cells | python/computer_vision.py:141-144 | every region cell lies inside the region's window |
| Descriptor.RegionValues | python/computer_vision.py:157-160 | a region yields one rotated field value per cell |
| Descriptor.RegionWeights | python/computer_vision.py:121-125 | inner regions read the weight grid at offset R − r (its central 2r window), outer regions read it directly |
| Descriptor.RegionHistogram | python/computer_vision.py:165-168 | a region's histogram has nbins entries summing to the region's masked weights |
| Descriptor.FeatureVector | python/computer_vision.py:102-174 | the vector exists iff both windows lie inside the field, and then it has 8·nbins values |
| Descriptor.FeatureVectorLayout | python/computer_vision.py:172 | slice j is the histogram of region j, in the order inner UL, UR, LL, LR, then outer UL, UR, LL, LR, and sums to that region's weights |
| Descriptor.OriginOutsideCircle | python/get-keypoint-descriptors.py:60-63 | with the crop radius half the bitmap height less 30, (0, 0) lies outside the circle of any bitmap of at least 32 rows |
| Descriptor.ScriptUpperSaddlesOutsideCircle | python/get-keypoint-descriptors.py:93-165 | every row of the script's upper-saddle block, and every row that starts with its x and y, is outside the crop circle. So the script orients and describes no upper saddle |
| Descriptor.DescriptorRowShape | python/get-keypoint-descriptors.py:158-166 | a row is described iff it has an orientation column, the bitmap holds (y, x) and both windows fit; its descriptor then starts with the row's own columns and has 1 + 96 more values |
| Descriptor.Join | python/get-keypoint-descriptors.py:166 | the output row is the keypoint's columns, then the intensity, then the features, each part recoverable by slicing |
| Descriptor.FilteredStep | python/get-keypoint-descriptors.py:156-170 | one more table row leaves the run unchanged when it is outside the circle, and otherwise appends its descriptor or makes the run fail |
| Descriptor.FilteredFailureSticks | python/get-keypoint-descriptors.py:156-170 | once a prefix of the table fails, the whole run fails |
| Descriptor.CollectKept | python/get-keypoint-descriptors.py:156-170 | the loop yields, in table order, the descriptors of exactly the rows inside the circle, or failure at the first such row that cannot be described |
| Descriptor.OrientedRows | python/get-keypoint-descriptors.py:153 | the orientation step fails iff some keypoint inside the crop circle has a window that leaves the field, and otherwise the table is exactly `KeypointOrientation.OrientedTable` of the ten-column input rows — each keypoint's own row with its first run, then the copies for the extra runs — and every row extends an input keypoint |
| Descriptor.DescriptorExtendsKeypoint | python/get-keypoint-descriptors.py:158-166 | the descriptor of a ten-column keypoint with two new columns has 109 values and starts with that keypoint |
| Descriptor.KeypointDescriptors | python/get-keypoint-descriptors.py:150-170 | a keypoint inside the crop circle whose orientation window leaves the field makes the run fail; when no keypoint fails the output is `Described` of `KeypointOrientation.OrientedTable` of the input rows: the descriptor of each in-circle row in table order, or failure at the first row that cannot be described; every output row has 109 values and starts with the 10 columns of some input keypoint |
| Descriptor.DescriptorRowsExtendKeypoints | python/get-keypoint-descriptors.py:153-170 | when every oriented row extends a 10-column keypoint, every descriptor row has 109 values starting with such a keypoint |

## Left out

- Reading and writing CSV files, images and YAML, and printing, are left out. This includes the diagnostics for matches farther than 5 and for duplicate matches in `match-singular-points-forward.py`. Inputs are sequences.
- `orientation_field`, `fourier_diff` and `emb_wavenumber` in `numerical_analysis.py` are not part of this model. They are floating-point library numerics.
- Floating-point rounding is left out. Reals are exact, so `PI` is a decimal constant and the rotation formula is exact before its truncation.
- The Gaussian smoothing of the orientation histogram (`computer_vision.py:65`) is a parameter. It is required to keep the histogram's length (`KeypointOrientation.ValidSetup`); the lemmas about the number of runs also require it to keep a non-negative histogram non-negative (`KeypointOrientation.SmoothingKeepsSign`), as a filter with non-negative weights does. The weight grid of `getFeatureVector` (lines 121-125) is an input grid, so the sigma divisor is not modelled.
- `convertMainOrientationBin` is not modelled. Its result is discarded at `computer_vision.py:90`.
- Numpy's negative-index wrap-around is left out. A window starting above or left of the field is treated like one leaving it on the other side: an in-circle keypoint with such a window fails.
- The KD-tree is replaced by a brute-force nearest candidate. Among equally near candidates the model takes the first; the tree's tie choice is not modelled.
- SingularPointMatching.MatchForward: when a frame-1 type has no frame-2 point, the model stops with failure. The behaviour of a tree built on no points is not modelled, so the initial −1 match columns are never observable in the model.
- SingularPointMatching.SortByTypeAndDistance: the contract states order and permutation only. Both this insertion sort and the script's two-key `sort_values` keep rows with equal type and distance in frame-1 order, but that tie order is not stated.
- SingularPointMatching.MatchPoint: the `matcheddist` column holds the squared distance, while the script stores the Euclidean distance of the tree query (`match-singular-points-forward.py:88`, stored at line 99). The square root keeps the order, so the nearest point and the sorted order are the same; the stored value is not.
- The Euclidean distance of the deviation scripts is a parameter `dist`.
- ChainDeviation.ActualDeviation: a length mismatch between the two tables is modelled as failure. With at least one step the script also fails, at `get-deviation-from-actual.py:145`, where `.loc` receives a boolean mask indexed by the rows common to both tables, which cannot be aligned with the longer table. With no steps the script does not reach that line, but the model still fails. The rows of the pandas merges are assumed aligned by row index.
- ChainDeviation.LinearDeviation: it uses the corrected offsets of `LinearOffset`, not lines 69-74 as written; the as-written offsets are `AsWrittenOffset` (see Findings).
- The output-file projection of `get-deviation-from-actual.py` (lines 155-176) is not modelled.
- A table row narrower than the orientation column fails in the script at `get-keypoint-descriptors.py:158-161` whatever its position, since x, y and the orientation are read before the circle test. In `Descriptor.Described` a row with fewer than 2 columns is skipped, and a row with 2 to 10 columns fails only when it lies in the circle. The oriented table always has 12 columns, so `Descriptor.KeypointDescriptors` never meets such a row.
- Descriptor rows are modelled as reals. The `%d` formatting of `savetxt` and the single-row output branch are not modelled.
- Descriptor.KeypointDescriptors: when no row lies in the circle it returns `Some([])`. The script instead fails at `get-keypoint-descriptors.py:173`: `allFeatures` is still the list `[]` from line 148, and a list has no `shape`.
- `assignOrientations` stores the first run's weight in the integer keypoint table. Weights are integers here because the smoothed histogram is an integer histogram, so no truncation is modelled.
- The cascade's commented-out superlevel loops of the pinch-off and roll passes are not modelled.

## Findings

| source | as written | input that shows it | evidently intended | confidence | as-written member | corrected member |
|---|---|---|---|---|---|---|
| python/get-keypoint-descriptors.py:93 | the upper-saddle group is `concat([ph_lower_saddles, ph_tmp])`. It drops the superlevel dim-0 death cells selected at line 89. It copies every lower saddle instead, but the columns come out sorted, so each copy reads as (0, 0) with its x and y in td_p2 and td_m2. Those rows lie outside the crop circle, so no upper saddle is described | one superlevel pair dim 0, birth 150, death 130, death cell (7, 8), with no other rows: the script's table is empty | `concat([ph_upper_saddles, ph_tmp])`, as in `data_access.py:60`, keeping the death cell (7, 8) flagged ph_sup_0 | not executed | KeypointTable.ScriptDropsUpperSaddleDeathCells | KeypointTable.LoadKeypointsComplete |
| python/get-deviation-from-linear.py:69-74 | L_i interpolates towards the step-i value itself, and the distance is taken from L_i to the start | start (10, 20), one step recorded at (13, 24), squared distance: the path is the straight line itself, yet the deviation is 25 | interpolate towards the terminal value and measure the distance from L_i to the step-i value, giving 0 on a straight path | not executed | ChainDeviation.AsWrittenFlagsStraightPath | ChainDeviation.StraightPathHasNoLinearDeviation |
