# Verified model of the SpiralLens research instrument

A Dafny model of the hardest parts of the SpiralLens P4 instrument, with proofs of what those parts are for.

- **Discrete topology** (`GridSums`, `Winding`, `LoopReadout`, `VortexReadout`, `Conservation`, `SpatialFidelity`,
  `LocatorRecords`, `Scoring`, `ScoredReadings`, `ScoreVerdicts`, `SparseDomain`, `RectangleChains`).
  The locator marks grid cells where a sampled plane field may vanish, groups them and draws a loop round each group. The
  model proves the discrete argument principle behind it: the angle total round the whole grid is the sum of the totals round
  the groups. The triangulated domain's boundary maps are proved to satisfy their run-time identities for every side and
  rectangle, and the padded assignment of the score to be a faithful reduction; where several minima tie, it is proved exactly
  when the verdict depends on the one the solver returns.
- **Error enclosures** (`Complex`, `Modulus`, `QuadraticBounds`, `CenterIdentifiability`, `InferenceStatus`,
  `InferenceExact`, `ErrorEnvelope`). Centre, discriminant, separation and root regions enclose every true quadratic that
  explains the fit, each status is reported exactly when its condition holds, and the error radii come from an envelope
  that only gets wider with more calibration.
- **Graphs and selection** (`Graphs`, `NeighbourSets`, `GraphReceipts`, `ComponentLabels`, `CycleRank`, `TwoCore`,
  `BoundedSearch`, `CoreComponents`, `SparseNeighbours`, `SparseEdges`, `SparseGraphs`, `SparseFamilies`, `Rationals`,
  `LawSelection`, `LawChecks`). Every search and construction is proved against a definition that mentions no search.
- **Protocols** (`PublicationFs`, `PublicationProtocol`, `PublicationPairStates`, `PublicationRepair`,
  `PublicationRefinement`, `PublicationConflict`, `PublicationLooks`, `CampaignRunner`, `CampaignReasons`).
  The two-location publisher is a state machine over four directory entries, inodes, partial writes and any number of
  processes that may crash at any system call. The same calls are also a class that one process runs alone, which is proved
  to follow paths of the state machine.
- **Point diagnostics** (`SegmentDiagnostics`, `PointDiagnostics`, `SampledRuns`).

Code that changes things step by step is modelled by methods and classes proved against specification functions; the theorems
are lemmas about those functions and about all runs. `Basics`, `Permutations`, `SortedSets` and `Sorting` hold shared facts.

Conventions of the model:

- Numbers are exact reals; angles are measured in turns. Library functions appear as parameters with a stated contract: the
  principal angle (`Winding.IsAngle`), square roots and moduli (`Modulus.Roots.Valid`), the norm (`SegmentDiagnostics.IsHypot`),
  the labelling of candidate cells (`SpatialFidelity.IsLabelling`), a minimum-cost permutation (`Scoring.IsOptimal`), the edge
  codes (`SparseDomain.IsEdgeList`), and candidate queries (`SparseFamilies.Complete`).
- What the kernel, the clock, the disk or a child process decides is a parameter (`PublicationProtocol.Choice`,
  `PublicationRepair.Kernel`, `CampaignRunner.World`).
- Winding conservation is stated for the located state; in the below-floor state there is no outer winding at all.
- The documented crash states are five. With several processes the code can leave them, and `PublicationPairStates` says
  exactly when: a run reaches a pair state outside the five if and only if an exclusive create of a stage succeeds beside
  the final of its location, which another process put there after the creating one had looked. Processes that run one
  after another, publishers or repairers, never do; two publishers can, and so can a publisher and a repairer
  (`PublicationConflict`). The safety theorems (finals never replaced, never half-written, paired bytes, one winner) hold
  for any number of processes, and a process that reports success has itself looked for such a stage
  (`PublicationLooks`).

`dafny verify dfyconfig.toml` checks the whole project.

## Model

| member | source | states |
|---|---|---|
| Winding.PrincipalStepReverses | scripts/prototype_p4_one_arm_zoom_v0_1.py:112-112 | the principal angle of w times conj(z) is a step in (-1/2, 1/2] turns that reverses unless it is exactly half a turn |
| Winding.PrincipalStepOnSides | scripts/prototype_p4_one_arm_zoom_v0_1.py:112-112 | within each coordinate half-plane the steps are additive |
| Winding.PrincipalStepDetours | scripts/prototype_p4_one_arm_zoom_v0_1.py:112-112 | and it is additive up to whole turns everywhere |
| Winding.PrincipalStepSign | scripts/prototype_p4_one_arm_zoom_v0_1.py:112-112 | the step from z to w is positive exactly when w lies to the left of z, negative exactly to the right, and half a turn exactly on the opposite ray |
| Winding.PrincipalStepLaws | scripts/prototype_p4_one_arm_zoom_v0_1.py:112-112 | so the step the estimator takes satisfies every law the conservation theorems rest on |
| Winding.ClosedAngleIsWholeTurns | src/spirallens/topology/winding.py:61-69 | the closed angle of any loop of nonzero samples is a whole number of turns |
| Winding.ReasonsExact | src/spirallens/topology/winding.py:61-90 | each reason by the samples: the floor reason exactly when some sample is at or below the floor, the branch reason exactly when some edge angle is outside the admitted range, the increment reason exactly when no integer is within the tolerance of the closed angle |
| Winding.DiagnosticExact | scripts/prototype_p4_one_arm_zoom_v0_1.py:90-139 | a winding is reported exactly when every sample is above the floor and every edge angle inside the admitted range; the non-integer gate alone never fires; a reported winding is the closed angle |
| Winding.OriginFree | scripts/prototype_p4_one_arm_zoom_v0_1.py:106-139 | the reading of a loop does not change when the loop starts at its next sample |
| Winding.BackwardsNegates | scripts/prototype_p4_spatial_fidelity_v0_1.py:113-117 | a reliable loop read in reverse is reliable and has the opposite winding |
| LoopReadout.RectangleLoopAdmissible | scripts/prototype_p4_spatial_fidelity_v0_1.py:431-439 | every rectangle loop in the grid has at least four different rows, all in range: the estimator's input demands are met |
| LoopReadout.StoredSamples | scripts/prototype_p4_spatial_fidelity_v0_1.py:455-456 | the rows fetched from the stored grid are the samples at the loop's grid points |
| VortexReadout.TurnsOnce | scripts/prototype_p4_spatial_fidelity_v0_1.py:431-477 | a rectangle loop whose bottom, right, top and left sides lie in the lower, right, upper and left half-plane of the field has a closed angle of one full turn |
| VortexReadout.TurnsBackOnce | scripts/prototype_p4_spatial_fidelity_v0_1.py:431-477 | and of minus one turn when upper and lower half-plane change places |
| VortexReadout.SimpleZeroCharge | scripts/prototype_p4_spatial_fidelity_v0_1.py:452-477 | every rectangle loop round the zero of z - p has closed angle one and reads +1, round the zero of its conjugate minus one and -1 |
| Conservation.SkippedCellSide | scripts/prototype_p4_spatial_fidelity_v0_1.py:365-370 | all four corners of a cell that the locator skips lie in one open coordinate half-plane |
| Conservation.SkippedExactly | scripts/prototype_p4_spatial_fidelity_v0_1.py:365-370 | and a cell is skipped exactly when its four corners lie in one coordinate half-plane by more than the slack |
| Conservation.SkippedCellQuiet | scripts/prototype_p4_spatial_fidelity_v0_1.py:365-370 | round a skipped cell the angle steps cancel exactly, and each of its steps reverses |
| Conservation.AngleConserved | scripts/prototype_p4_spatial_fidelity_v0_1.py:365-422 | the angle total round the domain equals the sum of the totals round any disjoint boxes that contain every candidate cell |
| SpatialFidelity.AxisExtent | scripts/prototype_p4_spatial_fidelity_v0_1.py:374-381 | least and greatest candidate index along one axis, and the mean of the cell centres, which lies strictly between the box edges |
| SpatialFidelity.DescribeComponent | scripts/prototype_p4_spatial_fidelity_v0_1.py:373-411 | one component record: cell count, tight box, loop box grown by one cell and clipped to the grid, position, clipped and nonlocal reasons exactly when they apply |
| SpatialFidelity.FlagOverlaps | scripts/prototype_p4_spatial_fidelity_v0_1.py:412-422 | after the pair loop a component carries the overlap reason exactly when its loop box meets another one; all else is unchanged |
| LocatorRecords.LocatedCells | scripts/prototype_p4_spatial_fidelity_v0_1.py:365-411 | the cells of the located components are exactly the cells whose corners are not on one side by more than the slack |
| LocatorRecords.LoopBoxCells | scripts/prototype_p4_spatial_fidelity_v0_1.py:382-387 | the loop box holds exactly the grid cells at most one cell away from the tight box |
| LocatorRecords.ClippedAtRim | scripts/prototype_p4_spatial_fidelity_v0_1.py:389-390 | a component is clipped exactly when one of its cells is at the rim of the grid |
| LocatorRecords.NonlocalSpans | scripts/prototype_p4_spatial_fidelity_v0_1.py:391-392 | and nonlocal exactly when it spans more than a quarter of the grid along an axis |
| LocatorRecords.OverlapSharesVertex | scripts/prototype_p4_spatial_fidelity_v0_1.py:412-422 | two loop boxes overlap exactly when they share a grid vertex |
| LocatorRecords.CellsOnce | scripts/prototype_p4_spatial_fidelity_v0_1.py:373-408 | the counted cells are exactly the cells of the component, each once, and the position is the balance point of their centres along both axes |
| VortexReadout.VortexMarksItsCell | scripts/prototype_p4_spatial_fidelity_v0_1.py:365-370 | the locator marks exactly the cell of a simple zero that is further than the slack from its sides |
| SpatialFidelity.Locate | scripts/prototype_p4_spatial_fidelity_v0_1.py:342-428 | rejection exactly for a field that is no square grid of at least five by five, the below-floor state exactly when every sample is at or below the floor, otherwise one correct record per label |
| SpatialFidelity.ReadLocalLoops | scripts/prototype_p4_spatial_fidelity_v0_1.py:442-477 | every component loop and the outer loop are read from the rows of their rectangle; a component is unresolved for the union of its reasons and its readout's |
| ScoredReadings.ReadingExact | scripts/prototype_p4_spatial_fidelity_v0_1.py:452-472 | a component counts as resolved and charged exactly when the locator gave no reason against it, every sample is above the floor, every edge angle is in range and its closed angle is not zero |
| ScoredReadings.ResolvedChargesExact | scripts/prototype_p4_spatial_fidelity_v0_1.py:482-484 | the scored charges are the windings of exactly the resolved charged components, in the order of the components |
| SpatialFidelity.Reconstruct | scripts/prototype_p4_spatial_fidelity_v0_1.py:342-477 | locating and then reading gives exactly the reading the conservation theorems speak of |
| SpatialFidelity.LocatorSeparates | scripts/prototype_p4_spatial_fidelity_v0_1.py:371-422 | when no overlap reason was given the loop boxes are disjoint, hold every candidate cell, and have quiet rims |
| SpatialFidelity.AngleTotalsConserved | scripts/prototype_p4_spatial_fidelity_v0_1.py:365-477 | on every grid and field without an overlap reason, the outer angle total is the sum of the angle totals of all component loops |
| SpatialFidelity.WindingConserved | scripts/prototype_p4_spatial_fidelity_v0_1.py:452-477 | with all loops reliable and none overlapping, the outer winding is the sum of the component windings |
| SpatialFidelity.PrincipalConservation | scripts/prototype_p4_spatial_fidelity_v0_1.py:365-477 | both conservation results for the estimator's own step, the principal angle |
| SpatialFidelity.BelowFloorHasNoWinding | scripts/prototype_p4_spatial_fidelity_v0_1.py:359-362 | a field in the below-floor state never yields an outer winding |
| Scoring.FillCost | scripts/prototype_p4_spatial_fidelity_v0_1.py:486-493 | the cost matrix, filled block by block: distance or 1000000, 0.05 against either dummy side, 0 between dummies |
| Scoring.OptimalAvoidsForbidden | scripts/prototype_p4_spatial_fidelity_v0_1.py:489-496 | a minimum-cost permutation never pairs a candidate with a truth further than 0.10 |
| Scoring.CostIsValue | scripts/prototype_p4_spatial_fidelity_v0_1.py:488-496 | the cost of an admissible permutation is the value of its matching: total distance plus 0.05 per unmatched item on either side |
| Scoring.ExtractedMatchingOptimal | scripts/prototype_p4_spatial_fidelity_v0_1.py:488-496 | the matching read off any minimum-cost permutation is a partial injection without a pair longer than 0.10, and no partial injection has a smaller value |
| Scoring.ScoreMatches | scripts/prototype_p4_spatial_fidelity_v0_1.py:495-518 | each record names a candidate, the truth the solver gave it, their distance, at most 0.10, and whether their charges agree; records go up by candidate and none is missing; matches plus missed truths are all truths, matches plus false positives all candidates, and exact structure is reported exactly when it holds |
| ScoreVerdicts.ExactByMatching | scripts/prototype_p4_spatial_fidelity_v0_1.py:517-518 | exact structure means: every candidate is matched, each to a truth of its own charge, and no truth is left over |
| ScoreVerdicts.MinimumIsBest | scripts/prototype_p4_spatial_fidelity_v0_1.py:494-496 | every minimum of the solver is read off as a matching of least value |
| ScoreVerdicts.BestIsMinimum | scripts/prototype_p4_spatial_fidelity_v0_1.py:494-496 | and every matching of least value is read off some minimum, so the solver may return any of them |
| ScoreVerdicts.VariesIffTied | scripts/prototype_p4_spatial_fidelity_v0_1.py:494-518 | the verdict depends on the solver's choice exactly when an exact and an inexact matching tie for the least value |
| ScoreVerdicts.CrossingVaries | scripts/prototype_p4_spatial_fidelity_v0_1.py:494-518 | it does for two candidates and two truths of opposite charges, all at distance 0.05 |
| ScoreVerdicts.LimitVaries | scripts/prototype_p4_spatial_fidelity_v0_1.py:488-518 | and for one candidate exactly at the limit from its truth |
| ScoreVerdicts.EqualSizesAgree | scripts/prototype_p4_spatial_fidelity_v0_1.py:494-518 | when all truths within the limit of a candidate share one charge, best matchings with equally many matches have the same verdict |
| ScoreVerdicts.UncontestedForced | scripts/prototype_p4_spatial_fidelity_v0_1.py:488-518 | when nothing lies exactly at the limit and no two candidates or truths compete, every minimum gives the same matches and verdict |
| ScoreVerdicts.UncontestedVerdict | scripts/prototype_p4_spatial_fidelity_v0_1.py:488-518 | and then the structure is exact exactly when there are as many candidates as truths and each has a truth of its own charge within the limit |
| Scoring.ExactChargesAgree | scripts/prototype_p4_spatial_fidelity_v0_1.py:517-518 | under an exact score the measured charges are a reordering of the true charges, so their totals agree |
| Scoring.ExactScoreFixesOuterCharge | scripts/prototype_p4_spatial_fidelity_v0_1.py:517-524 | with nothing unresolved and a reliable outer loop, an exact local score forces the outer winding to be the sum of the true charges |
| SparseDomain.CodesDecode | scripts/p4_sparse_graph_backend_v0_1.py:115-121 | the sorted unique codes decode to each edge of the triangulated square exactly once |
| SparseDomain.BoundaryOfBoundary | scripts/p4_sparse_graph_backend_v0_1.py:123-139 | d1 after d2 is zero at every vertex and face for every side, so the identity error is unreachable |
| RectangleChains.FaceEntries | scripts/p4_sparse_graph_backend_v0_1.py:110-135 | the boundary of a face is +1 or -1 at each of its sides, by the order of the face, and zero elsewhere |
| RectangleChains.SideEnds | scripts/p4_sparse_graph_backend_v0_1.py:123-130 | the boundary of a directed side is its end less its start |
| SparseDomain.SelectedByCell | scripts/p4_sparse_graph_backend_v0_1.py:145-150 | a face is selected exactly when its cell lies in the rectangle's index box |
| RectangleChains.BoxExact | scripts/p4_sparse_graph_backend_v0_1.py:79-90 | the index rectangle spans exactly the columns and rows whose values lie within the declared bounds; there is none exactly when these are not at least two of each |
| SparseDomain.Stokes | scripts/p4_sparse_graph_backend_v0_1.py:145-159 | for every increasing axis and every supported rectangle, the boundary of the selected faces equals the signed counter-clockwise loop at every edge |
| SparseDomain.RectangleLoopIsSimple | scripts/p4_sparse_graph_backend_v0_1.py:79-97 | every edge of the loop of a supported rectangle is an edge of the domain, and none is used twice |
| SparseDomain.LoopChain | scripts/p4_sparse_graph_backend_v0_1.py:153-157 | one signed assignment per loop edge writes exactly the loop's coefficient at every edge |
| RectangleChains.LoopEntries | scripts/p4_sparse_graph_backend_v0_1.py:153-157 | the chain of a simple loop is +1 or -1 at each of its edges by the direction it is run through, and zero at every other edge |
| RectangleChains.BoundaryEntries | scripts/p4_sparse_graph_backend_v0_1.py:143-159 | so is the boundary of the selected faces along the counter-clockwise rectangle |
| SparseDomain.CheckRectangle | scripts/p4_sparse_graph_backend_v0_1.py:143-159 | the comparison of induced and expected chain always agrees; a loop exists exactly when the rectangle has two-dimensional support |
| SparseDomain.DeclaredRectanglesSupported | scripts/p4_sparse_graph_backend_v0_1.py:35-41 | for every side of at least nine all five declared rectangles are supported |
| CenterIdentifiability.CurvatureSplit | scripts/prototype_p4_center_identifiability_v0_1.py:394-395 | the three curvature coefficients split the fitted quadratic part into its z squared, conj(z) squared and modulus squared parts |
| InferenceStatus.ShapeExists | scripts/prototype_p4_center_identifiability_v0_1.py:394-395 | so every fit has a shape: three coefficients whose split is its quadratic part at every point |
| InferenceStatus.ShapeUnique | scripts/prototype_p4_center_identifiability_v0_1.py:394-395 | and no other three coefficients are |
| InferenceStatus.StatusByShape | scripts/prototype_p4_center_identifiability_v0_1.py:375-461 | the readout by the shape of the fit: a held-out failure, one of the two orientations, an affine status or out of family exactly when the three coefficients are none, the one, the other, all or neither within their limits |
| CenterIdentifiability.NoMismatch | scripts/prototype_p4_center_identifiability_v0_1.py:453-467 | for every truth that explains the fit the mismatch branch is never taken |
| CenterIdentifiability.EnclosuresSound | scripts/prototype_p4_center_identifiability_v0_1.py:468-500 | true centre in the centre disk, true separation in its interval, true roots paired with the estimated ones within the root radius |
| CenterIdentifiability.DiscriminantEnclosed | scripts/prototype_p4_center_identifiability_v0_1.py:468-473 | the true discriminant lies in the discriminant disk |
| CenterIdentifiability.TwoRequiredSound | scripts/prototype_p4_center_identifiability_v0_1.py:474-489 | the status for two roots proves that the true roots differ |
| InferenceExact.TwoRequiredExact | scripts/prototype_p4_center_identifiability_v0_1.py:474-489 | a supported fit without a mismatch is reported as two roots exactly when no discriminant within the discriminant radius is zero |
| InferenceExact.SeparationRange | scripts/prototype_p4_center_identifiability_v0_1.py:474-489 | lower and upper are the least and the greatest separation of a discriminant within that radius, both attained |
| InferenceExact.EstimatesSolveFit | scripts/prototype_p4_center_identifiability_v0_1.py:468-482 | the estimated roots are the zeros of the fitted quadratic, the centre and the discriminant theirs |
| InferenceExact.CenterRadiusAttained | scripts/prototype_p4_center_identifiability_v0_1.py:468-473 | some quadratic within the coefficient bounds has its centre exactly at the edge of the centre disk, so the radius is no larger than it must be |
| InferenceExact.QuotientRadiusAttained | scripts/prototype_p4_center_identifiability_v0_1.py:468-473 | so it is with the quotient of the constant by the leading coefficient |
| InferenceExact.DiscriminantRadiusAttained | scripts/prototype_p4_center_identifiability_v0_1.py:468-473 | and some centre and quotient within their radii have their discriminant exactly at the edge of the discriminant disk |
| InferenceExact.MismatchExact | scripts/prototype_p4_center_identifiability_v0_1.py:453-467 | the mismatch is reported exactly when no linear coefficient of the orientation explains both fitted line coefficients within the radii and the margin |
| InferenceExact.NoCoreExact | scripts/prototype_p4_center_identifiability_v0_1.py:431-435 | the no-core status is reported exactly when every affine field whose coefficient moduli are within the radii of the fitted ones stays above the floor on the whole square |
| InferenceExact.DisjointExact | scripts/prototype_p4_center_identifiability_v0_1.py:478-500 | the regions are disjoint exactly when no point lies in both root regions |
| CenterIdentifiability.DisjointRegionsIsolate | scripts/prototype_p4_center_identifiability_v0_1.py:478-500 | disjoint root regions imply the status for two roots, and each region holds exactly one true root |
| CenterIdentifiability.TrueRootsAreZeros | scripts/prototype_p4_center_identifiability_v0_1.py:468-482 | every truth that explains a supported fit has two roots, which are exactly the zeros of its field |
| CenterIdentifiability.NoCoreSound | scripts/prototype_p4_center_identifiability_v0_1.py:431-435 | under the no-core status every affine field in the error disks stays above the floor on the whole square |
| CenterIdentifiability.ZeroCompatibleExact | scripts/prototype_p4_center_identifiability_v0_1.py:424-430 | for every fit and radii: zero-compatible is reported exactly when some affine field that vanishes on the whole square explains the fit |
| CenterIdentifiability.AffineTruthReported | scripts/prototype_p4_center_identifiability_v0_1.py:424-440 | an affine truth that explains the fit gets one of the three affine statuses, zero-compatible when it vanishes, and never the no-core status when it comes down to the floor anywhere on the square |
| CenterIdentifiability.OrientationReported | scripts/prototype_p4_center_identifiability_v0_1.py:442-461 | an orientation is reported exactly when the held-out error is within the margin and that orientation is supported |
| CenterIdentifiability.RadiusMonotone | scripts/prototype_p4_center_identifiability_v0_1.py:453-500 | wider radii never shrink a disk or the interval and never turn one root not excluded into two required |
| CenterIdentifiability.InferenceSound | scripts/prototype_p4_center_identifiability_v0_1.py:375-503 | read off the public result, for every truth of the reported orientation that explains the fit: centre, discriminant and separation enclosed, roots paired, distinct roots under two required, and each disjoint region holds exactly one true root |
| CenterIdentifiability.TruthReported | scripts/prototype_p4_center_identifiability_v0_1.py:375-503 | every truth of the family whose leading coefficient clears the floor by the margin is reported with its own orientation and so enclosed, and the two enclosed roots are exactly the zeros of its field |
| CenterIdentifiability.ConjugationSymmetry | scripts/prototype_p4_center_identifiability_v0_1.py:375-503 | in every branch of the inference, conjugating the residual swaps the orientation and keeps status, centre, radii, interval and root set |
| ErrorEnvelope.WidestIsLeast | scripts/prototype_p4_center_identifiability_v0_1.py:239-241 | the row radii less the margin are the least radii covering every cohort pair |
| ErrorEnvelope.CohortsCovered | scripts/prototype_p4_center_identifiability_v0_1.py:217-248 | the radii of a made row cover, with the margin, how the coefficients of any two consecutive cohorts differ |
| ErrorEnvelope.CohortsAttain | scripts/prototype_p4_center_identifiability_v0_1.py:217-248 | and each radius is the margin above the difference of some two consecutive cohorts |
| ErrorEnvelope.DenominatorExact | scripts/prototype_p4_center_identifiability_v0_1.py:203-206 | the denominator lists every repeat count with every hypothesis, once, counts outermost |
| ErrorEnvelope.PairedSeedsExact | scripts/prototype_p4_center_identifiability_v0_1.py:187-194 | cohorts can be paired exactly when there is an even positive number of different seeds |
| ErrorEnvelope.MorePairsWiden | scripts/prototype_p4_center_identifiability_v0_1.py:219-241 | further cohort pairs never shrink the radii |
| ErrorEnvelope.MoreCohortsStayCautious | scripts/prototype_p4_center_identifiability_v0_1.py:219-241 | so further calibration never turns one root not excluded into two required |
| ErrorEnvelope.StoreReport | scripts/prototype_p4_center_identifiability_v0_1.py:195-215 | a report is accepted exactly when its role, denominator and joins are right, and then every reference is stored under its key |
| ErrorEnvelope.MakeRow | scripts/prototype_p4_center_identifiability_v0_1.py:217-248 | one row: the differences of every pair of consecutive cohorts, and their coordinatewise maximum plus the margin |
| ErrorEnvelope.MakeEnvelope | scripts/prototype_p4_center_identifiability_v0_1.py:187-257 | an envelope is made exactly from complete ordered cohort pairs, with one row per repeat count and hypothesis in order |
| ErrorEnvelope.MadeEnvelopeValidates | scripts/prototype_p4_center_identifiability_v0_1.py:260-299 | every envelope that is made passes the validation it meets whenever it is loaded |
| ErrorEnvelope.ValidRadiiCover | scripts/prototype_p4_center_identifiability_v0_1.py:283-297 | a valid envelope's radii are nonnegative and cover each of its pairs with the margin |
| ErrorEnvelope.PairsDisjoint | scripts/prototype_p4_center_identifiability_v0_1.py:279-287 | no two pairs of a valid envelope share a cohort |
| ErrorEnvelope.ValidationDetermines | scripts/prototype_p4_center_identifiability_v0_1.py:260-299 | two valid envelopes over the same seeds and counts with the same differences are the same: nothing else can be altered without failing the validation |
| PublicationProtocol.ActKeepsInv | scripts/publish_pythia70_gate_state_next_hypotheses.py:1117-1491 | every system call of every process keeps the file system invariant, its own process's and disturbs no final and no other process's file |
| PublicationProtocol.RunKeepsInv | scripts/publish_pythia70_gate_state_next_hypotheses.py:1392-1657 | the invariant holds in every state of every interleaving, with crashes at any step |
| PublicationProtocol.FinalsNeverReplaced | scripts/publish_pythia70_gate_state_next_hypotheses.py:1320-1389 | in every run no final file is ever replaced, removed or altered |
| PublicationProtocol.FinalsWholeAndPaired | scripts/publish_pythia70_gate_state_next_hypotheses.py:1553-1573 | in every run no final is seen half-written, and a repository final has an external final with identical bytes |
| PublicationProtocol.SuccessIsPermanent | scripts/publish_pythia70_gate_state_next_hypotheses.py:1565-1573 | a process that reports success has both finals with its bytes, then and ever after |
| PublicationLooks.SuccessLooked | scripts/publish_pythia70_gate_state_next_hypotheses.py:1320-1573 | in every run a process that reports success has seen no stage beside the final it put into the repository, at both looks of the promotion, nor at either location when it confirmed the pair; a publisher has seen none at both looks at the external location |
| PublicationProtocol.ExternalFinalAuthored | scripts/publish_pythia70_gate_state_next_hypotheses.py:1392-1446 | the external final holds exactly the bytes one publisher was started with, and that publisher created it |
| PublicationProtocol.OnePublisherWins | scripts/publish_pythia70_gate_state_next_hypotheses.py:1564-1565 | at most one publisher ever gets past the external location |
| PublicationPairStates.InvalidIffLateCreate | scripts/publish_pythia70_gate_state_next_hypotheses.py:1392-1420 | in every run of any processes the pair state is outside the five exactly when some exclusive create of a stage has succeeded beside the final of its location |
| PublicationPairStates.InTurnStatesValid | scripts/publish_pythia70_gate_state_next_hypotheses.py:1515-1534 | publishers and repairers that run one after another keep the five pair states, wherever each of them stops or crashes |
| PublicationPairStates.AbandonedForEver | scripts/publish_pythia70_gate_state_next_hypotheses.py:1628-1657 | a stage whose writer has stopped, at the external location or broken off at the repository, stays with its bytes through every continuation of every run, so the pair is never complete from then on |
| PublicationPairStates.SoloRunStates | scripts/publish_pythia70_gate_state_next_hypotheses.py:1553-1573 | the pair state of a lone publisher follows its program point, from absent through both stages to complete |
| PublicationPairStates.SoloCrashStatesValid | scripts/publish_pythia70_gate_state_next_hypotheses.py:1515-1534 | wherever a single publisher crashes, the four entries classify as one of the five valid pair states |
| PublicationRepair.Store.WriteAll | scripts/publish_pythia70_gate_state_next_hypotheses.py:1117-1123 | the write loop leaves a prefix of the source, all of it exactly when every write makes progress |
| PublicationRepair.HeldStateExact | scripts/publish_pythia70_gate_state_next_hypotheses.py:1291-1317 | the held file is staged, or published, exactly when the stage, or the final, is the only entry of its location and names it |
| PublicationRepair.Store.Promote | scripts/publish_pythia70_gate_state_next_hypotheses.py:1320-1389 | promotion succeeds by where the held file is afterwards; the return code only chooses between two errors, and each error has its exact condition |
| PublicationRepair.Store.PublishFile | scripts/publish_pythia70_gate_state_next_hypotheses.py:1392-1448 | publication succeeds exactly for canonical bytes at an empty location when every write progresses and the kernel moves; otherwise nothing changes, or a stage holds exactly the prefix that was written; each error has its exact condition |
| PublicationRepair.Store.PromoteExisting | scripts/publish_pythia70_gate_state_next_hypotheses.py:1451-1491 | an existing stage is promoted exactly when it is private, carries exactly the source, there is no final and the kernel moves; otherwise nothing changes |
| PublicationRepair.Store.VerifyExisting | scripts/publish_pythia70_gate_state_next_hypotheses.py:1576-1593 | verification succeeds exactly when both finals and no stage are there, with the same bytes, which are a canonical valid record of bounded size |
| PublicationRepair.Store.PublishPair | scripts/publish_pythia70_gate_state_next_hypotheses.py:1553-1573 | the pair is published exactly from the absent state when both publications go through; a failure leaves the external stage, or the external final with a repository stage |
| PublicationRepair.Store.Repair | scripts/publish_pythia70_gate_state_next_hypotheses.py:1628-1657 | repair completes the pair exactly in the repairable states when the kernel lets it, changes nothing in any other state, stays repairable after a refused rename, and never again after a broken-off write; each error has its exact condition, and the final verification never fails |
| PublicationRefinement.OneWrite | scripts/publish_pythia70_gate_state_next_hypotheses.py:1119-1123 | one pass of the write loop is one writing step of the protocol |
| PublicationRefinement.PublishFileIsAPath | scripts/publish_pythia70_gate_state_next_hypotheses.py:1392-1448 | the publication as it runs alone is a path of the interleaved protocol, going on exactly when it succeeds |
| PublicationRefinement.PromoteExistingIsAPath | scripts/publish_pythia70_gate_state_next_hypotheses.py:1451-1491 | so is the promotion of an existing stage |
| PublicationRefinement.PublishPairIsAPath | scripts/publish_pythia70_gate_state_next_hypotheses.py:1553-1573 | the whole publication of the pair is a path of the protocol in any state of the files, for any bytes and anything the kernel decides; it ends done exactly when it succeeds |
| PublicationRefinement.RepairIsAPath | scripts/publish_pythia70_gate_state_next_hypotheses.py:1628-1657 | so is the whole repair, whatever the record and privacy checks say and whatever bytes the repairer was started with |
| PublicationRefinement.RefusedRepairStops | scripts/publish_pythia70_gate_state_next_hypotheses.py:1634-1639 | in a state that repair does not accept the repairer stops and the files stay as they are |
| PublicationConflict.TwoPublishersCanConflict | scripts/publish_pythia70_gate_state_next_hypotheses.py:1392-1420 | for any source the condition is met by two publishers: a run of theirs ends outside the five states |
| PublicationConflict.PublisherAndRepairerCanConflict | scripts/publish_pythia70_gate_state_next_hypotheses.py:1392-1420 | and by a publisher and a repairer, at the repository location |
| GraphReceipts.BuildAdjacency | src/spirallens/graphs/constructors.py:161-167 | each row's list names each neighbour once, and the degrees add up to twice the number of edges |
| ComponentLabels.LabelNeighbours | src/spirallens/graphs/constructors.py:114-118 | taking a row from the stack labels its unlabelled neighbours and keeps every finished row settled |
| ComponentLabels.Label | src/spirallens/graphs/constructors.py:102-120 | two rows get the same label exactly when they are connected, and labels are numbered by their least rows |
| ComponentLabels.NumberedLabelsAgree | src/spirallens/graphs/contracts.py:454-469 | labels with these two properties are unique, so a recomputation never differs |
| TwoCore.Deactivate | src/spirallens/graphs/constructors.py:133-142 | removing a row of degree below two keeps the degrees of active rows exact and queues the rows that fall to one |
| TwoCore.Peel | src/spirallens/graphs/constructors.py:123-143 | the mask is the two-core: every active row has two active neighbours, and every set of rows with that property is active |
| TwoCore.StableClosesCycle | src/spirallens/graphs/constructors.py:123-143 | any nonempty set in which every row has two neighbours contains a cycle |
| TwoCore.CoreEmptyIffRankZero | scripts/prototype_p4_graph_scale_transport_v0_1.py:634-655 | the two-core is empty exactly when there is no cycle, which is when the cycle rank is zero |
| CycleRank.NewCycle | scripts/prototype_p4_graph_scale_transport_v0_1.py:655-655 | an edge closes a cycle exactly when its ends were connected before |
| CycleRank.RankCountsCycles | scripts/prototype_p4_graph_scale_transport_v0_1.py:634-655 | for every graph and every correct labelling, edges minus rows plus components is nonnegative, and zero exactly without a cycle |
| CycleRank.RankOfNoEdges | scripts/prototype_p4_graph_scale_transport_v0_1.py:655-655 | without edges the rank is zero |
| CycleRank.RankGrows | scripts/prototype_p4_graph_scale_transport_v0_1.py:655-655 | and a further edge raises it by one exactly when its ends were connected before, whatever labellings are used |
| CycleRank.PublisherRankObserved | scripts/publish_pythia70_gate_state_next_hypotheses.py:506-512 | with a consistent receipt the negative-rank error is unreachable, and a positive rank means that there is a cycle |
| BoundedSearch.StepsAreWalks | scripts/prototype_p4_graph_scale_transport_v0_1.py:536-557 | reachability in k steps is a walk of k edges |
| BoundedSearch.NearVisited | scripts/prototype_p4_graph_scale_transport_v0_1.py:545-556 | everything at most as far as the front of the queue, and within the limit, has been visited |
| BoundedSearch.Expand | scripts/prototype_p4_graph_scale_transport_v0_1.py:547-556 | expanding the front vertex returns the shortest length to the end when it is a neighbour, otherwise keeps the search state |
| BoundedSearch.BoundedShortestPathLength | scripts/prototype_p4_graph_scale_transport_v0_1.py:536-557 | the result is a shortest path length within the hop limit, or none when there is none; a vertex is at distance zero from itself whatever the limit |
| BoundedSearch.BoundedLengthExact | scripts/prototype_p4_graph_scale_transport_v0_1.py:536-557 | the result is d exactly when d is the shortest length and within the limit |
| BoundedSearch.AdjacencyOf | scripts/prototype_p4_graph_scale_transport_v0_1.py:566-571 | the dictionary lists exactly the neighbours of every vertex, for any order of the edges |
| BoundedSearch.BoundarySupport | scripts/prototype_p4_graph_scale_transport_v0_1.py:560-585 | a boundary is supported exactly when each vertex reaches the next, cyclically, within the limit |
| CoreComponents.LowAdjacency | scripts/prototype_p4_partial_patterns_v0_1.py:255-262 | low rows are joined exactly along face sides with both ends low |
| CoreComponents.SidesJoinCorners | scripts/prototype_p4_partial_patterns_v0_1.py:255-262 | the sides of a face join exactly its different corners |
| CoreComponents.Search | scripts/prototype_p4_partial_patterns_v0_1.py:265-270 | one search finds exactly the connected class of its start although its work list may repeat rows, and it ends |
| CoreComponents.Components | scripts/prototype_p4_partial_patterns_v0_1.py:263-272 | exactly the connected classes, each sorted, in order of their least members |
| CoreComponents.ReadCore | scripts/prototype_p4_partial_patterns_v0_1.py:247-296 | the members of the components are exactly the rows at or below the cutoff; the count is withheld exactly when a row lacks support, every row is low or a low row is at the edge; otherwise it is the number of components, zero exactly when no row is low |
| CoreComponents.SameComponentIffConnected | scripts/prototype_p4_partial_patterns_v0_1.py:263-272 | two low rows share a component exactly when they are connected through low sides |
| CoreComponents.ComponentsUnique | scripts/prototype_p4_partial_patterns_v0_1.py:263-272 | the list of components is determined by the low rows and their sides; no order of the search shows in it |
| CoreComponents.OneComponent | scripts/prototype_p4_partial_patterns_v0_1.py:273-284 | at most one component exactly when all low rows are connected |
| SparseNeighbours.RankingUnique | scripts/p4_sparse_graph_backend_v0_1.py:252-252 | a set of ids has only one order by distance and id |
| SparseNeighbours.BallFirst | scripts/p4_sparse_graph_backend_v0_1.py:252-257 | in that order the ids within any radius come first |
| SparseNeighbours.DirectedNeighbours | scripts/p4_sparse_graph_backend_v0_1.py:233-257 | the table is filled exactly when no budget is exceeded and every row has enough candidates, and each row then ranks its own candidates |
| SparseNeighbours.RowByDistances | scripts/p4_sparse_graph_backend_v0_1.py:252-257 | a stored row has k ids in order of distance and id, none that is not stored is closer than one that is, and at least four ids lie within the fourth distance, at most three strictly closer |
| SparseNeighbours.CoveredRowExact | scripts/p4_sparse_graph_backend_v0_1.py:236-257 | when the candidates hold every row within a radius covering enough others, the stored neighbours and fourth distance are the brute-force ones, ties included |
| SparseNeighbours.CoveringIsEnough | scripts/p4_sparse_graph_backend_v0_1.py:253-256 | with such candidates the error for too few is unreachable |
| SparseNeighbours.RowDetermined | scripts/p4_sparse_graph_backend_v0_1.py:243-257 | batch size and candidate order do not matter |
| SparseEdges.EdgeArrays | scripts/p4_sparse_graph_backend_v0_1.py:260-267 | edges come out once each, strictly increasing by code, unless there are too many |
| SparseEdges.EdgeListUnique | scripts/p4_sparse_graph_backend_v0_1.py:266-267 | a set of edges has only one such list |
| SparseEdges.DegreesCountEdgesTwice | scripts/p4_sparse_graph_backend_v0_1.py:270-282 | degrees add up to twice the number of edges |
| SparseGraphs.StoredRowIsTableRow | scripts/p4_sparse_graph_backend_v0_1.py:256-256 | a stored row has k different rows, none of them its own |
| SparseGraphs.SymmetricIffMutual | scripts/p4_sparse_graph_backend_v0_1.py:379-379 | an entry of the directed matrix times its transpose, entry by entry, is nonzero exactly when the two rows name each other |
| SparseGraphs.MutualEdges | scripts/p4_sparse_graph_backend_v0_1.py:379-380 | the nonzero entries of that product above the diagonal, sorted, list exactly the pairs naming each other |
| SparseGraphs.RadiusEdges | scripts/p4_sparse_graph_backend_v0_1.py:382-408 | the fixed-radius family is exactly the pairs at most the radius apart, for any batch size |
| SparseGraphs.ProductCountsCommon | scripts/p4_sparse_graph_backend_v0_1.py:419-419 | an entry of the sparse product is the number of common neighbours |
| SparseGraphs.SharedEdges | scripts/p4_sparse_graph_backend_v0_1.py:409-430 | the shared-neighbour family is exactly the pairs with enough common neighbours, for any batch size |
| SparseGraphs.BoundsTotalSquares | scripts/p4_sparse_graph_backend_v0_1.py:346-349 | for any batch size the batch product bounds add up to the total of squared in-degrees checked in advance |
| SparseFamilies.BruteForceUnique | scripts/p4_sparse_graph_backend_v0_1.py:233-257 | there is at most one brute-force neighbour table |
| SparseFamilies.CoveredTableExists | scripts/p4_sparse_graph_backend_v0_1.py:233-257 | and there is one whenever candidates cover every row |
| SparseFamilies.CoveredNeighbours | scripts/p4_sparse_graph_backend_v0_1.py:233-257 | with candidates that cover every row the search returns the brute-force table, for any batch size, unless a budget is exceeded |
| SparseFamilies.BuildGraphs | scripts/p4_sparse_graph_backend_v0_1.py:298-431 | when the searches miss nothing, all three families are those of the brute-force table at its own scale, for any batch size; they are withheld exactly when the scale is not positive or a budget is exceeded |
| SparseFamilies.FamiliesAreReceiptRows | scripts/p4_sparse_graph_backend_v0_1.py:260-267 | the edges of every family are rows that a graph receipt accepts: in range, smaller row first, no edge twice |
| Rationals.CanonicalUnique | scripts/prototype_p4_graph_scale_transport_v0_1.py:108-126 | canonical rationals of equal value are equal component by component |
| LawChecks.CanonicalExact | scripts/prototype_p4_graph_scale_transport_v0_1.py:108-126 | a parameter is accepted exactly when its components are positive, bounded and without a common divisor but one |
| Rationals.CeilIsLeast | scripts/prototype_p4_graph_scale_transport_v0_1.py:132-134 | the integer formula is the ceiling: the least integer that is at least the product |
| Rationals.CeilMonotone | scripts/prototype_p4_graph_scale_transport_v0_1.py:132-134 | a larger rational never has a smaller ceiling |
| LawSelection.KeysTellValues | scripts/prototype_p4_graph_scale_transport_v0_1.py:170-182 | two laws share a parameter key exactly when their four parameters have equal values |
| LawChecks.ValidLawExact | scripts/prototype_p4_graph_scale_transport_v0_1.py:141-168 | a law is accepted exactly when its parameters are and none of its three fractions ever asks for more rows than there are |
| LawChecks.ValidationExact | scripts/prototype_p4_graph_scale_transport_v0_1.py:929-946 | the selection starts exactly on different laws and different calibration cases, and otherwise names the first fault in the order of the checks |
| LawSelection.CountsFit | scripts/prototype_p4_graph_scale_transport_v0_1.py:424-470 | the derived counts always fit their bounds, so no graph constructor refuses them, and the upper clamps never bind |
| LawSelection.WorstIsLeast | scripts/prototype_p4_graph_scale_transport_v0_1.py:913-919 | the worst objective is the least objective that dominates every case |
| LawSelection.SelectTransportLaw | scripts/prototype_p4_graph_scale_transport_v0_1.py:922-992 | the loop over ordered laws and cases computes the specified decision, records included |
| LawSelection.SelectionBest | scripts/prototype_p4_graph_scale_transport_v0_1.py:959-992 | the chosen law passes every case and ranks before every other passing law; none is chosen exactly when none passes |
| LawSelection.SelectionLeast | scripts/prototype_p4_graph_scale_transport_v0_1.py:959-992 | the chosen law has, among all passing laws, the least worst edge ratio, then degree deviation, then core deficit, then component sum, and on a full tie the smaller number at the first position where the parameters differ |
| LawSelection.RecordsMeaning | scripts/prototype_p4_graph_scale_transport_v0_1.py:959-989 | every law has one record, in the order of the parameters, with whether it passes every case and its worst objective |
| LawSelection.BestLawUnique | scripts/prototype_p4_graph_scale_transport_v0_1.py:990-992 | only one law can be best |
| LawSelection.DecisionOrderFree | scripts/prototype_p4_graph_scale_transport_v0_1.py:948-992 | permuting laws and cases changes neither error nor choice nor records |
| LawSelection.MoreCasesShrink | scripts/prototype_p4_graph_scale_transport_v0_1.py:959-992 | a further case can only shrink the eligible set, and never improves the best objective |
| CampaignRunner.CasesInPhases | scripts/run_p4_center_identifiability_v0_1.py:31-53 | the 144 cases come in three phases of 32, 16 and 96 |
| CampaignRunner.GeometryPosition | scripts/run_p4_center_identifiability_v0_1.py:41-52 | every geometry combination has exactly one position |
| CampaignReasons.SeedPosition | scripts/run_p4_center_identifiability_v0_1.py:31-40 | and so has every seed of the two calibration lanes |
| CampaignRunner.PositionsNeverFail | scripts/run_p4_center_identifiability_v0_1.py:94-96 | for completed units in order the position check of the bank reader never fails |
| CampaignReasons.ReportsExact | scripts/run_p4_center_identifiability_v0_1.py:94-110 | the bank reader accepts exactly the completed and readable units of its positions, in order |
| CampaignRunner.Campaign.CloseDue | scripts/run_p4_center_identifiability_v0_1.py:386-390 | the bank due at a position is sealed over exactly the units before it |
| CampaignRunner.Campaign.AttemptUnit | scripts/run_p4_center_identifiability_v0_1.py:403-474 | an attempt is bound to the banks sealed before it, and ends as its child and its validation decide; there is no record exactly when validation raises an error that is not caught |
| CampaignRunner.Campaign.Run | scripts/run_p4_center_identifiability_v0_1.py:368-511 | the run ends with every unit good, or stopped at the first position that is not, and reports success exactly in the first case with the source unchanged; or an uncaught error ends it without a result and without the remaining records |
| CampaignRunner.EndsOneWay | scripts/run_p4_center_identifiability_v0_1.py:368-511 | in one world it cannot both finish and be ended by an uncaught error |
| CampaignRunner.EveryPositionRecorded | scripts/run_p4_center_identifiability_v0_1.py:368-489 | one record per registered case, in index order |
| CampaignRunner.StatusShape | scripts/run_p4_center_identifiability_v0_1.py:368-489 | completed units, then at most one other attempt, then positions not run |
| CampaignRunner.AttemptsAreRuns | scripts/run_p4_center_identifiability_v0_1.py:386-474 | the log of every finished campaign has an attempt of a position exactly when its record is not not-run, at one fixed place |
| CampaignRunner.SealsPrecedeAttempts | scripts/run_p4_center_identifiability_v0_1.py:386-416 | in the log of every finished campaign, stopped or not, an attempt past the calibration units comes after a seal over the 32 completed ones, and a geometry attempt after a seal over the 16 completed references |
| CampaignRunner.NoPositionFailure | scripts/run_p4_center_identifiability_v0_1.py:94-96 | no record of any finished campaign gives the position check of a bank as its reason |
| CampaignReasons.RecordsMean | scripts/run_p4_center_identifiability_v0_1.py:368-489 | every record of every finished campaign tells the truth: an attempted unit about its budgets, its child, its validation and the banks sealed before it; a unit that was not run about the first position that was not completed and why the campaign stopped there |
| SegmentDiagnostics.ClosestMinimises | scripts/p4_reference_perturbation_diagnostics_v0_1.py:117-129 | the closest parameter lies in the unit interval and minimises the amplitude over the whole segment |
| SegmentDiagnostics.MinimumBelowEndpoints | scripts/p4_reference_perturbation_diagnostics_v0_1.py:128-130 | the minimum never exceeds either endpoint amplitude |
| SegmentDiagnostics.SwapReflects | scripts/p4_reference_perturbation_diagnostics_v0_1.py:117-129 | swapping the residuals gives one minus the parameter and the same minimum; without a perturbation both parameters are zero |
| PointDiagnostics.SummaryOrdered | scripts/p4_reference_perturbation_diagnostics_v0_1.py:56-78 | minimum, quartiles and maximum are ordered; there are none exactly for no values |
| PointDiagnostics.SummaryAttained | scripts/p4_reference_perturbation_diagnostics_v0_1.py:72-77 | the ends of the summary are values and bound all of them |
| PointDiagnostics.SummaryOrderFree | scripts/p4_reference_perturbation_diagnostics_v0_1.py:57-78 | the summary does not depend on the order of the values |
| PointDiagnostics.SummaryInterpolates | scripts/p4_reference_perturbation_diagnostics_v0_1.py:56-78 | each quartile is the linear interpolation at its place in the ordered values |
| PointDiagnostics.Series | scripts/p4_reference_perturbation_diagnostics_v0_1.py:170-195 | each point has either its value or its reasons, a value exactly when it is admitted and finite; the reasons are, in order, exactly what is wrong with it |
| PointDiagnostics.ValidIffBlameless | scripts/p4_reference_perturbation_diagnostics_v0_1.py:170-195 | a point has its value exactly when none of the reasons applies to it |
| PointDiagnostics.ClosestColumn | scripts/p4_reference_perturbation_diagnostics_v0_1.py:117-127 | the column filled in two masked assignments holds the closest parameter of every point |
| PointDiagnostics.SegmentRatioBounded | scripts/p4_reference_perturbation_diagnostics_v0_1.py:128-130 | where both amplitudes are above the floor the segment ratio lies between zero and one |
| SampledRuns.AllRuns | scripts/prototype_p4_one_arm_zoom_v0_1.py:319-343 | the runs fill an ordered sequence, each maximal and with its neighbouring samples; anything else is refused |
| SampledRuns.RunsExpand | scripts/prototype_p4_one_arm_zoom_v0_1.py:319-343 | expanding the runs gives the categories back |
| SampledRuns.FirstRunStarts | scripts/prototype_p4_one_arm_zoom_v0_1.py:327-343 | the first run starts at the first sample and has none before it |
| SampledRuns.NeighbouringRuns | scripts/prototype_p4_one_arm_zoom_v0_1.py:327-343 | each run has the last sample of the run before it and the first of the run after it as its neighbours, and their categories differ |
| SampledRuns.RunsUnique | scripts/prototype_p4_one_arm_zoom_v0_1.py:327-343 | there is only one way to divide a sequence into maximal runs |

## Left out

- Floating point: rounding, overflow and the conservative query radius; the model uses exact reals, so an equality that holds here may hold only approximately there.
- Bodies of library calls: KD-tree query, connected labelling, linear assignment, least squares, unique and sort of arrays, sparse products; they enter through contracts.
- Hashes, seals, JSON text, schema strings and claim-boundary flags; a digest appears only as a function of what it binds.
- Grid coordinate equality and non-finite input checks at the head of `locate` and `infer`: the model starts from a well-formed grid and fit.
- `injected_field`, `measure` and probe generation: numeric field construction feeding the modelled readers.
- `_graph`, `_csr_receipt` and the median scale of the sparse backend: storage receipts and a library median; the median is a parameter.
- `scalar_diagnostic` extremes (least amplitude, worst edge): they only report further columns.
- The formulas of the other point metrics (relative norms, radial and transverse parts, angular slopes, signed angle): the series is proved for any values, and of the formulas only the closest parameter and the segment minimum are modelled.
- The spelling of law and case ids, and type checks of arguments.
- `select_transport_law` rejection counts and report fields beyond the choice and the per-law records.
- `evaluate_transport_law` and `_graph_metrics` gate comparisons: an evaluation is a function of law and case for the selector, whose theorems hold for every such function.
- File modes, link counts, directory anchors and fsync of the publisher: a private stage is one flag, and durability across power loss is not modelled.
- `_receipt` sorting of adjacency lists: labels, degrees and the two-core are proved for lists in any order.
- Git and command-line parts of the publisher and the runner, child process set-up, timing and resource limits beyond admission.
- `_loop_gate`, `_winding` and holonomy of the partial-pattern script: thin calls into transport code.
- `capture_pythia160_identity.py`, `prepare_d7_item24_launch.py` and the other campaign runners: the same shapes again.
- CampaignRunner.Campaign.Run: errors outside the caught classes are modelled for the validation of a unit only; one while a bank is closed or a file is written ends the run in the same way and is not modelled.
- CampaignRunner.SealsPrecedeAttempts: speaks of the order of seals and attempts in the runner's log; the child's own re-check of the banks is not part of this model.
