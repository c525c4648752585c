# SNAPS assignment engine in Dafny

This project models the core of SNAPS, which assigns NMR spin systems to the
residues of a protein sequence. The core does five things:

- It prepares the observed spin systems and the predicted residue shifts.
- It scores every (spin system, residue) pair by the log probability of its
  prediction errors.
- It measures how well every pair of spin systems links sequentially.
- It finds the best assignment, the k best assignments, and the next-best
  alternatives for each pair.
- It refines the best assignment towards sequential consistency.

It also models the residual-dipolar-coupling (RDC) helpers from
`python/lib/rdcs_lib.py`:

- the three-letter to one-letter residue code tables;
- tidying and checking restraint tables;
- the measured-minus-predicted magnitude matrix;
- the sum of two penalty tables.

## Modules

The modules follow the program's structure.

- `Wrappers`: `Option` and `Result`.
- `Text`: `str()` of integers.
- `ShiftTables` (`tables.dfy`): the shift tables and two steps:
  - the i-1/i+1 columns of `import_pred_shifts`;
  - `prepare_obs_preds` as a value-level function.
- `Scores`: the log-probability matrix of `calc_log_prob_matrix`, in both the
  independent and the correlated error models.
- `Links`: the mismatch and consistent-links matrices of
  `calc_mismatch_matrix`.
- `Solver`: a verified optimal linear assignment, standing in for scipy's
  `linear_sum_assignment`.
- `Assignment`: `find_best_assignment`, with its include, exclude, penalty
  and dummy rules, and `calc_overall_matching_prob` (`MatchingScore`).
- `Consistency`: `check_matching_consistency`, including the S/W/N/X side
  letters and the confidence labels.
- `KBest`: Murty's k-best search of `find_kbest_assignments`, over sorted node
  lists.
- `HillClimb`: `find_consistent_assignments`, as written and corrected (see
  Findings).
- `AltAssign`: `find_alt_assignments`.
- `Snaps`: the assigner object. Its fields are the tables, the neighbour
  lookup and the matrices, and its methods replace them in place.
- `Rdcs`: the RDC helpers. A pandas frame is a `Table` value, or a `Frame`
  object whose columns are replaced in place.

A pandas table is modelled as a sequence of rows, or as a map from column
name to column. A NaN shift or cell is `None` or `NaN`.

The search procedures are module-level methods over immutable values such as
the score matrix and the link matrices. They read these values and never
write them: the source deep-copies the score matrix before it penalises
cells. The refinement loop is given the link matrices. In the source,
`check_matching_consistency` computes the link matrices when the assigner has
none, and it re-indexes the matching frame it is passed
(python/SNAPS_assigner.py:733-740). `Snaps.Assigner.CheckMatchingConsistency`
models the first of these on the assigner object.

The log densities are parameters of the model: `norm.logpdf` with each atom's
standard deviation, and the multivariate normal of the correlated model.
`log10(default_prob)` is a parameter too. So is the parser that `float()`
applies to text. Each of these can be any function.

Three behaviours of the code differ from what its own comments and docstrings
suggest. The model follows the code in each case:

- The refinement loop scores the incumbent with cutoff 0.1
  (python/SNAPS_assigner.py:1023) and the candidates with cutoff 0.2
  (python/SNAPS_assigner.py:1035). The commented-out variant after its
  `return` (python/SNAPS_assigner.py:1047-1050) uses 0.1 on both sides. Both
  climbs are modelled (see Findings).
- The docstring of `find_kbest_assignments` promises "the k best overall
  assignments" (python/SNAPS_assigner.py:916). The code keeps both node lists
  sorted by ascending score (python/SNAPS_assigner.py:943-947) and pops the
  highest unranked node from the end (python/SNAPS_assigner.py:951). Nothing
  in it removes duplicate ranked matchings, so the model does not claim that
  they are distinct. When the unranked list runs empty, the `pop` raises an
  error; the model returns a failure.
- The same docstring describes pairs that "must be excluded"
  (python/SNAPS_assigner.py:921-923). `find_best_assignment` penalises each
  excluded cell (python/SNAPS_assigner.py:639-656) instead of forbidding it.
  So an excluded pair can still be chosen when every alternative is worse.

## Model

| member | source | states |
|---|---|---|
| ShiftTables.PadLeft | python/SNAPS_assigner.py:144-147 | the residue name is right-justified to the width (5 for residue names): leading spaces, then the name itself, which is never cut |
| ShiftTables.ApplyOffset | python/SNAPS_assigner.py:142-143 | residue n of the file becomes residue n + offset, with its data unchanged |
| ShiftTables.M1Shifts | python/SNAPS_assigner.py:160-166 | C_m1, CA_m1 and CB_m1 of residue n are the C, CA and CB shifts of residue n-1, for the carbons the file has; no other column |
| ShiftTables.AddNeighbourColumns | python/SNAPS_assigner.py:160-173 | the wide table keeps exactly the residue numbers of the file |
| ShiftTables.NeighbourColumnsLinked | python/SNAPS_assigner.py:160-173 | residue n names n-1 as its predecessor exactly when n-1 exists; then n-1 names n as its successor, and n's i-1 type is n-1's type |
| ShiftTables.NeighbourShiftsLinked | python/SNAPS_assigner.py:160-166 | the i-1 carbon shift of residue n is residue n-1's own shift, and missing when there is no n-1 |
| ShiftTables.DropProlines | python/SNAPS_assigner.py:270-274 | a residue is kept exactly when it is not a proline; no rows are added |
| ShiftTables.DropProlinesAppend | python/SNAPS_assigner.py:270-274 | the filter distributes over concatenation, so it keeps the order of the rows and repeats every repeated non-proline row |
| ShiftTables.DropProlinesSingle | python/SNAPS_assigner.py:270-274 | a single residue is kept exactly when it is not a proline |
| ShiftTables.Restrict | python/SNAPS_assigner.py:279-288 | a row keeps exactly its shifts whose atoms are kept, with their values |
| ShiftTables.PadResidues | python/SNAPS_assigner.py:300-306 | the residues are kept first, followed by DR_1, DR_2, ... up to the target count |
| ShiftTables.PadSpinSystems | python/SNAPS_assigner.py:307-313 | the spin systems are kept first, followed by DSS_1, DSS_2, ... up to the target count |
| ShiftTables.PreparedBalanced | python/SNAPS_assigner.py:297-313 | after preparation both tables and the neighbour lookup have the same length, the larger of the two input counts |
| ShiftTables.PreparedResiduePadding | python/SNAPS_assigner.py:297-306 | prepared residues: the non-proline residues, then dummies exactly at the added positions |
| ShiftTables.PreparedSpinSystemPadding | python/SNAPS_assigner.py:297-313 | prepared spin systems: the spin systems, then dummies exactly at the added positions |
| ShiftTables.BalancedTablesNotPadded | python/SNAPS_assigner.py:297-313 | already balanced tables get no dummy rows |
| ShiftTables.DummyNamesDistinct | python/SNAPS_assigner.py:301-310 | different dummy numbers give different DR_/DSS_ names |
| ShiftTables.PreparedHasNoProline | python/SNAPS_assigner.py:270-274 | no prepared residue is a proline |
| ShiftTables.PreparedColumns | python/SNAPS_assigner.py:276-295 | each prepared table keeps its own non-atom columns, and of the atom types exactly those that are configured and present in both tables; both tables stay well formed |
| ShiftTables.PreparedRowsKept | python/SNAPS_assigner.py:287-295 | each spin system and each non-proline residue stays at its position with its name and metadata, restricted to its table's prepared columns and marked as not a dummy |
| ShiftTables.NeighboursSurvive | python/SNAPS_assigner.py:315-322 | an i-1/i+1 name is kept exactly when it names a prepared residue; otherwise it is missing |
| Text.NatToStringRoundTrip | python/SNAPS_assigner.py:302 | reading back str(n) gives n |
| Text.NatToStringInjective | python/SNAPS_assigner.py:302-309 | different numbers give different numerals |
| Text.IntToStringInjective | python/SNAPS_assigner.py:144 | different integers give different str() texts, negative ones included |
| ShiftTables.ResNameInjective | python/SNAPS_assigner.py:144-147 | residues of one type with different numbers get different padded names |
| Snaps.Assigner.constructor | python/SNAPS_assigner.py:34-49 | the assigner starts with no neighbour lookup and no matrices, as `__init__` leaves them; its tables are parameters standing for the result of the imports that follow `__init__`: the predictions of `import_pred_shifts` (python/SNAPS_assigner.py:94-188) and the observed shifts, whose importer is not part of this model; `all_preds`, first set by `prepare_obs_preds`, starts as the predictions |
| Snaps.Assigner.PrepareObsPreds | python/SNAPS_assigner.py:255-327 | the fields become the prepared tables and lookup of the old ones; all_preds keeps the old predictions; the matrices are untouched |
| Scores.Delta | python/SNAPS_assigner.py:408-439 | the prediction error is missing exactly when either shift is |
| Scores.UncorrectedDelta | python/SNAPS_assigner.py:439 | without a correction the error is predicted minus observed |
| Scores.ResidueTypes | python/SNAPS_assigner.py:413 | exactly the non-null residue types of the predictions |
| Scores.LogProbMatrix | python/SNAPS_assigner.py:390-511 | rows are the spin systems and columns the residues; each cell is the pair's score (zero if either side is a dummy) |
| Scores.IndependentCells | python/SNAPS_assigner.py:390-459 | the matrix summed one atom type at a time equals the independent score of each cell |
| Scores.CorrelatedCells | python/SNAPS_assigner.py:441-482 | the per-atom error matrices, stacked and scored jointly, equal each cell's correlated score: the joint density of the zero-filled errors plus the penalty times the missing count |
| Scores.CalcLogProbMatrix | python/SNAPS_assigner.py:390-517 | fails exactly on an empty table; otherwise gives the specified matrix |
| Scores.TotalPermutation | python/SNAPS_assigner.py:357-394 | the sum over atom types is independent of their order, which list(set) leaves open |
| Scores.CellScoreOrderFree | python/SNAPS_assigner.py:357-459 | the independent score of a pair does not depend on the order of the atom types |
| Scores.AllMissingScore | python/SNAPS_assigner.py:445-482 | a pair with every shift missing scores the missing penalty once per atom type, in both models |
| Snaps.Assigner.CalcLogProbMatrix | python/SNAPS_assigner.py:330-517 | the matrix field becomes the specified matrix, or stays as it was on failure; other fields are unchanged |
| Links.SeqAtoms | python/SNAPS_assigner.py:529-533 | exactly the carbons observed both as i and as i-1 shifts |
| Links.Mismatch | python/SNAPS_assigner.py:549-573 | the mismatch is never negative |
| Links.LinkCount | python/SNAPS_assigner.py:565-574 | at most one link per carbon |
| Links.SeqLinksOf | python/SNAPS_assigner.py:540-574 | both matrices are labelled by the spin systems; each cell is the mismatch and link count of (i-1 row, i column) |
| Links.SmallMismatchIffAllLinked | python/SNAPS_assigner.py:565-573 | the mismatch is below the threshold exactly when every carbon present on both sides is a consistent link |
| Links.LinksAtMostPresent | python/SNAPS_assigner.py:565-570 | links are counted only where both shifts are present |
| Links.NoShiftsNoLinks | python/SNAPS_assigner.py:567-570 | a spin system without shifts has mismatch 0 and no links on either side |
| Links.CarbonStep | python/SNAPS_assigner.py:572-574 | one more carbon takes the maximum with its absolute difference and adds one link when it agrees |
| Links.Accumulate | python/SNAPS_assigner.py:549-574 | the running maximum and running count, carbon by carbon, are the specified cells |
| Links.CalcMismatchMatrix | python/SNAPS_assigner.py:519-581 | None exactly when no carbon is sequential; otherwise the specified matrices |
| Snaps.Assigner.CalcMismatchMatrix | python/SNAPS_assigner.py:519-581 | the matrices are kept when computed; nothing changes when there is no sequential carbon |
| Assignment.MatchingScoreAppend | python/SNAPS_assigner.py:727-730 | the total score of a matching is additive over any split |
| Assignment.CleanIncludes | python/SNAPS_assigner.py:605-611 | exactly the include pairs that share no row and no column with another |
| Assignment.CleanIncludesConflictFree | python/SNAPS_assigner.py:605-611 | the surviving include pairs have distinct rows and distinct columns |
| Assignment.ConflictFreeKept | python/SNAPS_assigner.py:605-611 | include pairs that already share no row and no column are all kept |
| Assignment.SubsetConflictFree | python/SNAPS_assigner.py:605-611 | distinct pairs taken from a conflict-free list are conflict-free |
| Assignment.CleanExcludes | python/SNAPS_assigner.py:613-620 | exactly the exclude pairs that share no row and no column with a surviving include pair |
| Assignment.Reduce | python/SNAPS_assigner.py:622-625 | exactly the rows and columns not fixed by an include pair are kept, and each kept cell holds the original matrix's value for its labels |
| Assignment.SubMatrixLookup | python/SNAPS_assigner.py:622-625 | the kept rows and columns of a matrix hold the original values for their labels |
| Assignment.MaxAbs | python/SNAPS_assigner.py:642-644 | the largest absolute cell bounds every cell from both sides, and is 0 for a matrix without cells |
| Assignment.MaxAbsAttained | python/SNAPS_assigner.py:642-644 | a matrix with cells has one whose absolute value is the largest |
| Assignment.ReduceByNothing | python/SNAPS_assigner.py:628-629 | without includes the matrix is unchanged |
| Assignment.ReducedSquare | python/SNAPS_assigner.py:622-625 | removing conflict-free fixed pairs keeps the matrix square, with one row fewer per fixed pair |
| Assignment.Penalty | python/SNAPS_assigner.py:639-644 | twice the largest absolute cell, negated when maximising; so it is no better than any cell: at most every cell when maximising, at least every cell when minimising |
| Assignment.Penalised | python/SNAPS_assigner.py:646-656 | exactly the excluded cells hold the penalty: an excluded dummy row is excluded against every dummy column, an excluded dummy column against every dummy row, and any other pair only at its own cell. Prepared tables pad one side only, so there a dummy exclusion penalises nothing, in the source and in the model alike |
| Assignment.PenaliseOne | python/SNAPS_assigner.py:646-656 | one exclude pair overwrites exactly the cells it covers |
| Assignment.PenaliseAll | python/SNAPS_assigner.py:639-658 | the loop over exclude pairs gives the penalised matrix |
| Assignment.SolveOptimal | python/SNAPS_assigner.py:660-665 | the solver's permutation has the highest total when maximising and the lowest otherwise |
| Assignment.CombinedIsPerfect | python/SNAPS_assigner.py:671-675 | the fixed pairs followed by the reduced solution form a perfect matching of the whole matrix |
| Assignment.ToPairsScore | python/SNAPS_assigner.py:667-669 | the score of the pairs is the permutation's cost |
| Assignment.FindBestAssignment | python/SNAPS_assigner.py:583-675 | None exactly when asked to and only dummies remain; otherwise a perfect matching: the fixed includes followed by a best solution of the reduced, penalised problem |
| Solver.LinearSumAssignment | python/SNAPS_assigner.py:665 | a permutation of least total cost among all permutations |
| Solver.MaximumAssignment | python/SNAPS_assigner.py:660-663 | a permutation of greatest total, found as the least cost of the negated matrix |
| Solver.NegatedCost | python/SNAPS_assigner.py:661 | negating the matrix negates every cost |
| Solver.PermutationIsBijection | python/SNAPS_assigner.py:667-669 | the solver's answer uses each column exactly once |
| Consistency.SideLetter | python/SNAPS_assigner.py:774-782 | X exactly for a mismatch above the threshold; otherwise S, W or N by link count |
| Consistency.ConfidenceSymmetric | python/SNAPS_assigner.py:784-794 | the label does not depend on which side is which, and is one of five labels |
| Consistency.MismatchLowersConfidence | python/SNAPS_assigner.py:784-794 | a mismatching side makes the label Medium, Low or Unreliable; it is Medium exactly when the other side is strong |
| Consistency.HighConfidence | python/SNAPS_assigner.py:784-790 | High exactly when neither side mismatches and the sides are S with anything, or W and W |
| Consistency.NeighbourOf | python/SNAPS_assigner.py:739-742 | the neighbours of a residue are the first lookup entry for it; a residue without an entry has no i-1 or i+1 neighbour |
| Consistency.AssignedTo | python/SNAPS_assigner.py:745-748 | the spin system assigned to a neighbour residue, missing exactly when none is |
| Consistency.MaxPresent | python/SNAPS_assigner.py:761 | the row maximum skips missing values and is missing only when both are |
| Consistency.RowOf | python/SNAPS_assigner.py:742-794 | on each side, the mismatch and links of the link matrices at (i-1 spin system, spin system) or (spin system, i+1 spin system) when that neighbour is assigned, else no mismatch and 0 links; total links are the sum, the largest mismatch the maximum, and the confidence the label of the two side letters |
| Consistency.MissingNeighbour | python/SNAPS_assigner.py:739-794 | a residue without a lookup entry has no mismatches and no links, both sides N, and confidence Undefined |
| Consistency.CheckMatchingConsistency | python/SNAPS_assigner.py:732-797 | fails exactly without link matrices; otherwise the k-th row is the row of the k-th pair of the matching |
| Consistency.RowLinksBounded | python/SNAPS_assigner.py:763-771 | a row's links are at most twice the matrix bound |
| Consistency.SeqLinksBounded | python/SNAPS_assigner.py:565-574 | at most three links per pair of spin systems |
| Snaps.Assigner.CheckMatchingConsistency | python/SNAPS_assigner.py:732-797 | computes the link matrices with threshold 0.2 when there are none, then classifies every pair |
| KBest.Insert | python/SNAPS_assigner.py:943-947 | adding to a sorted list keeps it sorted and adds exactly that node |
| KBest.PopBest | python/SNAPS_assigner.py:951 | pop() removes a highest-scoring node |
| KBest.FreePairs | python/SNAPS_assigner.py:963-968 | exactly the matching's pairs whose spin system is not fixed by an include |
| KBest.ChildExc | python/SNAPS_assigner.py:978-980 | the i-th child's exclusions start with the i-th free pair |
| KBest.ChildInc | python/SNAPS_assigner.py:981-987 | the i-th child includes the earlier free pairs and the parent's includes; None exactly when that is nothing |
| KBest.Dedup | python/SNAPS_assigner.py:984 | exactly the pairs of the list, each once |
| KBest.DedupEmpty | python/SNAPS_assigner.py:984-987 | deduplicating gives an empty list exactly when the list is empty |
| KBest.ValidMatchings | python/SNAPS_assigner.py:945-947 | every node of a valid list holds a perfect matching and that matching's score |
| KBest.RootNode | python/SNAPS_assigner.py:938-947 | the root holds the best matching under the initial constraints |
| KBest.Child | python/SNAPS_assigner.py:978-1002 | a child node is valid and carries exactly the child constraints |
| KBest.ChildExtends | python/SNAPS_assigner.py:981-987 | a child's includes contain its parent's |
| KBest.ChildHonoured | python/SNAPS_assigner.py:981-1002 | when the parent's matching holds its includes, the child's matching holds the child's |
| KBest.RootHonoured | python/SNAPS_assigner.py:938-947 | with conflict-free initial includes the root's matching holds them |
| KBest.AddChildren | python/SNAPS_assigner.py:975-1003 | the unranked list gains exactly the present children, as a multiset: the i-th is missing exactly when only dummies remain under its constraints, and otherwise carries the child constraints and a best matching under them; the list stays sorted and valid |
| KBest.RankBest | python/SNAPS_assigner.py:949-1004 | one step of the search: the highest unranked node is popped and inserted into the ranked list, and the rest of the unranked list gains exactly its present children; both lists stay sorted and valid |
| KBest.ChainCounts | python/SNAPS_assigner.py:949-1004 | when every step grows a measure by one, a run of n steps grows it by n |
| KBest.RunRanks | python/SNAPS_assigner.py:949-1004 | a run of n steps ranks exactly n more nodes |
| KBest.RootAlwaysRanked | python/SNAPS_assigner.py:943-951 | a search never runs out before ranking its first node: the root is always there to pop |
| KBest.RankUntil | python/SNAPS_assigner.py:949-1004 | the final lists are reached from the given ones by a run of search steps; it succeeds exactly when k nodes get ranked and fails exactly when the unranked list runs out first; every node stays valid, sorted and within the initial includes |
| KBest.FindKBestAssignments | python/SNAPS_assigner.py:915-1006 | the lists are reached by a run of search steps from the root node alone, the best matching under the initial constraints; it succeeds exactly with k ranked nodes and fails only when the unranked list runs out; every node holds a perfect matching that is best under its constraints, its includes contain the initial includes, and when those are conflict-free its matching holds them |
| HillClimb.ConsistencySumMonotone | python/SNAPS_assigner.py:1023-1035 | a larger cutoff never lowers the consistency sum |
| HillClimb.NearMissRaisesSum | python/SNAPS_assigner.py:1023-1035 | a row whose mismatch lies between the cutoffs makes the larger cutoff's sum strictly greater |
| HillClimb.ConsistencySumBounded | python/SNAPS_assigner.py:1023 | the sum is at most rows times 2^bound |
| HillClimb.Table | python/SNAPS_assigner.py:1022 | one consistency row per pair, with the pair's labels |
| HillClimb.ScoreBounded | python/SNAPS_assigner.py:1022-1023 | a matching scores at most n times 2^6 |
| HillClimb.ForcedIncludes | python/SNAPS_assigner.py:1027-1028 | exactly the pairs whose largest mismatch is below 0.2 and which have at least four good links |
| HillClimb.ForcedLabels | python/SNAPS_assigner.py:1027-1030 | the forced pairs are labelled in the matrix |
| HillClimb.ForcedDistinct | python/SNAPS_assigner.py:1027-1028 | rows with distinct spin systems and residues force pairs that share no row and no column |
| HillClimb.ForcedConflictFree | python/SNAPS_assigner.py:1022-1028 | the pairs a perfect matching forces are conflict-free, so the search keeps all of them |
| HillClimb.Candidates | python/SNAPS_assigner.py:1027-1030 | fails only when the k-best search from the incumbent's forced pairs runs out; on success, the ranked nodes of that search: searchDepth candidates in ascending score order, each a perfect matching that is best under its constraints and holds every pair the incumbent forces |
| HillClimb.RankedAreCandidates | python/SNAPS_assigner.py:1027-1030 | the ranked list of a search from the forced pairs, sorted, valid, extending and holding them, is the incumbent's candidates, each a perfect matching with its score |
| HillClimb.ScoreCandidates | python/SNAPS_assigner.py:1032-1035 | the consistency sum of each candidate, in order |
| HillClimb.FirstArgMax | python/SNAPS_assigner.py:1037-1039 | the first position of the largest value |
| HillClimb.Round | python/SNAPS_assigner.py:1027-1039 | fails only when searchDepth is 0 (max of an empty list) or the search runs out; on success, the incumbent's candidates and the first position of the best consistency sum among them |
| HillClimb.NoneBeats | python/SNAPS_assigner.py:1037-1042 | when the best candidate does not beat the incumbent, no candidate does |
| HillClimb.FirstBestIntro | python/SNAPS_assigner.py:1032-1039 | a position whose score is at least every score and above every earlier one is the first best candidate |
| HillClimb.PathExtend | python/SNAPS_assigner.py:1021-1042 | a chain of adoptions extended by one more adoption is a chain with the same start |
| HillClimb.Adopt | python/SNAPS_assigner.py:1037-1039 | the first best candidate, when it beats the incumbent, is adopted and extends the chain of incumbents |
| HillClimb.PathRaises | python/SNAPS_assigner.py:1023-1039 | with one cutoff, every adoption raises the consistency sum by at least one, so a chain of n adoptions raises it by at least n |
| HillClimb.PathBounded | python/SNAPS_assigner.py:1021-1042 | the sums of a one-cutoff climb stay within rows times 2^6, so it adopts at most that many times |
| HillClimb.ClimbStart | python/SNAPS_assigner.py:1018-1021 | a climb starts with its start alone |
| HillClimb.ClimbExtend | python/SNAPS_assigner.py:1037-1039 | adopting the first best candidate that beats the incumbent extends the climb by it |
| HillClimb.EndsFailing | python/SNAPS_assigner.py:1027-1030 | a failing round ends the climb with a failure |
| HillClimb.EndsSettled | python/SNAPS_assigner.py:1037-1042 | when the first best candidate does not beat the incumbent, the climb ends with the incumbent and none of its candidates scores above it |
| HillClimb.Advance | python/SNAPS_assigner.py:1021-1042 | one iteration of the loop: it ends the climb with a failing round or a settled incumbent, or adopts the next incumbent and extends the climb |
| HillClimb.FindConsistentAsWritten | python/SNAPS_assigner.py:1008-1046 | the climb as written: the incumbents form a chain of adoptions, each of a first best candidate whose 0.2 sum beats the 0.1 sum of the one before, starting from the unconstrained best assignment; within the fuel it fails only when a round fails, and on success returns the last incumbent with its candidates, none of whose 0.2 sums exceeds its 0.1 sum |
| HillClimb.Climb | python/SNAPS_assigner.py:1021-1042 | the corrected climb terminates: the incumbents form a chain of adoptions from the start, each raising the 0.1 sum by at least one, up to rows times 2^6; it fails only when a round fails, and on success returns the last incumbent with its candidates, none of which beats it |
| HillClimb.FindConsistentAssignments | python/SNAPS_assigner.py:1008-1046 | starts from the unconstrained best assignment and climbs with one cutoff; the chain, the failure cases and the result are as for Climb |
| HillClimb.AsWrittenReadopts | python/SNAPS_assigner.py:1023-1037 | the test as written adopts the incumbent's own table when one mismatch lies in [0.1, 0.2) |
| HillClimb.AsWrittenReadoptsExample | python/SNAPS_assigner.py:1023-1037 | a table with mismatch 0.15 and one link sums 0 under 0.1 and 2 under 0.2 |
| AltAssign.PairWith | python/SNAPS_assigner.py:888-899 | the pair of the matching with the given spin system (by_ss) or residue |
| AltAssign.KeyCovered | python/SNAPS_assigner.py:888-899 | a perfect matching has a pair for every spin system and every residue |
| AltAssign.AltStep | python/SNAPS_assigner.py:878-899 | one round: the best assignment avoiding the excluded pairs, and its row with the key at the given rank and relative score |
| AltAssign.AltGroup | python/SNAPS_assigner.py:876-902 | N rows ranked 2..N+1 with the pair's key; row j comes from the best assignment avoiding the pair and the j alternatives before it |
| AltAssign.GroupShaped | python/SNAPS_assigner.py:876-902 | a group whose exclusion list is the pair followed by the group's own pairs finds each row avoiding the pair and the rows before it |
| AltAssign.BestJustified | python/SNAPS_assigner.py:860-870 | each rank-1 row of the best matching is justified by that matching, with relative score 0 |
| AltAssign.FindAltAssignments | python/SNAPS_assigner.py:854-902 | the best rows first, then N rows per pair of the best matching, in its order; the j-th row of the i-th group has rank j + 2, the key of the i-th pair, and comes from the best assignment that avoids that pair and the j alternatives before it, with its score relative to the best |
| Rdcs.TranslationsProtein | python/lib/rdcs_lib.py:196-223 | the three-to-one table has the 20 codes as keys, and its inverse has the 20 letters |
| Rdcs.TranslationsItems | python/lib/rdcs_lib.py:198-222 | every item of the table is in it, in both directions |
| Rdcs.TranslationsSize | python/lib/rdcs_lib.py:198-222 | both tables have twenty entries |
| Rdcs.TranslationsRoundTrip | python/lib/rdcs_lib.py:220-223 | translating to one letter and back, or the other way round, is the identity |
| Rdcs.DictLookup | python/lib/rdcs_lib.py:198-222 | with distinct keys, each item is found in the built dictionary |
| Rdcs.MapValue | python/lib/rdcs_lib.py:243 | Series.map gives text exactly for text that is a key of the table, and NaN otherwise |
| Rdcs.TranslatedCells | python/lib/rdcs_lib.py:241-244 | a residue name becomes text exactly when it is one of the twenty three-letter codes, and that text translates back to the name; otherwise it becomes NaN |
| Rdcs.Frame.ApplyTranslation31Protein | python/lib/rdcs_lib.py:225-244 | the frame is translated in place, or raises KeyError and is unchanged without the column |
| Rdcs.CapitalizeIdempotent | python/lib/rdcs_lib.py:248 | capitalising twice is capitalising once |
| Rdcs.CapitalizeCode | python/lib/rdcs_lib.py:248 | ASP becomes Asp |
| Rdcs.CapitalizedIdempotent | python/lib/rdcs_lib.py:246-249 | capitalising a column twice gives the frame that capitalising it once gives |
| Rdcs.Frame.Translation3Lowercase | python/lib/rdcs_lib.py:246-249 | the column is capitalised in place, or raises KeyError and the frame is unchanged |
| Rdcs.SetColumn | python/lib/rdcs_lib.py:124-125 | df[name] = col: the column holds the new cells; a new name goes last, an existing one is replaced where it stands; the other columns are unchanged |
| Rdcs.Frame.Assign | python/lib/rdcs_lib.py:243 | the frame becomes the table with that column set |
| Rdcs.RemoveUnnecessaryColumns | python/lib/rdcs_lib.py:145-150 | succeeds exactly when all six columns exist; the result has the six renamed columns, in order |
| Rdcs.TidyColumns | python/lib/rdcs_lib.py:147-150 | the k-th tidy column is the k-th kept input column, under its new name |
| Rdcs.TidyTwiceFails | python/lib/rdcs_lib.py:147-150 | a tidy table cannot be tidied again (KeyError) |
| Rdcs.CheckSingleResidueAndChain | python/lib/rdcs_lib.py:152-155 | passes exactly when both column pairs exist and are equal; fails with the chain message exactly when the chain columns differ |
| Rdcs.SingleResidueRows | python/lib/rdcs_lib.py:152-155 | after a pass, every restraint has one chain and one residue |
| Rdcs.Labelled | python/lib/rdcs_lib.py:124-125 | the label column is str(sequence_code) + residue_name row by row, the other columns are unchanged; a KeyError without sequence_code or residue_name |
| Rdcs.Float | python/lib/rdcs_lib.py:134 | float() succeeds exactly on NaN or parsable text |
| Rdcs.Last | python/lib/rdcs_lib.py:131-134 | the last position carrying a label, whose write wins |
| Rdcs.MagnitudeCells | python/lib/rdcs_lib.py:128-134 | fails exactly when both tables are non-empty and a target column is missing or does not parse |
| Rdcs.Magnitude | python/lib/rdcs_lib.py:124-138 | a KeyError without the label columns; otherwise rows labelled by the measured restraints and columns by the predicted ones, holding the magnitude cells, and failing exactly when those fail |
| Rdcs.MagnitudeDistinct | python/lib/rdcs_lib.py:131-134 | with distinct labels each cell is measured minus predicted |
| Rdcs.MagnitudeRepeatedLabels | python/lib/rdcs_lib.py:131-134 | rows or columns that share a label hold the same cells |
| Rdcs.FillRow | python/lib/rdcs_lib.py:132-134 | the inner loop for one measured row: fails exactly when a value does not parse; otherwise the row is written |
| Rdcs.FillMagnitude | python/lib/rdcs_lib.py:128-134 | the nested loops give the specified cells |
| Rdcs.MagnitudeEnd | python/lib/rdcs_lib.py:131-138 | cells with every row written are the specified matrix |
| Rdcs.PredMeasuredToMagnitudeMatrix | python/lib/rdcs_lib.py:114-138 | both frames gain their label column; the result is the magnitude matrix of the old frames |
| Rdcs.AddPenaltyTables | python/lib/rdcs_lib.py:162-189 | the sum keeps the labels, and a cell is NaN exactly when either input cell is |
| Rdcs.AddPenaltyTablesSymmetric | python/lib/rdcs_lib.py:176 | the sum does not depend on which table is which, and each present cell is the sum of the two input cells |

## Left out

- I/O: reading files, configuration, correction and covariance tables, and NEF entries is out of scope. These values become parameters: the tables, `atom_set`, `Settings` and the correction table.
- Logging, `print` and the `verbose` output are not modelled.
- Floating point is modelled with reals. The densities (`norm.logpdf`, `multivariate_normal.logpdf`), `log10` and the text-to-float parser are function parameters.
- Scores.LogProbMatrix: with total, real-valued densities no NaN reaches the matrix. So the rule that replaces NaN by twice the matrix minimum (python/SNAPS_assigner.py:508-509) is the identity in the model. Only its failure on an empty matrix is kept.
- Scores.CalcLogProbMatrix: the `sf` argument is unused in the source and is not modelled. `atoms` is the set of atom types as a list, whose order Python leaves open; TotalPermutation shows the order does not matter in the independent model.
- The pivot from long to wide format in `import_pred_shifts` (python/SNAPS_assigner.py:150-158) is not modelled. The model starts from residues keyed by number and models only the offset, the names and the i-1/i+1 columns (160-173).
- `find_best_assignments`, called by the k-best, alternative and consistent searches, is not defined in the file: the source has only `find_best_assignment`. The model calls FindBestAssignment on the log-probability matrix and passes the dummy labels explicitly.
- Assignment.FindBestAssignment: line 656 indexes the exclude pair by the literal column names SS_name and Res_name. The model uses the pair's row and column, which is the same for the log-probability matrix.
- Assignment.FindBestAssignment: it requires every surviving include pair to name a row and a column of the matrix. In the source, `drop` raises a KeyError for an unknown label (python/SNAPS_assigner.py:625). That error path is not modelled. Every caller in the model meets this requirement. The k-best search passes its initial includes, which are the climb's forced pairs and are labelled by HillClimb.ForcedLabels, and pairs of a node's matching. The alternative search passes no includes.
- Assignment.FindBestAssignment: exclude pairs whose labels are not in the reduced matrix are ignored; only cells of the reduced matrix are penalised. The source writes them with `.loc` (python/SNAPS_assigner.py:650-656), so an unknown label enlarges the frame with NaN cells and `linear_sum_assignment` then raises. A dummy row label dropped by an include raises KeyError in `.loc[dummy_rows, c]`. Example: a 2x2 matrix with rows a and b, `exc = [(z, x)]` and no includes; the source raises and the model returns the best matching. These error paths are not modelled. The callers in the model exclude only pairs of matchings of the same matrix, so every label is in the matrix, and CleanExcludes drops the pairs that meet an include.
- Solver.LinearSumAssignment: ties between equally good permutations may be broken differently than in scipy. The model proves optimality, not scipy's choice.
- KBest.FindKBestAssignments: it does not prove that the ranked matchings are distinct or the k best overall. It proves that the lists are those a run of search steps from the root reaches, and that each ranked matching is best under its own constraints.
- KBest.FindKBestAssignments: a node's includes are stated to contain the initial includes, not to equal them, because children add free pairs; the matching is stated to hold them only when they are conflict-free, since otherwise `find_best_assignment` drops some.
- The re-indexing of the matching frame by `check_matching_consistency` (python/SNAPS_assigner.py:739-740) is a side effect on the caller's frame and is not modelled.
- HillClimb.FindConsistentAsWritten: it carries a fuel bound on the number of rounds, because the loop as written need not end (see Findings). When the fuel runs out it fails, which the source never does; the climb up to that point is still stated.
- HillClimb.FindConsistentAssignments: the climb is given link matrices in its context. In the source, each round's `check_matching_consistency` computes them when the assigner has none, and fails when no carbon is sequential (python/SNAPS_assigner.py:519-581, 733-735). That failure is modelled by Consistency.CheckMatchingConsistency, but the climbs cannot reach it. The same holds for HillClimb.Climb and HillClimb.FindConsistentAsWritten.
- KBest.RankBest: a step fixes the new unranked list only as a multiset: the old list without the popped node, plus the present children. The method inserts the children one by one after equal scores (bisect_right), but the search relation `Step` leaves the order of nodes with tied scores open. So which of several tied best nodes `pop()` takes is modelled relationally, not fixed.
- AltAssign.FindAltAssignments:
  - The final `sort_values` and `make_assign_df` are not modelled, so rows stay in generation order.
  - The unused `penalty` value and the relative probability being at most 0 are not stated.
- Rdcs.PredMeasuredToMagnitudeMatrix: it requires two distinct frames, so aliasing one frame as both arguments is not modelled. `print` and `astype(float)` are not modelled: the cells are already floats or NaN.
- Rdcs.AddPenaltyTables: it requires tables with the same labels in the same order. pandas' alignment of differing labels is not modelled.
- Rdcs.CheckSingleResidueAndChain: `Series.equals` compares the cells only; dtype differences are not modelled.
- Rdcs.Capitalize: it changes the case of ASCII letters only.
- `magnitude_matrix_to_log_probability_matrix` and `SIGMA` (python/lib/rdcs_lib.py:140-143) are not part of the named core. `check_dataframe_compatability` is only called from a commented-out line.
- The plotting, output and `simulate_pred_shifts` functions are out of scope.
- The model also leaves out `find_consistent_assignments2`, `find_seq_assignment`, `add_consistency_info`, `make_assign_df` and `assign_from_preds`.

## Findings

| source | as written | input that shows it | evidently intended | confidence | as-written member | corrected member |
|---|---|---|---|---|---|---|
| python/SNAPS_assigner.py:1023-1037 | the incumbent's consistency sum counts rows with Max_mismatch < 0.1; each candidate's counts rows with Max_mismatch < 0.2; a candidate is adopted when its sum exceeds the incumbent's | a matching with one pair of Max_mismatch 0.15 and one good link sums 0 under 0.1 and 2 under 0.2. In the first round the incumbent is the unconstrained best assignment, so it is also best under its own forced includes and heads the candidates. It then beats its own sum and is adopted again, and the loop can repeat without end | the same cutoff on both sides, so that adoption needs a strict gain and the loop ends | not executed | HillClimb.AsWrittenReadoptsExample | HillClimb.Climb |
