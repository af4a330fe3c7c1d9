# Exact abstraction, symmetry and campaign machinery: a verified model

This project models the exact core of the ACFQP repository in Dafny and proves what its verifiers
and runners are for. `dafny verify dfyconfig.toml` checks everything.

- **Sharding** (`ShardScheduling`, `ShardRunner`, `ShardProcesses`): longest-processing-time-first assignment of test
  modules to the least-loaded shard, Graham's bound, and which orders of starting and ending the
  shard processes cover all modules.
- **Exact outcome measures** (`Outcomes`): coalesced dictionaries of outcome probabilities.
- **Symmetry** (`Symmetry`, `OrbitQuotient`, `QuotientValues`, `FrontierGap`, `OrbitClosure`,
  `OrbitCells`): the automorphism
  recomputation, orbits, stabilizers, transporters and concretizers, the exact orbit quotient, and
  the symmetry check of a partitioned domain. Probabilities and rewards are exact fractions in the
  source and reals here.
- **The concrete game** (`D4`, `G2048`, `GameLaw`, `GameQuotient`, `SmallBoards`, `GameFrontier`): the eight board symmetries, the
  Generalized-2048 kernel and the canonicalizer, which satisfy the hypotheses of the previous group
  for every board size, rank cap and spawn distribution.
- **Refinement from counterexamples** (`Realizations`, `CellModels`, `PolicyAudit`,
  `AuditWorstCase`, `AuditExactness`, `Counterexamples`, `PolicyLift`, `Refinement`, `SplitWidening`): behavioural distance and cell widths, audited
  bounds and certificates, the witness inventory, the nominal model, the lifting worklist, and
  predicate splits. `FiniteSums` and `Extrema` hold finite sums and extrema, and
  `Lexicographic` the order of tuples and strings.
- **Commitment and isolation** (`MerkleCommitment`, `ImportIsolation`): the ordered Merkle root,
  with binding by collision extraction, and the import scope with its guard.
- **Campaign** (`AtomicPublish`, `AttemptJournal`, `Campaign`): write-once publication under crashes
  and interference, the attempt journal's writer and verifier, and the phase machine of the runner.
- **Runtime authority** (`RuntimeAuthority`): owner-bound mints and structural fingerprints.

Some promises hold only under a condition. It is proved exactly except where noted:

- *Witness search.* Ordering a pair inside the inner loop rebinds the outer loop variable
  (`scripts/verify_aliased_cegar.py:435-447`). A pair of members is reported if and only if it has a
  gap and no member listed between the two has a gap to the first and a smaller rank
  (`SearchReportsIff`); `UnsortedSearchMissesWitness` is a failing input. The failing orders do not
  reach `_witnesses`: every partition there is built by `Partition.from_mapping`, which sorts by
  `repr` (`src/acfqp/abstraction/partition.py:28-29`), the order the search ranks by. Emptiness of
  the result needs no order at all (`EmptySearchHasNoWitness`).
- *Attempt journal.* An append that raises after its event file was linked does not advance the
  writer's sequence number, so the failure record that `main` then writes reuses the number. A
  written journal verifies if and only if no temporary file is left behind, it has at most 10000
  events, no number repeats and every stored object is referenced (`Journal.VerifiesIff`);
  `Journal.CommitCaughtFailure` says when the failure record repeats a number.
- *Mints.* The module documentation says a mint proves the presented object is the exact bound
  instance. It remembers an identity, and identities of dead objects are reused: the passing object
  is the bound one exactly while the bound one lives (`AtMostOnePasses`, `ReusedIdentityPasses`), and
  a retained member is the original exactly while the original lives (`PassingHoldsOriginalIff`,
  `ReplacedMemberPasses`).
- *Shards.* Each process reads the timing cache when it starts and, when it ends, replaces it by
  what it read with its own modules' durations (`scripts/run_pytest_parallel.py:97-126, 343-351`).
  Whatever the durations, all modules are run if and only if no process that has modules under the
  first predictions starts after another such process has ended (`CoverageIff`); otherwise one changed duration suffices to
  lose a module (`LateOrderLoses`, with `ChangedTimingsSkipModule` as the smallest input).
- *Frontiers.* For a general kernel the quotient's deterministic values are exactly the values of
  orbit-consistent ground policies (`QuotientValuesAreConsistentValues`), and the ground can do
  strictly better under a risk bound (`MixedOrbitsHaveAGap`, a kernel the generic comparison in
  `src/acfqp/symmetry/quotient.py` could be given). Two sufficient conditions for equal frontiers
  are proved: no two members of an orbit are reachable together (`IsolatedOrbitsHaveNoGap`), or one
  orbit-consistent policy is dominant (`DominantClosesGap`). The baseline's game meets the second:
  every 2x2 query that starts with at most three tiles, hence under both registered 2x2 initial
  laws, has equal one-point frontiers at every represented pair (`QueryFrontiersAgree`). Full 2x2 boards and the 3x3
  grid are not covered by this; unconstrained optima agree there too (`EveryQueryLosesNothing`).
- *Merkle roots.* Binding from the root alone excludes 58-byte roles when one sequence is empty
  (`RootIsBinding`, `FiftyEightByteRoleIsAmbiguous`).

## Model

| member | source | states |
|---|---|---|
| `ShardScheduling.LoadsConserveTotal` | scripts/run_pytest_parallel.py:282-296 | shard loads always add up to the total predicted time, for every assignment |
| `ShardScheduling.LastPlacementBound` | scripts/run_pytest_parallel.py:286-296 | m times the load that takes the last module is at most the total plus (m-1) times that module |
| `ShardScheduling.LargeJobsOptimal` | scripts/run_pytest_parallel.py:275-296 | if every module exceeds a third of an achievable maximum load, the greedy schedule stays within that load |
| `ShardScheduling.NoRoomMeansInfeasible` | scripts/run_pytest_parallel.py:286-296 | if no greedy shard of one or two large modules has room for the next, no schedule fits |
| `ShardScheduling.GrahamBound` | scripts/run_pytest_parallel.py:275-297 | every greedy load is at most 4/3 - 1/(3m) times the maximum load of any other m-way assignment |
| `ShardScheduling.FirstPlacements` | scripts/run_pytest_parallel.py:286-296 | while predictions are positive the first m modules open the shards in index order |
| `ShardScheduling.ZeroTail` | scripts/run_pytest_parallel.py:286-296 | from the first zero prediction on, all modules join one shard |
| `ShardScheduling.PopulatedShards` | scripts/run_pytest_parallel.py:282-299 | shard s is populated if and only if there are more than s modules and the s largest predictions are positive |
| `ShardRunner.ReadTimings` | scripts/run_pytest_parallel.py:97-113 | exactly the nonnegative numeric cache entries survive |
| `ShardRunner.CollectTimings` | scripts/run_pytest_parallel.py:105-112 | the loop over cache items, in any order, keeps exactly those entries |
| `ShardRunner.PredictAll` | scripts/run_pytest_parallel.py:270-281 | one nonnegative prediction per module in discovery order: the usable cache entry, otherwise a thousandth of the file size |
| `ShardRunner.OrderedSorts` | scripts/run_pytest_parallel.py:275-281 | the scheduling order is sorted by descending prediction then path and is a permutation |
| `ShardRunner.PrecedesIff` | scripts/run_pytest_parallel.py:283-285 | larger predictions first; on a tie the path that is a prefix of the other or has the smaller character where they first differ |
| `Lexicographic.LeqIff` | src/acfqp/domains/g2048.py:207-210 | one tuple is at most another iff it is a prefix or smaller at the first position where they differ |
| `ShardRunner.SortedArrangementUnique` | scripts/run_pytest_parallel.py:275-281 | two sorted arrangements of the same modules are equal, whatever the discovery order |
| `ShardRunner.AssignShards` | scripts/run_pytest_parallel.py:286-296 | the loop computes the greedy placement: contents of every shard in order and every load |
| `ShardRunner.SelectShard` | scripts/run_pytest_parallel.py:258-299 | each argument and selection error exactly under its condition, otherwise the requested greedy shard |
| `ShardRunner.PlacementConserves` | scripts/run_pytest_parallel.py:282-296 | every module is on exactly one shard (multiset equality) |
| `ShardRunner.ProcessesAgreeAndCover` | scripts/run_pytest_parallel.py:258-299 | processes with the same predictions and different discovery orders select the same shards, and together the shards hold every module |
| `ShardRunner.ChangedTimingsSkipModule` | scripts/run_pytest_parallel.py:343-351 | after shard 0 found its module faster than predicted, shard 1 runs it again and skips the other |
| `ShardProcesses.CoverageIff` | scripts/run_pytest_parallel.py:266-351 | for all durations every module is run, if and only if no process with modules starts after another with modules has ended |
| `ShardProcesses.PunctualOrderCovers` | scripts/run_pytest_parallel.py:266-299 | in such an order every module is run |
| `ShardProcesses.LateOrderLoses` | scripts/run_pytest_parallel.py:343-351 | in any other order some durations leave a module out |
| `ShardProcesses.HomeIs` | scripts/run_pytest_parallel.py:275-297 | a module is run by exactly the shard of its position in the scheduling order |
| `ShardProcesses.RaisedMovesUp` | scripts/run_pytest_parallel.py:275-297 | raising the first module of a shard above all others moves the first modules of the shards before it up by one shard |
| `ShardProcesses.LoweredMovesDown` | scripts/run_pytest_parallel.py:275-297 | lowering it to zero moves those of the populated shards after it down by one |
| `Outcomes.CoalescedOutcomeMeasure` | scripts/verify_d4_baseline.py:113-136 | the loop builds the measure of the transformed list: keys are its atoms, values their masses |
| `Outcomes.SameMassSameExpect` | scripts/verify_d4_baseline.py:113-136 | equal measures give equal expectations of every function of the outcome atom |
| `Outcomes.ExpectMapped` | scripts/verify_phase3a.py:739-755 | change of variables under a state transform |
| `Outcomes.SameMassMapped` | scripts/verify_phase3a.py:739-755 | coalescing commutes with a state transform |
| `Outcomes.PermutationSameMass` | scripts/verify_d4_baseline.py:113-136 | permuted outcome lists have the same measure |
| `Outcomes.MeasuresEqualIffSameMass` | scripts/verify_d4_baseline.py:113-136 | dictionary equality decides equality of measures |
| `Outcomes.MeasureConservesTotal` | scripts/verify_d4_baseline.py:113-136 | coalescing conserves total probability |
| `Symmetry.CompareStep` | scripts/verify_d4_baseline.py:668-676 | comparing coalesced dictionaries decides equivariance of one step |
| `Symmetry.CheckNode` | scripts/verify_d4_baseline.py:640-683 | the tests of one node under one element pass iff the node is equivariant, with the transition count |
| `Symmetry.CheckNodeUnderGroup` | scripts/verify_d4_baseline.py:640-683 | the same for all elements, with both counters |
| `Symmetry.CheckAutomorphism` | scripts/verify_d4_baseline.py:640-683 | the recomputation passes iff the graph is automorphic; state checks are nodes times elements, transition checks are pairs times elements |
| `Symmetry.PassedCheckIsSymmetric` | scripts/verify_d4_baseline.py:340-355 | honest terminal flags, closure and a passed recomputation give equivariance at every state-time pair |
| `Symmetry.StepValueInvariant` | src/acfqp/planning/ground.py:119-174 | a step at g x under g a is worth the step at x under a |
| `Symmetry.TransportPreservesValue` | src/acfqp/planning/ground.py:119-174 | transporting a policy preserves its exact reward and failure at every horizon |
| `Symmetry.TransportLegal` | scripts/verify_d4_baseline.py:640-683 | transported legal policies are legal |
| `Symmetry.SymmetricStatesHaveEqualValueSets` | scripts/verify_d4_baseline.py:640-683 | symmetric states have the same achievable (reward, failure) pairs, frontier and constrained optima at every horizon |
| `OrbitQuotient.TransporterMeetsOrbit` | scripts/verify_d4_baseline.py:594-618 | an inverse action is in the support iff the transporter carries it into the stabilizer orbit of the canonical action |
| `OrbitQuotient.SupportFromOneTransporter` | scripts/verify_d4_baseline.py:397-417 | the support is one transporter's inverse image of the stabilizer orbit, for any transporter |
| `OrbitQuotient.SupportEquivariant` | scripts/verify_d4_baseline.py:594-618 | the support at g x is the g-image of the support at x |
| `OrbitQuotient.SupportSizeConstant` | scripts/verify_d4_baseline.py:594-618 | supports have one size across an orbit |
| `OrbitQuotient.SupportsPartitionIff` | scripts/verify_d4_baseline.py:483-526 | supports partition the legal actions of a state iff the canonical action orbits partition those of the representative |
| `OrbitQuotient.LeastLabelsPartition` | scripts/verify_d4_baseline.py:502-526 | stabilizer orbits of the first actions partition the legal actions the stabilizer preserves |
| `OrbitQuotient.BuildActionOrbits` | src/acfqp/symmetry/quotient.py:596-621 | the loop refuses iff the stabilizer does not preserve the legal actions, and otherwise labels each orbit by its first action |
| `QuotientValues.ProjectedStep` | src/acfqp/symmetry/quotient.py:659-712 | valuing a projected law at representatives is valuing the law itself with agreeing continuations |
| `QuotientValues.SupportMeasure` | scripts/verify_d4_baseline.py:594-618 | all actions of one support, at every member of the orbit, induce one orbit-projected outcome measure |
| `QuotientValues.TupleIndependent` | scripts/verify_d4_baseline.py:723-726 | whatever is read off successor orbit, features and flags, the uniform mixture at any member gives the representative's entry |
| `QuotientValues.TupleEntries` | src/acfqp/symmetry/quotient.py:659-711 | feature totals, failure probability, successor-orbit masses and successor-cell masses with one merged failure cell are such entries |
| `QuotientValues.TerminationEntry` | src/acfqp/symmetry/quotient.py:659-711 | the termination probability is one whenever successors stop like their representatives, which holds while they have time left |
| `QuotientValues.LastStepEntries` | src/acfqp/symmetry/quotient.py:659-711 | the entries are what evaluation uses: with one step left reward and failure are the feature and failure entries, and stopping and continuing exhaust the probability |
| `QuotientValues.SameCellIff` | src/acfqp/symmetry/quotient.py:659-711 | two successors share a cell iff both failed, or neither did and they share an orbit |
| `QuotientValues.SupportStepValue` | scripts/verify_d4_baseline.py:548-618 | all actions of one support have the canonical action's value for any agreeing continuations |
| `QuotientValues.LiftedPolicyIsExact` | src/acfqp/symmetry/quotient.py:1291-1349 | every quotient policy has exactly the reward and failure of its uniform lifted mixture at every horizon |
| `QuotientValues.ConsistentPolicyIsExact` | src/acfqp/symmetry/quotient.py:1291-1349 | every ground policy that plays inverse actions of the quotient policy's choices has its values |
| `QuotientValues.QuotientValuesAreConsistentValues` | scripts/verify_d4_baseline.py:728-738 | a value is a quotient value iff a legal orbit-consistent ground policy achieves it |
| `QuotientValues.SelectionIsExact` | scripts/verify_d4_baseline.py:723-759 | so does the deterministic policy that plays one inverse action |
| `QuotientValues.QuotientValueIsAchievable` | scripts/verify_d4_baseline.py:723-759 | quotient values are achieved by a legal deterministic ground policy |
| `QuotientValues.NoActionRestrictionGap` | scripts/verify_d4_baseline.py:723-759 | with complete labels the quotient optimum equals the ground optimum at every horizon |
| `QuotientValues.OptimumIsBest` | scripts/verify_d4_baseline.py:723-759 | no legal policy exceeds the optimum anywhere, and one attains it at every state and horizon |
| `QuotientValues.LeastLabelsAreComplete` | scripts/verify_d4_baseline.py:502-526 | the canonical actions of an exact quotient are complete labels |
| `QuotientValues.CanonicalActionsLoseNothing` | scripts/verify_d4_baseline.py:723-759 | planning with canonical actions only loses nothing at any horizon |
| `FrontierGap.IsolatedOrbitsHaveNoGap` | src/acfqp/symmetry/quotient.py:1408-1526 | if no two members of an orbit are reachable together, achievable and quotient values coincide |
| `FrontierGap.DominantBeatsAll` | src/acfqp/planning/ground.py:119-174 | a policy no single deviation improves in reward or risk beats every policy in both |
| `FrontierGap.DominantClosesGap` | src/acfqp/symmetry/quotient.py:1408-1526 | if such a policy is orbit-consistent, ground and quotient have the same one-point frontier |
| `FrontierGap.SameConstrainedOptima` | src/acfqp/symmetry/quotient.py:1408-1526 | then both constrained problems are solvable under the same risk bounds with the same reward |
| `FrontierGap.MixedOrbitsHaveAGap` | src/acfqp/symmetry/quotient.py:1408-1526 | a small kernel with an exact quotient and a strictly better ground value under a risk bound |
| `OrbitCells.CheckState` | scripts/verify_phase3a.py:765-799 | the first failing test of one state under one element, in the source order |
| `OrbitCells.AutomorphismFailures` | scripts/verify_phase3a.py:758-800 | no failure iff all tests hold everywhere; otherwise the failure of the first failing pair in loop order |
| `OrbitCells.TerminalInvariant` | scripts/verify_phase3a.py:765-776 | terminal flags, which are not compared, agree along orbits after a passed check |
| `OrbitCells.CellsAreUnionsOfOrbits` | scripts/verify_phase3a.py:763-771 | states with one orbit key share their cell |
| `OrbitCells.CompressionOrder` | scripts/verify_phase3a.py:479-491 | cells are at most as many as orbits, orbits at most as many as states |
| `OrbitCells.MixedStepInvariant` | scripts/verify_phase3a.py:777-799 | the moved mixture at g x is worth the mixture at x |
| `OrbitCells.MixedStepAdds` | scripts/verify_phase3a.py:777-799 | disjoint mixtures add up and a single action counts with its probability |
| `OrbitCells.LiftedValuesConstantOnOrbits` | scripts/verify_phase3a.py:758-800 | every semantic policy has one lifted reward and failure per orbit at every horizon |
| `OrbitCells.SingleActionsLift` | scripts/verify_phase3a.py:758-800 | where labels stand for single actions, lifted values are the values of the ground policy that plays them |
| `D4.TransformCell` | src/acfqp/domains/g2048.py:72-90 | the rotation loop computes the closed-form cell map |
| `D4.MoveCellCompose` | src/acfqp/domains/g2048.py:72-90 | cell maps compose as the elements do, for every board size |
| `D4.MoveCellInverse` | src/acfqp/domains/g2048.py:155-165 | inverse elements undo each other on every cell |
| `D4.FaithfulOnThree` | src/acfqp/domains/g2048.py:140-152 | the 3x3 images tell the eight elements apart |
| `D4.ComposeBySearch` | src/acfqp/domains/g2048.py:140-152 | the search on 3x3 images always finds the composite that is right for every size |
| `D4.TransformBoard` | src/acfqp/domains/g2048.py:93-103 | the scatter loop computes the moved board |
| `D4.MoveBoardCompose` | src/acfqp/domains/g2048.py:93-103 | board transforms compose |
| `D4.MoveBoardInverse` | src/acfqp/domains/g2048.py:93-103 | board transforms are undone by inverses |
| `D4.MoveActionCompose` | src/acfqp/domains/g2048.py:114-123 | action transforms compose although endpoints are re-sorted |
| `G2048.ListActions` | src/acfqp/domains/g2048.py:344-356 | the nested loops list exactly the legal merges |
| `G2048.MergesEquivariant` | src/acfqp/domains/g2048.py:344-356 | legal merges of a moved board are the moved legal merges |
| `GameLaw.TouchingIff` | src/acfqp/domains/g2048.py:309-312 | two cells touch iff one is the right or the lower neighbour of the other, for every size |
| `G2048.AfterMergeMoves` | src/acfqp/domains/g2048.py:365-369 | merging commutes with every symmetry |
| `G2048.Step` | src/acfqp/domains/g2048.py:358-399 | illegal actions are refused, otherwise the loops produce the law |
| `GameLaw.StepOutcome` | src/acfqp/domains/g2048.py:365-399 | every outcome in loop order: spawn cell by its number of earlier free cells, every cell of the next board, probability, reward, and failure iff no merge is left |
| `GameLaw.RewardScale` | src/acfqp/domains/g2048.py:374-374 | merging two tiles of the largest rank earns one, every lower rank half of the next |
| `GameLaw.RewardBelowCap` | src/acfqp/domains/g2048.py:374-374 | a merge a number of ranks below the largest earns one over that power of two |
| `G2048.MergeLeavesRoom` | src/acfqp/domains/g2048.py:370-372 | a legal merge leaves an empty cell |
| `G2048.LawIsStochastic` | src/acfqp/domains/g2048.py:374-399 | outcome probabilities of a legal merge sum to one |
| `G2048.RegisteredSpawnsAreStochastic` | src/acfqp/domains/g2048.py:296-434 | the spawn distributions of both grids and of the safe-chain fixture are positive and sum to one |
| `G2048.GameIsPositive` | src/acfqp/domains/g2048.py:374-396 | every outcome probability is positive |
| `G2048.BoardSymmetriesAreAGroup` | src/acfqp/domains/g2048.py:42-165 | all group and action laws hold, for every size |
| `G2048.KernelIsEquivariant` | src/acfqp/domains/g2048.py:309-403 | actions, terminal status and the exact law of every action are equivariant |
| `G2048.GamePassesRecomputation` | scripts/verify_d4_baseline.py:640-683 | the recomputation passes on every orbit-closed graph of the game |
| `G2048.SymmetricBoardsPlayEqually` | scripts/verify_d4_baseline.py:640-683 | symmetric boards have equal value sets, frontiers and constrained optima |
| `GameQuotient.BestIsLeast` | src/acfqp/domains/g2048.py:198-211 | the chosen element has the least image and is the first with it |
| `GameQuotient.RepresentativeIsSmallest` | src/acfqp/domains/g2048.py:198-211 | against every image the representative is equal or has the smaller rank in the first cell where they differ |
| `GameQuotient.CanonicalInvariant` | src/acfqp/domains/g2048.py:198-211 | all images of a board have one representative |
| `GameQuotient.CanonicalizerIsLawful` | src/acfqp/domains/g2048.py:198-211 | the canonicalizer satisfies the laws the quotient needs |
| `GameQuotient.SameRepresentativeIffSameOrbit` | src/acfqp/domains/g2048.py:168-211 | representatives agree iff one board is an image of the other |
| `GameQuotient.GameQuotientIsExact` | src/acfqp/symmetry/quotient.py:448-496 | the orbit-closed state-time quotient of the game is exact |
| `GameQuotient.EnumeratedGraphIsSymmetric` | src/acfqp/symmetry/quotient.py:448-496 | the graph enumerated for any query of the game is closed under steps and symmetries with honest flags |
| `GameQuotient.EveryQueryIsExact` | src/acfqp/symmetry/quotient.py:1058-1104 | for every query of the game the recomputation passes, the quotient is exact and symmetric boards have equal achievable pairs |
| `GameQuotient.EveryQueryLosesNothing` | src/acfqp/symmetry/quotient.py:578-655 | for every query the canonical merges lose nothing against all merges |
| `GameQuotient.ListPairs` | src/acfqp/symmetry/quotient.py:448-496 | every finite set of state-time pairs has a node list with honest flags |
| `SmallBoards.StepWorthMoves` | src/acfqp/domains/g2048.py:358-399 | a step of a moved board is worth the step of the board, for every symmetric valuation |
| `SmallBoards.LeavingIsBetter` | src/acfqp/domains/g2048.py:358-399 | after a corner merge, leaving the corner to the next spawn is at least as good unless the third tile matches |
| `SmallBoards.KeepingIsBetter` | src/acfqp/domains/g2048.py:358-399 | if it matches, keeping the merged tile in the corner is at least as good |
| `SmallBoards.BestExists` | src/acfqp/domains/g2048.py:344-399 | every playable 2x2 board with an empty cell has a merge no other beats under any symmetric valuation that ranks failure last |
| `SmallBoards.LawOutcome` | src/acfqp/domains/g2048.py:365-396 | every outcome keeps the number of tiles and carries the reward of the merged rank |
| `SmallBoards.SameRank` | src/acfqp/domains/g2048.py:344-356 | with at most three tiles all legal merges merge one rank |
| `GameFrontier.BestGroundIsDominant` | scripts/verify_d4_baseline.py:728-738 | playing such merges is dominant at every node, for every nonnegative weight |
| `GameFrontier.FrontiersAgree` | scripts/verify_d4_baseline.py:728-738 | at every node ground and quotient frontier are the same point and constrained results agree under every bound |
| `GameFrontier.SmallQueriesStaySmall` | src/acfqp/symmetry/quotient.py:448-496 | a query that starts with at most three tiles never reaches a fuller board |
| `GameFrontier.QueryFrontiersAgree` | scripts/verify_d4_baseline.py:728-738 | the value checks hold at every represented pair of every such query |
| `GameFrontier.RegisteredQueriesAreSmall` | src/acfqp/domains/g2048.py:408-456 | both registered 2x2 kernels and their initial boards meet the hypotheses |
| `GameFrontier.GameStopsAlike` | src/acfqp/domains/g2048.py:401-403 | successors of the game stop like their representatives |
| `OrbitClosure.EnqueueOrbit` | src/acfqp/symmetry/quotient.py:461-471 | adds exactly the orbit to the seen set and its new pairs to the worklist, or the union exceeds the cap |
| `OrbitClosure.EnumerateOrbitClosure` | src/acfqp/symmetry/quotient.py:448-496 | terminates with the least set closed under steps and the group; the cap is exceeded only if no complete set fits, a missing action only in every complete set |
| `OrbitClosure.ClosureIsReachability` | src/acfqp/symmetry/quotient.py:448-496 | the result holds exactly the pairs reached from initial pairs by symmetries and steps of nonterminal states |
| `Realizations.RealizationDistance` | scripts/verify_aliased_cegar.py:355-372 | the loop over the union of successor cells computes reward gap plus failure gap plus total variation |
| `Realizations.DistancePseudometric` | scripts/verify_aliased_cegar.py:355-372 | nonnegative, zero on equals, symmetric, triangle inequality |
| `Realizations.VariationIsLargestContrast` | scripts/verify_aliased_cegar.py:355-372 | twice the total variation is the largest contrast over events; for equal totals the variation is the largest difference of an event's probabilities |
| `Realizations.NoGapIffSameBehaviour` | scripts/verify_aliased_cegar.py:355-372 | distance zero iff reward, failure and all successor masses agree |
| `Realizations.CoarseningContracts` | scripts/verify_aliased_cegar.py:355-372 | merging successor cells never increases the distance |
| `Realizations.CellWidth` | scripts/verify_aliased_cegar.py:375-389 | the width is an upper bound of all pairwise distances and attained, or zero |
| `Realizations.WidthShrinksOnSubsets` | scripts/verify_aliased_cegar.py:655-671 | for a fixed successor partition, subsets have no larger width |
| `Realizations.WidthGrowsWithRefinement` | scripts/verify_aliased_cegar.py:655-671 | refining the successor partition never lowers a width |
| `Realizations.SplitCanWidenAnotherCell` | scripts/verify_aliased_cegar.py:655-671 | a concrete split that widens another cell from zero |
| `CellModels.SuccessorMass` | src/acfqp/abstraction/quotient.py:247-286 | a realization's successor entry, zero if absent, is the probability of continuing in that cell |
| `CellModels.RealizationCoarsens` | src/acfqp/abstraction/quotient.py:247-286 | merging cells of the partition merges the successor entries of every realization and nothing else |
| `CellModels.ContinuationByCells` | src/acfqp/abstraction/quotient.py:247-286 | expected continuation is the cell-mass weighted sum of cell values |
| `CellModels.RealizedStep` | src/acfqp/abstraction/quotient.py:247-286 | a realization determines the exact one-step value for every valuation of cells |
| `PolicyAudit.AuditBoundsAreSound` | src/acfqp/planning/audit.py:137-196 | audited lower reward and upper failure bracket the lifted policy at every horizon |
| `PolicyAudit.UpperEnvelopeIsSound` | src/acfqp/planning/audit.py:61-99 | no legal ground policy earns more than the envelope |
| `PolicyAudit.CertificateIsSound` | src/acfqp/planning/audit.py:198-257 | a certified policy is within the regret tolerance of every ground policy and within the risk budget |
| `PolicyAudit.AtRootAdds` | src/acfqp/planning/audit.py:212-222 | root values are weighted by the initial probabilities and add up |
| `AuditWorstCase.BoundsAreWorstCase` | src/acfqp/planning/audit.py:137-196 | on every partition the bounds are exactly the largest failure and smallest reward over all choices of members at every step |
| `AuditWorstCase.EnvelopeIsBestCase` | src/acfqp/planning/audit.py:61-99 | the envelope is exactly the largest reward over all choices of members and legal actions |
| `AuditExactness.RiskExactIff` | src/acfqp/planning/audit.py:137-196 | up to any horizon the failure bound is exact iff no reached cell has members with different failure probabilities |
| `AuditExactness.RewardExactIff` | src/acfqp/planning/audit.py:137-196 | the same for the reward bound |
| `AuditExactness.UpperExactIff` | src/acfqp/planning/audit.py:61-99 | the envelope is the best reward of every covered state iff no cell has members with different best rewards |
| `AuditExactness.CertifiedIff` | src/acfqp/planning/audit.py:198-238 | where no audited value varies inside a cell, a policy is certified iff its true regret and true failure probability are within bounds |
| `AuditExactness.SingletonCellsAliasNothing` | src/acfqp/planning/audit.py:198-238 | one covered state per cell meets that condition |
| `AuditExactness.NoWitnessIsAuditedExactly` | src/acfqp/planning/audit.py:137-196 | without witnesses and mixed cells both bounds are the lifted policy's own values |
| `Counterexamples.CollectWitnesses` | scripts/verify_aliased_cegar.py:435-447 | the loops over the members of one cell compute the search |
| `Counterexamples.CollectRow` | scripts/verify_aliased_cegar.py:442-447 | the inner loop with the rebound variable computes one row |
| `Counterexamples.CollectInventory` | scripts/verify_aliased_cegar.py:430-447 | the inventory holds exactly the searched pairs of the reachable cells with time left |
| `Counterexamples.SearchReportsIff` | scripts/verify_aliased_cegar.py:435-447 | a pair is reported iff it has a gap and no member between has a gap to the first and a smaller rank |
| `Counterexamples.SearchIsCompleteIff` | scripts/verify_aliased_cegar.py:435-447 | no pair is missed iff no gap pair is overtaken |
| `Counterexamples.SortedSearchIsInventory` | src/acfqp/abstraction/partition.py:28-29 | in state order, as partitions list members, the search reports every gap pair once |
| `Counterexamples.InventoryIsComplete` | scripts/verify_aliased_cegar.py:423-447 | the inventory holds exactly the pairs with a positive gap |
| `Counterexamples.UnsortedSearchMissesWitness` | scripts/verify_aliased_cegar.py:435-447 | a listing out of state order whose search loses a witness |
| `Counterexamples.MeansAreExact` | src/acfqp/abstraction/quotient.py:359-428 | without witnesses every mean equals each member's own value |
| `FiniteSums.UniformIsMean` | src/acfqp/abstraction/quotient.py:377-386 | the uniform average times the number of members is their sum |
| `Counterexamples.NominalIsMean` | src/acfqp/abstraction/quotient.py:359-428 | for every aliased cell and horizon, the number of active members times a nominal value is the sum of the members' own steps under the nominal continuation |
| `Counterexamples.LastStepIsMean` | src/acfqp/abstraction/quotient.py:373-424 | with one step left the nominal reward and failure are the plain means of the members' own |
| `Counterexamples.EmptySearchHasNoWitness` | scripts/verify_aliased_cegar.py:435-447 | in any listing order, a cell with an empty search has no witness |
| `Counterexamples.EmptyInventoryIsExact` | scripts/verify_aliased_cegar.py:423-536 | if the search of every policy-reachable cell returns nothing, nominal reward and failure are exact at every horizon |
| `Counterexamples.MismatchHasWitness` | scripts/verify_aliased_cegar.py:738-757 | any mismatch leaves a pair in the search result of a reachable cell, and it is a witness |
| `PolicyLift.InitialPending` | scripts/verify_aliased_cegar.py:242-246 | exactly the positive-probability initial states at the full horizon |
| `PolicyLift.PushContinuations` | scripts/verify_aliased_cegar.py:263-268 | exactly the continuing outcomes are pushed |
| `PolicyLift.LiftPolicy` | scripts/verify_aliased_cegar.py:235-269 | terminates; succeeds iff all reachable active pairs have a choice, and records exactly those pairs, independent of pop order |
| `Refinement.SplitSeparates` | src/acfqp/abstraction/partition.py:81-108 | two states share a cell afterwards iff they did and the predicate does not separate them in the split cell |
| `Refinement.ChildrenHold` | src/acfqp/abstraction/partition.py:81-108 | each child holds the states its branch says, and every other cell keeps its states |
| `Refinement.SameSignatureIff` | src/acfqp/refinement/split.py:102-161 | two predicates have one child signature on a cell iff they agree on all its states or differ on all |
| `Refinement.SplitStrictlyRefines` | src/acfqp/refinement/split.py:102-161 | an effective split keeps all separations and strictly shrinks the set of same-cell pairs |
| `Refinement.SplitAddsOneCell` | src/acfqp/abstraction/partition.py:81-108 | one cell is replaced by two |
| `Refinement.RunsAreBounded` | scripts/verify_aliased_cegar.py:996-1031 | any run of accepted splits is bounded by states minus initial cells, for every grammar and selection rule |
| `Refinement.RefinementTracker.AttemptSplit` | src/acfqp/refinement/split.py:102-161 | the status in the source order, the new partition on acceptance, and the tracker's new paths and signatures |
| `Refinement.AcceptanceKeepsPathsConstant` | src/acfqp/refinement/split.py:102-161 | path predicates stay constant on their cells |
| `Refinement.DuplicatePredicateIsNoOp` | src/acfqp/refinement/split.py:102-161 | the duplicate rejection hides no effective split |
| `Refinement.GroupCandidates` | scripts/verify_aliased_cegar.py:594-614 | a candidate's support is exactly the witnesses its predicate separates |
| `Refinement.SameCandidateIff` | scripts/verify_aliased_cegar.py:594-614 | witnesses support one candidate only within one cell, horizon, action and predicate |
| `Refinement.AcceptedSplitSeparatesSupport` | scripts/verify_aliased_cegar.py:1368-1388 | accepting a candidate puts both states of every supporting witness in different children |
| `SplitWidening.SplitCanAddWitnesses` | scripts/verify_aliased_cegar.py:996-1031 | an accepted split that resolves its one witness and creates three in another cell |
| `MerkleCommitment.OrderedMerkleCommitment` | scripts/replay_and_materialize_v075_source_work.py:902-940 | refuses non-identities; otherwise the loop computes count and tree root |
| `MerkleCommitment.OddLevelRepeatsLast` | scripts/replay_and_materialize_v075_source_work.py:927-928 | an odd level above one node has the root of the level with its last node twice |
| `MerkleCommitment.EvenLevelPairs` | scripts/replay_and_materialize_v075_source_work.py:929-934 | an even level has the root of its adjacent pairs |
| `MerkleCommitment.RootOfThree` | scripts/replay_and_materialize_v075_source_work.py:910-935 | the root of three identities in explicit bytes, the third leaf paired with itself |
| `MerkleCommitment.BigEndianDigits` | scripts/replay_and_materialize_v075_source_work.py:915-915 | byte k of a big-endian index is its digit of that weight |
| `MerkleCommitment.FromHexWrites` | scripts/replay_and_materialize_v075_source_work.py:916-916 | every identity byte is the two digits it was written with, high half first |
| `MerkleCommitment.TagBytes` | scripts/replay_and_materialize_v075_source_work.py:196-197 | domain tags and the empty marker as character codes |
| `MerkleCommitment.RootKeepsLeaves` | scripts/replay_and_materialize_v075_source_work.py:925-934 | the reduction with duplicated last nodes keeps exactly the set of indexed leaves |
| `MerkleCommitment.TreeCollision` | scripts/replay_and_materialize_v075_source_work.py:925-935 | two different trees with one digest have colliding inputs, one from each |
| `MerkleCommitment.EmptyMeetsTreeIff` | scripts/replay_and_materialize_v075_source_work.py:920-923 | when the empty input is also a node input |
| `MerkleCommitment.RootIsBinding` | scripts/replay_and_materialize_v075_source_work.py:902-940 | different sequences of any lengths with one root yield a collision between an input hashed for the one and an input hashed for the other |
| `MerkleCommitment.CommitmentIsBinding` | scripts/replay_and_materialize_v075_source_work.py:935-940 | with the recorded count this holds for every role |
| `MerkleCommitment.FiftyEightByteRoleIsAmbiguous` | scripts/replay_and_materialize_v075_source_work.py:920-923 | for every 58-byte role some hash gives the empty and a two-element sequence one root without such a collision |
| `ImportIsolation.Interpreter.Enter` | scripts/replay_and_materialize_v075_source_work.py:786-796 | own modules hidden and stashed, root and guard first |
| `ImportIsolation.Interpreter.Leave` | scripts/replay_and_materialize_v075_source_work.py:799-806 | own modules and path restored, others kept, one guard removed |
| `ImportIsolation.Interpreter.RunIsolated` | scripts/replay_and_materialize_v075_source_work.py:779-806 | for every body: own modules and path as at entry, other modules and importers as the body left them less one guard |
| `ImportIsolation.GuardRemovedIff` | scripts/replay_and_materialize_v075_source_work.py:799-801 | the guard is gone iff it stood at most once at the end of the body |
| `ImportIsolation.UntouchedFindersRestored` | scripts/replay_and_materialize_v075_source_work.py:796-801 | a body that leaves the importers alone gets them back unchanged |
| `ImportIsolation.ForbiddenNeverLoaded` | scripts/replay_and_materialize_v075_source_work.py:751-776 | code that only imports never loads a forbidden module, and the denied record is exactly its forbidden imports |
| `ImportIsolation.IsForbiddenIff` | scripts/replay_and_materialize_v075_source_work.py:751-757 | a name is forbidden iff it is the registered manifest module or below the package with a marker, in either case, after its last dot |
| `ImportIsolation.IsOwnIff` | scripts/replay_and_materialize_v075_source_work.py:786-790 | own names are the package's five letters alone or followed by a dot |
| `ImportIsolation.FirstDecides` | scripts/replay_and_materialize_v075_source_work.py:764-776 | the first importer that does not pass decides; the guard denies exactly forbidden names |
| `ImportIsolation.FirstGuardRemoved` | scripts/replay_and_materialize_v075_source_work.py:800-801 | removal takes out the first guard and keeps the order of the others |
| `ImportIsolation.AssertSourceOnly` | scripts/replay_and_materialize_v075_source_work.py:1234-1296 | the assertion holds iff nothing was denied, the own modules are exactly the allowlist, none forbidden and all origins trusted |
| `ImportIsolation.NothingForbiddenLeaks` | scripts/replay_and_materialize_v075_source_work.py:799-806 | after the scope a forbidden module is loaded iff it was before |
| `AtomicPublish.RunKeeps` | scripts/run_v072_registered_campaign.py:74-109 | the concurrent system's invariant holds in every state of every run |
| `AtomicPublish.OwnStepsPublishWhole` | scripts/run_v072_registered_campaign.py:74-109 | under any interference a call's operation leaves the output alone or takes it from absent to complete durable data |
| `AtomicPublish.NeverPartial` | scripts/run_v072_registered_campaign.py:84-98 | at every crash point an output that names a call's file shows its complete data |
| `AtomicPublish.ExistingOutputIsKept` | scripts/run_v072_registered_campaign.py:75-76 | a durable output is never overwritten, removed or damaged |
| `AtomicPublish.AtMostOnePublisher` | scripts/run_v072_registered_campaign.py:89-106 | at most one concurrent call links; reported success survives kills and power losses |
| `AtomicPublish.FailureAfterLinkKeepsData` | scripts/run_v072_registered_campaign.py:99-109 | an exception after the link leaves complete data |
| `AtomicPublish.Publication.AtomicWriteNew` | scripts/run_v072_registered_campaign.py:74-109 | the call is a run of the system; what each outcome means for the output and the temporary file |
| `AttemptJournal.VerifyAttemptJournal` | src/acfqp/v072_registered_campaign_attempt_journal_v1.py:1083-1343 | accepts iff no temporary file is left, there are one to 10000 files, numbered and chained, the replay admits every event and objects equal references |
| `AttemptJournal.ChainIsBinding` | src/acfqp/v072_registered_campaign_attempt_journal_v1.py:1131-1156 | two chained journals with one last identity are equal file by file, or hold two different events with one identity |
| `AttemptJournal.AcceptedIff` | src/acfqp/v072_registered_campaign_attempt_journal_v1.py:1211-1312 | the replay accepts iff every event fits the events before it, told by how many occurrences they start and complete, whether they compute and whether the last closes |
| `AttemptJournal.VerifiedJournalFollowsSchedule` | src/acfqp/v072_registered_campaign_attempt_journal_v1.py:1211-1312 | every prefix started the registered ordinals in order, completed all but possibly the last, computed only after all; nothing follows a closing event |
| `AttemptJournal.VerifiedOutputIsComplete` | src/acfqp/v072_registered_campaign_attempt_journal_v1.py:1211-1312 | a journal closed by output holds all occurrences once, one computation and ends with publication |
| `AttemptJournal.OverlapIsViolation` | src/acfqp/v072_registered_campaign_attempt_journal_v1.py:1131-1137 | two event files with one number never verify |
| `AttemptJournal.Journal.Append` | src/acfqp/v072_registered_campaign_attempt_journal_v1.py:279-494 | when an append raises, what it leaves in each case (objects, event file, temporary file), and what a successful one adds |
| `AttemptJournal.WritesMissingOnce` | src/acfqp/v072_registered_campaign_attempt_journal_v1.py:429-461 | the object bytes of an append are the total size of the distinct objects that are not stored |
| `AttemptJournal.Journal.RetryAfterLateFailure` | src/acfqp/v072_registered_campaign_attempt_journal_v1.py:441-489 | a retry after a late failure writes no bytes, is another event if the first attempt wrote some, and is refused only on an identity collision |
| `AttemptJournal.Journal.VerifiesIff` | src/acfqp/v072_registered_campaign_attempt_journal_v1.py:1083-1343 | a written journal verifies iff no temporary file is left, at most 10000 events exist, no number repeats and every object is referenced; the verdict then mirrors the writer |
| `AttemptJournal.Journal.constructor` | src/acfqp/v072_registered_campaign_attempt_journal_v1.py:350-403 | a fresh journal is aligned and holds its opening event |
| `AttemptJournal.Journal.BindSourceReplay` | src/acfqp/v072_registered_campaign_attempt_journal_v1.py:496-531 | raises exactly when bound, out of order, terminal, faulty or clashing |
| `AttemptJournal.Journal.BeginOccurrence` | src/acfqp/v072_registered_campaign_attempt_journal_v1.py:533-584 | starts exactly the next registered ordinal |
| `AttemptJournal.Journal.CommitDirectCheckpoint` | src/acfqp/v072_registered_campaign_attempt_journal_v1.py:586-657 | only inside a running direct occurrence |
| `AttemptJournal.Journal.CompleteOccurrence` | src/acfqp/v072_registered_campaign_attempt_journal_v1.py:659-887 | completes exactly the running ordinal |
| `AttemptJournal.Journal.CommitComputationResult` | src/acfqp/v072_registered_campaign_attempt_journal_v1.py:889-944 | only after all occurrences, once |
| `AttemptJournal.Journal.CommitOutputPublished` | src/acfqp/v072_registered_campaign_attempt_journal_v1.py:946-983 | only after the computation with an intact output; closes the journal |
| `AttemptJournal.Journal.CommitCaughtFailure` | src/acfqp/v072_registered_campaign_attempt_journal_v1.py:985-1031 | records the phase; overlaps exactly when an earlier append had raised after linking |
| `Campaign.Open` | scripts/run_v072_registered_campaign.py:226-249 | operations, phases and the journal up to the source binding |
| `Campaign.Compute` | scripts/run_v072_registered_campaign.py:250-259 | without a raise the journal verifies with the whole schedule and its computation |
| `Campaign.Publish` | scripts/run_v072_registered_campaign.py:260-271 | publication and closing records; the journal is terminal exactly after its publication record |
| `Campaign.Settle` | scripts/run_v072_registered_campaign.py:272-300 | failure record, close and printed result; which exception propagates |
| `Campaign.RunRegisteredCampaign` | scripts/run_v072_registered_campaign.py:225-300 | returns iff nothing raised, output untouched before publication, journal closed by output on success, failure record with the raising phase |
| `Campaign.PublicationIsGuarded` | scripts/run_v072_registered_campaign.py:254-261 | publication only after a successful commit and then verification |
| `Campaign.ClosedOnceIffOpened` | scripts/run_v072_registered_campaign.py:282-286 | the writer is closed exactly once iff it was opened, after all its other operations |
| `Campaign.FailureRecordIsExact` | scripts/run_v072_registered_campaign.py:272-281 | one failure record iff opened, raised and not yet recorded as published, with the phase of the raising operation |
| `RuntimeAuthority.ComponentIsFaithful` | src/acfqp/_runtime_authority_v1.py:98-105 | components are equal iff values agree: tuple shape, class and identity of members, enumeration members, scalars up to True == 1 |
| `RuntimeAuthority.FingerprintIsFaithful` | src/acfqp/_runtime_authority_v1.py:87-111 | fingerprints are equal iff the public fields agree one by one |
| `RuntimeAuthority.SameScalarIff` | src/acfqp/_runtime_authority_v1.py:98-100 | scalars are equal iff they are the same or one is a boolean and the other its 0 or 1; an equivalence |
| `RuntimeAuthority.PublicKeeps` | src/acfqp/_runtime_authority_v1.py:107-111 | the public fields, in order, are those whose name does not start with an underscore |
| `RuntimeAuthority.Mint.ValidateConstruction` | src/acfqp/_runtime_authority_v1.py:37-50 | passes iff issuer and fingerprint match and no other owner is bound |
| `RuntimeAuthority.Mint.Bind` | src/acfqp/_runtime_authority_v1.py:52-69 | binds an unbound mint once; a refused call changes nothing |
| `RuntimeAuthority.Mint.Require` | src/acfqp/_runtime_authority_v1.py:71-84 | passes exactly the bound identity with matching issuer and fingerprint |
| `RuntimeAuthority.OwnerNeverChanges` | src/acfqp/_runtime_authority_v1.py:52-69 | over all action sequences the owner is set at most once and never changes |
| `RuntimeAuthority.AtMostOnePasses` | src/acfqp/_runtime_authority_v1.py:71-84 | at most one live object passes, and it is the bound one iff the bound one lives |
| `RuntimeAuthority.BearerPassesIffUnchanged` | src/acfqp/_runtime_authority_v1.py:131-147 | the bound object passes iff it carries the mint and its public fields still agree |
| `RuntimeAuthority.ChangedFieldsDecide` | src/acfqp/_runtime_authority_v1.py:131-147 | after its fields are set the bound object passes iff the new public fields agree with the minted ones |
| `RuntimeAuthority.CopiesAreRejected` | src/acfqp/_runtime_authority_v1.py:71-84 | copies never pass while the bound object lives |
| `RuntimeAuthority.ReusedIdentityPasses` | src/acfqp/_runtime_authority_v1.py:32-35 | a run in which another object passes at the dead owner's identity |
| `RuntimeAuthority.PassingHoldsOriginalIff` | src/acfqp/_runtime_authority_v1.py:87-111 | a passing authority names the minted members' classes and identities, and they are the minted objects iff those live |
| `RuntimeAuthority.ReplacedMemberPasses` | src/acfqp/_runtime_authority_v1.py:98-105 | a run in which a member replaced at its identity is not noticed |

## Left out

- Floating point: shard loads are finite nonnegative reals; rounding and infinite cache entries are not modelled.
- Hypotheses: kernel, group and canonicalizer laws are explicit `requires` in the general modules. `GameQuotient.EveryQueryIsExact` and `GameQuotient.EveryQueryLosesNothing` discharge them for the orbit quotient of the game; those of `OrbitCells`, about a semantic adapter and a partition, stay hypotheses.
- `OrbitClosure.EnumerateOrbitClosure`: the sorted pop order and the set of failure pairs are not modelled; node failure flags are the states' own status.
- Goals and reward features: goal tests beyond terminal states are absent, features are one abstract value, and realizations carry the already weighted reward.
- `FrontierGap.IsolatedOrbitsHaveNoGap`: one direction only, like `FrontierGap.DominantClosesGap`; whether values agree otherwise depends on the rewards.
- `GameFrontier.QueryFrontiersAgree`: boards with four tiles and the 3x3 grid are outside the hypotheses.
- `ShardProcesses.CoverageIff`: cache writes are atomic (processes that end at the same moment share one temporary name), and runs without the cache are not modelled.
- Concretizer mixtures in the refinement modules: each semantic action selects one ground action per state, as the boundary adapters do.
- Pareto planners, occupancy frontiers and the choice among equally good policies.
- `_failure_width`, candidate ranking, score documents, `_training_policy_reachability` and the initial distribution: they repeat the width and worklist results or only add easy members.
- `ShardRunner.SelectShard`: the worker count check and module discovery are not modelled.
- `D4.TransformCell`, `D4.TransformBoard`: sizes below two and malformed boards, which the source rejects, are outside the preconditions; `MoveCell` and `MoveBoard` leave such values alone.
- `G2048.Step`: rank-range validation of the board is not repeated; the law is given for every board of the right length.
- `MerkleCommitment.OrderedMerkleCommitment`: SHA-256 is an arbitrary 32-byte hash, the role is its UTF-8 bytes, and sequences longer than 2^64 are excluded as the 8-byte index excludes them.
- `ImportIsolation.AssertSourceOnly`: the allowlist is a set (the source compares sorted tuples and a digest of its own constant), and file origins are one predicate.
- `ImportIsolation.Interpreter.RunIsolated`: lower-casing of module names covers ASCII, parent packages are separate imports, and dictionary order is not modelled.
- `AtomicPublish.NeverPartial`: foreign processes may rename, remove or create anything at the output path, but neither touch a call's private temporary file nor rewrite a file a call has written, published or not.
- `AtomicPublish.Publication.AtomicWriteNew`: the check for a symbolic link is the check for a present entry.
- `AttemptJournal.VerifyAttemptJournal`: the listing is taken in number order, leftover temporary files are one flag, and schema, identity and metadata equality checks are not repeated.
- `AttemptJournal.Journal.constructor`: an opening that raises leaves no writer; its partial directory is not modelled.
- `Campaign.RunRegisteredCampaign`: argument parsing, output path checks and the authority-only mode are not modelled, and the publication record compares the output's bytes instead of its result identity.
- `RuntimeAuthority.ComponentIsFaithful`: enumeration values are scalars, and objects with their own equality are compared by identity as in the fingerprint.
- Git, subprocesses, test execution, JSON and content-identity plumbing, sandbox attestation, and the remaining verification scripts.
