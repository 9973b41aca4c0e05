# FCFN verification model

This project models three parts of FCFN in Dafny and proves what they are for.

* **The minimum containment cut engine.** `Containment` states the five hard constraints as one predicate on
  sets of nodes and the objective as a strict order, which `Optima` spells out. `BreadthFirst`, `ResidualPaths`, `Reachability` and
  `CutVerifier` prove the three searches and the verifier against them; `SearchBounds` and `ExactSolver` the
  branch-and-bound search over its mutable position, `ExactAnswers` that its completed answer exists and is one;
  `Instances`, `Necessity`, `Minimality`, `HeuristicSolver`, `Planner`, `MonotonicSafety` and `ListingOrder` what is
  built on top. `OverlapCondition` and `GreedyCondition` say exactly when the promises of the two solvers hold,
  `Counterexamples` and `Shortcut` give inputs on which they do not, and `FalseVerdicts` calls the solvers on such
  inputs. `Topologies`, `PropagationGraphs`, `CanonicalBytes` and `TopologyCodec` cover definitions, graphs and
  their canonical bytes.
* **The durable log.** `Crc32c` and `Records` give the framing (CRC-32C of section 12.1 of RFC 3720), `Snapshots`
  and `LogReplay` the two file formats, `Disks` a directory whose replacements are atomic and whose crashed
  appends leave any prefix, `Store` the operations and the class that performs them, `Openings` what opening makes of
  any directory, `StoreRuns` every run of operations, crashes and reopenings. `Gf2` and `CrcRemainder` say what the
  checksum is, `Layouts` gives each stored format byte by byte.
* **The coordinator.** `Boundaries` and `CoordinatorState` give one incarnation's state and steps,
  `CoordinatorSteps` what one step can do and what only moves forward, `Coordinator` the object whose methods take
  them, `CoordinatorRuns` the claims over every run, `CoordinatorLaws` and `CoordinatorReports` which requests and
  reports are taken and what follows from them.

Where the source updates objects or arrays in place, the model does too; each such method is proved against a
function or predicate on values, and the claims are lemmas about those. Node masks, member lists, deques and byte
buffers that the source grows or shrinks are sequence-valued fields and variables; the visited and parent arrays
of the searches and the CRC table are arrays. Clocks, directory listings, planner results and boot identities are
parameters. Digests are taken as injective, and a digest therefore stands for its content.

## Where the code and its documentation part

* `ContainmentProblem::build` means to refuse a node that is both failed and protected, but tests the mask before
  filling it (src/engine/cut.cpp:127 and 140). The exact solver's contract therefore has two parts: on every
  instance the answer is the best feasible set its branching reaches, and under `OverlapSettled` (every such node is
  mandatory or not containable) that is the optimum. `InfeasibleVerdictsExact` and `OptimalVerdictsExact` prove that
  the condition is exact for both verdicts, and `OrderDecidesAnswer` gives a false proof of optimality from an
  accepted request. Without the condition the order of the sources decides the answer (`ListingOrderMatters`); with
  it, no listing order matters (`PermutedInputsSameAnswer`).
* The path search is documented as lexicographically smallest; that holds exactly for ascending source lists.
* Reverse deletion is documented to leave only load-bearing members. After the greedy loop a deletion can be refused
  for weight alone and is not tried again; `MinimalAnswersExact` says for which weights and bounds that happens.
* A verdict "not necessary" is meaningless for an obligation that may be contained, because it cannot be barred;
  `NotNecessaryExactly` gives the policy flag that decides it.
* `necessity.hpp` says promoting UNKNOWN edges only shrinks the feasible family; it changes nothing.
* A stored infeasibility witness can be rejected by its own checker, exactly when protected inclusion is allowed.
* `write_snapshot` accepts payloads that `open` cannot read back (src/store/store.cpp:563, src/store/record.cpp:216);
  recovery is exact up to the record bound and refused above it.
* A comment in `submit_apply` (src/runtime/executor.cpp:57) lets a newer plan re-assert the current members; the code
  takes an older one too, and verifying it takes the decision in force back. `InForceGoesBackExactly` says when, and
  `SamePlanTwice` gives a run in which the check against a newer decision in force then passes a decision twice.
* A crash between the first opening's two writes leaves a store that never opens again; runs start after it.

## Model

| member | source | states |
|---|---|---|
| `Containment.ObjectivesDiffer` | src/engine/cut.cpp:44-56 | any two different sets of nodes are strictly ordered by the objective, in both `minimize_protected` modes, so no two sets tie |
| `Containment.SignatureIdentifies` | src/engine/cut.cpp:44-56 | the ordered list of resource identities determines the set |
| `Containment.SupersetIsWorse` | src/engine/cut.cpp:44-56 | growing a set makes its objective strictly worse, in both modes |
| `Containment.OptimumIsUnique` | include/fcfn/engine/cut.hpp:14-20 | the feasible minimum over all subsets is one set |
| `Optima.OptimumMeans` | src/engine/cut.cpp:44-56 | the optimum is the feasible set preferable to every other: fewer obligations if they are to be spared, then less weight, then fewer nodes, then the first node on which the two differ |
| `Containment.WeightFits` | src/engine/cut.cpp:349-403 | no weight sum of an instance leaves a 64-bit word |
| `PropagationGraphs.BuildGraph` | src/engine/graph.cpp:10-42 | the adjacency lists hold exactly the non-refuted (and the proven) edges, in ascending order, and predecessors mirror successors |
| `ResidualPaths.ShortestResidualPath` | src/engine/solver_common.hpp:17-63 | the breadth-first search returns nothing exactly when no residual path exists, otherwise the least path: fewest hops, then first-listed source, then smallest step |
| `BreadthFirst.Found` | src/engine/solver_common.hpp:36-49 | the first target discovered closes a path that is at most every other path to a target |
| `BreadthFirst.LeastTargetWalkUnique` | src/engine/solver_common.hpp:17-63 | the least path is one path |
| `BreadthFirst.LeastTargetWalkExists` | src/engine/solver_common.hpp:17-63 | wherever a path to a target exists there is a least one |
| `BreadthFirst.LeastIsLexicographic` | src/engine/solver_common.hpp:17-63 | with ascending sources the least path is shortest and lexicographically smallest among the shortest |
| `Counterexamples.LexicographicExactly` | src/engine/solver_common.hpp:17-63 | the lexicographic promise holds for every graph if and only if the sources are listed in ascending order |
| `CutVerifier.SourceReachesProtected` | src/engine/cut.cpp:255-283 | answers whether a source still reaches an obligation, zero hops included |
| `CutVerifier.FindWitnessPath` | src/engine/cut.cpp:289-347 | returns nothing exactly when no residual path avoids the excluded nodes, otherwise the least one |
| `CutVerifier.ConnectsExactly` | src/engine/cut.cpp:255-283 | the verifier's search and the path search differ exactly over an uncontained node that is failed and protected at once |
| `CutVerifier.SearchesAgreeExactly` | src/engine/cut.cpp:255-347 | the searches agree on every set that holds the mandatory members if and only if every node that is failed and protected is mandatory |
| `CutVerifier.VerifyCut` | src/engine/cut.cpp:349-403 | accepts exactly the duplicate-free lists whose set meets the five hard constraints, returns that set's objective, and a rejection names a constraint the set violates |
| `CutVerifier.VerifyInfeasibilityWitness` | src/engine/cut.cpp:410-433 | accepts exactly the source-to-obligation paths of at least two nodes without a containable node |
| `CutVerifier.CertificateRefutes` | src/engine/cut.cpp:410-433 | an accepted path refutes every set of nodes |
| `CutVerifier.FeasibleHitsPath` | include/fcfn/engine/cut.hpp:14-20 | every feasible set meets every source-to-obligation path |
| `Reachability.Flood` | src/engine/cut.cpp:255-283 | the flood reports a target exactly when a path to one exists and otherwise marks exactly the reachable nodes |
| `SearchBounds.DisjointPathBound` | src/engine/solver_exact.cpp:37-84 | the loop collects a packing of residual paths that share no undecided node; a false result means no completion is feasible |
| `SearchBounds.PackingBounds` | src/engine/solver_exact.cpp:37-84 | the included weight plus the packing's weight never exceeds the weight of any feasible completion |
| `SearchBounds.PackingFits` | src/engine/solver_exact.cpp:70-80 | the packing's weight stays far below a 64-bit word, so its saturating addition never saturates |
| `ExactSolver.BranchesPartition` | src/engine/solver_exact.cpp:227-249 | every feasible completion of a search node lies in exactly one child of the branching step |
| `ExactSolver.PrunedDominated` | src/engine/solver_exact.cpp:206-225 | when the incumbent beats the bound vector it is beaten by no completion of the pruned node |
| `ExactSolver.LeafIsBest` | src/engine/solver_exact.cpp:190-204 | a valid leaf strictly beats every proper completion of itself |
| `ExactSolver.RejectedLeaf` | src/engine/solver_exact.cpp:190-194 | a leaf the verifier refuses has no feasible completion, given that failed-and-protected nodes are mandatory or barred |
| `ExactSolver.SettledReaches` | src/engine/solver_exact.cpp:153-249 | under the same condition branching along least paths arrives at every feasible set |
| `ExactSolver.BestIsOptimal` | src/engine/solver_exact.cpp:97-125 | the best of what branching reaches is then the unique minimum over all subsets, and reaching nothing proves infeasibility |
| `ExactSolver.ExactSearch.Include` | src/engine/solver_exact.cpp:128-135 | adds one node to mask, list, weight and protected count consistently |
| `ExactSolver.ExactSearch.Uninclude` | src/engine/solver_exact.cpp:137-151 | takes the node out again and leaves the position exactly without it |
| `ExactSolver.ExactSearch.BranchStep` | src/engine/solver_exact.cpp:228-246 | one path step restores the position except for the node it excludes, and advances the dominated part of the search space |
| `ExactSolver.ExactSearch.BranchSteps` | src/engine/solver_exact.cpp:227-249 | the loop over the path restores everything but the nodes it excludes; unaborted, what it leaves dominated covers all steps of the path |
| `ExactSolver.ExactSearch.Branch` | src/engine/solver_exact.cpp:227-258 | restores included, excluded, list, weight and protected count exactly, also when aborted; unaborted, the incumbent is no worse than any completion branching reaches |
| `ExactSolver.ExactSearch.Search` | src/engine/solver_exact.cpp:153-259 | the same for the whole recursion; it explores at least one position and at most two to the number of undecided containable nodes, or stops when the budget ends; unaborted, it has a witness exactly when it had one or met a path without containable node that fits one, or tried every node of the root path in vain, and it never replaces a witness |
| `ExactSolver.ExactSearch.Run` | src/engine/solver_exact.cpp:97-125 | on every instance a completed answer is the strictly best feasible set that branching along least paths reaches, or infeasible if it reaches none; with settled overlaps that is the unique minimum over all subsets, or a true proof of infeasibility, never after an exhausted budget; a budget of two to the number of containable nodes always completes; a completed proof of infeasibility holds a witness exactly when branching meets a path without containable node of at most 4096 nodes or the root path is containable throughout, and when the root path has no containable node it is that path |
| `ExactSolver.SolveExact` | src/engine/solver_exact.cpp:281-289 | the solver's full contract, invalid problems, the stored witness and the sufficient budget included |
| `ExactAnswers.AnswerDetermined` | tests/solver/differential.cpp:254-300 | on every instance, settled or not, any two completed answers are the same, whatever their budgets |
| `ExactAnswers.AnswerExists` | src/engine/solver_exact.cpp:97-125 | on every instance and at every sufficient budget there is a completed answer of this kind |
| `ExactAnswers.BarrenAnswered` | src/engine/solver_exact.cpp:173-188 | when the mandatory nodes fit the bounds and the least path around them has no containable node, every completed answer is a proof of infeasibility whose witness is that path, up to 4096 nodes, and the certificate check accepts it when nothing is mandatory |
| `ExactSolver.WitnessAcceptedExactly` | src/engine/solver_exact.cpp:251-258 | a path with the properties of a stored witness passes the certificate check if and only if protected inclusion is disallowed |
| `Counterexamples.WitnessRefused` | src/engine/solver_exact.cpp:251-257 | on a two-node instance without weight allowance every completed answer stores a witness and the checker refuses it |
| `Counterexamples.WitnessesAcceptedExactly` | src/engine/cut.cpp:410-433 | all witnesses the solver stores are accepted by the checker if and only if policy keeps obligations outside; otherwise there is an instance on which every answer within a sufficient budget stores one that is refused |
| `FalseVerdicts.RefusedWitness` | src/engine/solver_exact.cpp:251-257 | the solver, called with a sufficient budget on that instance, returns a witness that the checker, called on it, refuses |
| `OverlapCondition.InfeasibleVerdictsExact` | src/engine/cut.cpp:127-140 | whatever graph, weights, bounds and identities surround the nodes, every proof of infeasibility is true if and only if each failed and protected node is mandatory or not containable; otherwise on some graph every answer within a sufficient budget is a false one |
| `OverlapCondition.OptimalVerdictsExact` | src/engine/solver_exact.cpp:153-249 | the same equivalence, with the same strength, for every proof of optimality, when further plain nodes may be added |
| `OverlapCondition.EdgelessAnswer` | src/engine/solver_exact.cpp:186-204 | outside the condition every completed answer on the edgeless graph is a false proof of infeasibility |
| `OverlapCondition.ForkAnswer` | src/engine/solver_exact.cpp:227-249 | outside the condition every completed answer on the fork graph is a false proof of optimality |
| `FalseVerdicts.FalseInfeasible` | src/engine/solver_exact.cpp:281-289 | outside the condition the solver itself, called with a sufficient budget, proves a feasible instance over the same nodes infeasible |
| `FalseVerdicts.FalseOptimum` | src/engine/solver_exact.cpp:281-289 | and it proves optimal a set that a feasible one beats |
| `Counterexamples.OverlapMisjudged` | src/engine/cut.cpp:127-140 | on a single node that is failed and protected every completed answer is infeasible although containing the node is feasible |
| `Counterexamples.LoneOverlapBuilt` | src/engine/cut.cpp:127-140 | the builder accepts the request for that instance and yields it |
| `Shortcut.RequestBuilds` | src/engine/cut.cpp:58-220 | the builder accepts both listings of the three-node request and yields the two instances |
| `Shortcut.OrderDecidesAnswer` | src/engine/solver_exact.cpp:153-249 | on them every completed answer claims an optimum: {1, 2} of weight 2, which it is, or {0, 1} of weight 11, which it is not, depending on the source listed first |
| `Counterexamples.LoneOverlapValid` | src/engine/cut.cpp:117-145 | that instance satisfies everything the builder establishes |
| `Instances.BuildInstance` | src/engine/cut.cpp:58-220 | accepts exactly the well-formed requests, whatever their listing order, and establishes every fact the solvers rely on; candidates are exactly the nodes both searches reach, plus mandatory sources; a refusal names a condition the request violates |
| `Instances.OptimumWithinCandidates` | src/engine/cut.cpp:201-220 | every member of an optimum is a candidate |
| `Instances.LoadBearing` | src/engine/cut.cpp:201-203 | dropping a non-mandatory member of an optimum reconnects a source to an obligation |
| `Necessity.BarredFeasibleSets` | src/engine/necessity.cpp:11-47 | barring a plain node removes exactly the feasible sets that hold it |
| `Necessity.ProtectedSubjectUnaffected` | src/engine/cut.cpp:142-144 | barring an obligation changes no feasible set |
| `Necessity.StatusWithout` | src/engine/necessity.cpp:11-47 | infeasible without the node means it lies in every feasible set; solvable without it means some feasible set omits it; a budget that suffices for the instance suffices here |
| `Necessity.Analyze` | src/engine/necessity.cpp:49-83 | every subject gets one verdict, the verdicts are sound for plain nodes, an indeterminate one implies an exhausted budget, a sufficient budget is never exhausted, and each list holds exactly the kinds of subject whose containability, policy or re-solve status calls for it |
| `Necessity.AnalyzeExhaustive` | src/engine/necessity.cpp:96-105 | the exhaustive analysis judges exactly the containable candidates, with the same guarantees |
| `Necessity.ExhaustiveIsExact` | src/engine/necessity.cpp:96-105 | with enough budget the exhaustive analysis lists exactly the plain nodes that lie in every feasible set |
| `Necessity.ObligationFiled` | src/engine/necessity.cpp:63-71 | a completed analysis files a containable obligation as not necessary if and only if the instance is feasible, whatever the obligation's role in it |
| `Counterexamples.ObligationMisjudged` | src/engine/necessity.cpp:63-71 | an obligation in every feasible set that every completed exhaustive analysis files as not necessary |
| `Counterexamples.NotNecessaryExactly` | src/engine/necessity.cpp:49-83 | on feasible instances with settled overlaps the verdict not necessary is right for every subject if and only if policy keeps obligations outside; otherwise there is an instance with a verdict that no budget corrects |
| `Counterexamples.BareSourceBuilt` | src/engine/cut.cpp:58-220 | the builder yields that instance, with exactly its candidates |
| `FalseVerdicts.FalseDispensable` | src/engine/necessity.cpp:96-105 | the exhaustive analysis itself, called with a sufficient budget, returns the verdict not necessary for a node of every feasible set |
| `Minimality.Sandwich` | src/engine/planner.cpp:317-341 | any set between two feasible ones is feasible |
| `Minimality.DeletionBears` | src/engine/planner.cpp:317-341 | reverse deletion from a feasible set ends in a feasible set none of whose non-mandatory members can be dropped |
| `Minimality.BearsMeansMinimal` | src/engine/planner.cpp:317-341 | if no single member can be dropped, no strictly smaller set is feasible |
| `Minimality.OptimumUnchanged` | src/engine/planner.cpp:317-341 | the pass leaves an exact optimum as it is |
| `Minimality.RestoreMinimality` | src/engine/planner.cpp:317-341 | the loop computes the deletion pass |
| `Minimality.DeletionExact` | src/engine/planner.cpp:317-341 | a member is kept exactly when it is mandatory, or the members kept before it and all members behind it do not pass the verifier |
| `HeuristicSolver.SolveHeuristic` | src/engine/solver_heuristic.cpp:28-129 | ends within node count plus one rounds unless its budget ends first, and reports exactly its rounds; a completed greedy list leaves no residual path, the answer is exactly its reverse deletion when that is feasible and no answer otherwise; infeasibility comes with the least path around the greedy nodes, which has no containable node, and no count |
| `HeuristicSolver.GreedyPickMeans` | src/engine/solver_heuristic.cpp:64-76 | the node picked on a path has the least weight of its containable nodes and is the first of those in node order |
| `GreedyCondition.GreedyDetermined` | src/engine/solver_heuristic.cpp:51-91 | two completed greedy runs on one instance collect the same nodes |
| `GreedyCondition.NotMinimalTraps` | src/engine/solver_heuristic.cpp:93-113 | a feasible answer that is not inclusion-minimal shows a trap: a lighter and a heavier redundant node, in this order, of which only dropping the heavier meets the weight bound |
| `GreedyCondition.MinimalAnswersExact` | src/engine/solver_heuristic.cpp:93-113 | whatever the graph and the roles, all feasible answers are inclusion-minimal if and only if weights and bounds of the containable nodes admit no trap; with a trap there is a graph on which every answer within a sufficient budget is feasible and not minimal |
| `GreedyCondition.DetourAnswer` | src/engine/solver_heuristic.cpp:93-113 | on the graph made from a trap every completed answer is feasible and not minimal |
| `FalseVerdicts.FalseMinimum` | src/engine/solver_heuristic.cpp:28-129 | the heuristic itself, called with a sufficient budget on that graph, returns a set with a feasible proper subset |
| `GreedyCondition.AmpleWeight` | src/engine/solver_heuristic.cpp:93-113 | a weight bound that all containable nodes but any one meet admits no trap |
| `GreedyCondition.AmpleBounds` | src/engine/solver_heuristic.cpp:93-113 | when the bounds admit all containable nodes and overlaps are settled, an answer within the budget is feasible and inclusion-minimal, or nothing is feasible |
| `Counterexamples.HeuristicNotMinimal` | src/engine/solver_heuristic.cpp:93-113 | a concrete instance on which every completed answer is {1, 3} although {3} is feasible |
| `Planner.Solve` | src/engine/solver_heuristic.cpp:131-140 | at most the node limit's candidates go to the exact solver and more to the heuristic, and the answer meets that solver's whole contract; below the limit and within budget the outcome is a proof; budgets that suffice for both solvers are never exhausted |
| `Planner.SolvePlan` | src/engine/planner.cpp:257-447 | some answer of the dispatched solver decides the plan: feasibility is proven exactly when it has a set, and the members are its reverse deletion, infeasibility exactly when its status says so, path and exhaustion are its own, and the plan says which solver ran; the whole plan is refused exactly when a member's least witness path is longer than 4096 nodes; members are feasible and inclusion-minimal, optimality and infeasibility are true with settled overlaps, containment is claimed exactly when optimality is proven, evidence current, frontier complete and no required source out of reach, and budgets that suffice are never reported exhausted |
| `Planner.AttachWitnesses` | src/engine/planner.cpp:343-382 | each member gets the least path around all other members, which runs through it, empty exactly when no such path is left, and then the member is mandatory or failed and protected at once |
| `MonotonicSafety.RefutingGrowsFeasible` | src/engine/graph.cpp:20-37 | refuting edges only grows the feasible family |
| `MonotonicSafety.SafeForEveryRealisation` | README.md:119 | a set feasible in the conservative graph is feasible whichever way every UNKNOWN edge turns out |
| `MonotonicSafety.PromotionChangesNothing` | include/fcfn/engine/necessity.hpp:13-16 | promoting UNKNOWN edges to PROVEN changes neither the feasible family nor the optimum |
| `MonotonicSafety.MoreSourcesFewerFeasible` | include/fcfn/engine/necessity.hpp:13-16 | adding failure sources only shrinks the feasible family |
| `MonotonicSafety.OptimumCannotImprove` | include/fcfn/engine/necessity.hpp:13-16 | with more failure sources the optimum is never better |
| `MonotonicSafety.NecessityGrows` | include/fcfn/engine/necessity.hpp:13-16 | a node in every feasible set stays in every feasible set when failures are added |
| `ListingOrder.ListingOrderIrrelevant` | src/engine/solver_exact.cpp:195-201 | listing sources and obligations in another order changes neither feasibility nor the optimum |
| `ListingOrder.SameAnswer` | src/engine/solver_exact.cpp:97-125 | with settled overlaps completed answers to relisted instances have the same status, members and objective |
| `ListingOrder.RequestsRelisted` | src/engine/cut.cpp:58-220 | requests that permute sources, obligations and barred identities build relisted instances |
| `ListingOrder.PermutedInputsSameAnswer` | tests/solver/differential.cpp:218-250 | end to end: permuting nodes, edges, sources, obligations and barred identities leaves a completed exact answer the same set of resources |
| `Shortcut.ListingOrderMatters` | src/engine/solver_exact.cpp:153-249 | without settled overlaps two listings of one request have completed answers with different members |
| `Topologies.Build` | src/model/topology.cpp:73-161 | accepts exactly the definitions that satisfy order-free conditions and returns the one canonical topology they denote; a refusal names a condition the definition violates |
| `Topologies.InsertionOrderIrrelevant` | src/model/topology.cpp:85-88 | permuting nodes and edges changes neither acceptance nor the result |
| `TopologyCodec.TopologyExact` | src/model/topology.cpp:215-285 | the reader takes a topology off some bytes if and only if they start with its encoding and its fields are in range |
| `TopologyCodec.DecodeEncode` | src/model/topology.cpp:194-285 | decoding undoes encoding |
| `TopologyCodec.StrictPrefixRefused` | src/model/topology.cpp:215-285 | no strict prefix of an encoding is accepted |
| `TopologyCodec.ExtensionRefused` | include/fcfn/core/canonical.hpp:244-248 | any extension of an encoding is refused as trailing garbage |
| `TopologyCodec.ReencodeIsFixed` | src/model/topology.cpp:215-285 | encoding an accepted document gives a document that decodes to the same topology and re-encodes to itself |
| `TopologyCodec.CanonicalDocument` | src/model/topology.cpp:215-285 | an accepted document equals the canonical encoding if and only if it lists nodes and edges in strict order |
| `TopologyCodec.EncodingUnique` | src/model/topology.cpp:194-213 | two topologies with the same bytes are equal |
| `TopologyCodec.InsertionOrderSameBytes` | src/model/topology.cpp:73-161 | definitions that differ only in listing order have the same bytes |
| `TopologyCodec.Encode` | src/model/topology.cpp:194-213 | the writer's loops emit the specified encoding |
| `TopologyCodec.Decode` | src/model/topology.cpp:215-285 | malformed exactly when the grammar refuses, with its error; decoded exactly when the document denotes a topology, which is returned |
| `Layouts.SampleTopology` | src/model/topology.cpp:194-213 | all bytes of a sample document with every completeness and every evidence class |
| `CanonicalBytes.UExact` | include/fcfn/core/canonical.hpp:134-163 | an unsigned field reads as a value exactly when the bytes start with that value's encoding |
| `CanonicalBytes.TextExact` | include/fcfn/core/canonical.hpp:176-205 | the same for length-prefixed text, whose bound applies before anything is taken |
| `CanonicalBytes.CanonicalReader.Unsigned` | include/fcfn/core/canonical.hpp:134-163 | reading byte by byte agrees with the grammar; a poisoned reader stays poisoned with its first error |
| `CanonicalBytes.CanonicalReader.Text` | include/fcfn/core/canonical.hpp:176-205 | the text reader agrees with the grammar |
| `CanonicalBytes.CanonicalWriter.Unsigned` | include/fcfn/core/canonical.hpp:41-58 | appends the little-endian encoding |
| `Crc32c.MakeTable` | src/core/hash.cpp:12-25 | entry v of the table is the register after eight bit steps from v |
| `Crc32c.TableStep` | include/fcfn/core/hash.hpp:80-87 | one table lookup equals eight bit steps |
| `Crc32c.Register.Update` | include/fcfn/core/hash.hpp:80-87 | the streaming update equals the bitwise fold |
| `Crc32c.Compute` | include/fcfn/core/hash.hpp:91-95 | the table-driven checksum equals the bitwise definition, whose meaning is `CrcIsRemainder` |
| `Gf2.RemainderUnique` | src/core/hash.cpp:8 | dividing a polynomial over the field of two elements leaves one remainder |
| `CrcRemainder.CrcIsRemainder` | src/core/hash.cpp:8-25 | a number is the checksum of a message if and only if, inverted and bit-reflected, it is the remainder of the message, its first 32 bits inverted and 32 zeros behind it, divided by the generator with the exponents 32, 28, 27, 26, 25, 23, 22, 20, 19, 18, 14, 13, 11, 10, 9, 8, 6 and 0 |
| `CrcRemainder.NineDigits` | include/fcfn/core/hash.hpp:91-95 | the checksum of the nine digits is 0xe3069283 |
| `CrcRemainder.ThirtyTwoZeros` | include/fcfn/core/hash.hpp:91-95 | the checksum of 32 zero bytes is 0x8a9136aa, as appendix B.4 of RFC 3720 publishes it |
| `Crc32c.FoldAppend` | include/fcfn/core/hash.hpp:80-87 | feeding a message in pieces is feeding it whole |
| `Crc32c.BurstDetected` | src/core/hash.cpp:8-25 | equal-length messages that differ only inside four consecutive bytes have different checksums |
| `Crc32c.SealedDiffer` | src/core/hash.cpp:8-25 | messages followed by their own checksums that differ only inside four consecutive bytes are equal |
| `Records.EncodeRecord` | src/store/record.cpp:155-178 | builds header, header checksum and payload as specified |
| `Records.DecodesExactly` | src/store/record.cpp:180-248 | bytes decode to a frame if and only if they start with that frame's encoding and the frame is within bounds |
| `Records.StrictPrefixTorn` | src/store/record.cpp:180-231 | a record cut anywhere is a torn tail, never a record and never corruption |
| `Records.OversizedRefused` | src/store/record.cpp:216-220 | an encoded record reads back if and only if its payload is within the record bound |
| `Records.DamageRefused` | src/store/record.cpp:180-238 | damage within any four consecutive bytes of a record, across header, checksums and payload, is always refused and never mistaken for a torn tail |
| `Records.OneByteRefused` | src/store/record.cpp:180-238 | so is a change of any single byte |
| `Layouts.HeaderRefused` | src/store/record.cpp:180-214 | a full header without the four marking bytes is damage; with them, another version is unsupported whatever follows, and a kind outside the enumeration is an invalid type |
| `Layouts.SampleRecord` | src/store/record.cpp:155-178 | all 37 bytes of a sample record, both checksums included |
| `Snapshots.SnapshotRoundTrip` | src/store/store.cpp:170-219 | a snapshot file reads back if and only if its payload is within the bound |
| `Snapshots.SnapshotAccepted` | src/store/store.cpp:180-219 | nothing but the encoding of a bounded payload is accepted |
| `Layouts.SampleSnapshot` | src/store/store.cpp:170-178 | all 27 bytes of a sample snapshot file |
| `LogReplay.ScanFindsAll` | src/store/store.cpp:446-484 | a segment of appended records, with whatever the last append left, scans to exactly those records and a clean or torn ending |
| `LogReplay.ScanGenuine` | src/store/store.cpp:446-484 | whatever the bytes, what is accepted is the encoding of storable frames with strictly increasing sequences |
| `Disks.CrashedLater` | src/store/record.cpp:274-363 | crashes of consecutive effects compose |
| `Disks.FileSystem.AppendDurable` | src/store/record.cpp:331-363 | an append happens whole, or the process dies with some prefix of it written |
| `Disks.FileSystem.WriteAtomic` | src/store/record.cpp:274-329 | a replacement happens whole or not at all |
| `Store.DurableStore.Commit` | src/store/store.cpp:544-560 | refuses oversized payloads and exhausted sequences without effect; otherwise appends exactly the next record and publishes only after the append |
| `Store.DurableStore.WriteSnapshot` | src/store/store.cpp:562-593 | performs exactly snapshot, empty segment, CURRENT, removals, in that order, and dies inside that sequence or completes; completed, the disk is the old one with the new snapshot and segment published, less only superseded snapshots and segments older than the new one |
| `Store.DurableStore.CleanupOldFiles` | src/store/store.cpp:495-542 | completed, only superseded snapshots and listed segments older than the active one are gone, and nothing else has changed; else it died inside the planned removals |
| `Store.CleanupCleans` | src/store/store.cpp:518-541 | whatever the listing, after all removals a listed snapshot is gone if and only if it is not the current one and more than the retained number of entries are as great or greater, a listed segment if and only if it is older than the active one, and every other file and CURRENT are as before |
| `Store.SupersededDistinct` | src/store/store.cpp:521-531 | in a listing without repeats that is: at least the retained number of listed snapshots are newer |
| `Store.DurableStore.ReplayLog` | src/store/store.cpp:433-491 | the loop yields the scan of the segment, repairs a torn tail by rewriting the whole records, and refuses every other damage without effect |
| `Store.DurableStore.InitializeFresh` | src/store/store.cpp:412-431 | writes the first segment, then CURRENT |
| `Store.DurableStore.Open` | src/store/store.cpp:304-410 | opens, refuses with the planned error and no effect, or dies inside the planned effects; opened, the disk is a new store's two files, or the old one with the active segment cut to its whole records, less only what a cleanup removes |
| `Openings.BaseReadExactly` | src/store/store.cpp:377-408 | on any disk the named snapshot reads as a state if and only if its file is the encoding of a snapshot record of that state, followed by anything, within the bound |
| `Openings.SegmentReadExactly` | src/store/store.cpp:433-491 | any segment of whole records with growing numbers and a rest that is none is read if and only if the rest is empty or torn and may be cut off; then the records beyond the snapshot are replayed, the others counted, the rest measured and removed |
| `Openings.SegmentRegressed` | src/store/store.cpp:474-476 | a record whose number does not grow refuses the segment, whatever comes behind |
| `Openings.OpensExactly` | src/store/store.cpp:363-410 | any directory with a readable snapshot and such a segment opens exactly then, given a retained number of one to four, and reports exactly that state, those records and those counts |
| `Openings.NewOpensExactly` | src/store/store.cpp:343-355 | without CURRENT only an empty directory opens, as a new store |
| `Openings.MissingFiles` | src/store/store.cpp:377-445 | a missing segment is made up as empty, a missing or foreign snapshot refuses |
| `StoreRuns.RemovalsHarmless` | src/store/store.cpp:495-542 | whatever the listing says, cleanup never removes a file CURRENT names |
| `StoreRuns.RunKeeps` | src/store/store.cpp:304-593 | in every run the disk holds the last published snapshot, every acknowledged record and at most part or all of the one in flight |
| `StoreRuns.RecoveryIsExact` | src/store/store.cpp:363-491 | after every run, opening succeeds if and only if the snapshot fits one record, the segment its bound, and a cut tail may be repaired; it yields that snapshot, all acknowledged records in order and at most the one in flight |
| `StoreRuns.OpenStoreIsExact` | src/store/store.cpp:544-593 | while a store is open the disk is exactly the snapshot plus the acknowledged records |
| `StoreRuns.NamedFilesPresent` | src/store/store.cpp:377-391 | at every moment of every run the files CURRENT names exist |
| `StoreRuns.NothingForgotten` | src/store/store.cpp:544-560 | until a snapshot is taken, no crash or reopening drops an acknowledged record |
| `StoreRuns.CommitAcknowledgedExactly` | src/store/store.cpp:544-560 | in every run a finished commit acknowledges its record under the next number if and only if the payload is within the record bound and a number is left, and otherwise changes nothing |
| `StoreRuns.SnapshotTakenExactly` | src/store/store.cpp:562-593 | in every run a finished snapshot becomes the whole state if and only if the payload is within the snapshot bound, and otherwise changes nothing |
| `StoreRuns.FirstOpening` | src/store/store.cpp:343-355 | a crash between the first opening's two writes leaves a directory every later opening refuses |
| `StoreRuns.MethodsStep` | src/store/store.cpp:544-593 | however a method of the store ends, it is one event of these runs |
| `Boundaries.Create` | src/model/boundary.cpp:49-79 | accepts exactly the well-formed duplicate-free member lists, in any order, and sorts them; a refusal names a condition the list violates |
| `Boundaries.Contains` | src/model/boundary.cpp:102-115 | the binary search decides membership |
| `Boundaries.IsSubsetOf` | src/model/boundary.cpp:135-142 | decides set inclusion of the governed resources |
| `Boundaries.SameMembers` | src/model/boundary.cpp:148-158 | the position-by-position comparison decides equality of the governed sets |
| `CoordinatorRuns.LeaseAcceptedExactly` | src/runtime/coordinator.cpp:203-233 | in every run an authorization is accepted if and only if it is unexpired and no topology, policy or evidence change was published since it was issued |
| `CoordinatorRuns.StaleForever` | src/model/authority.cpp:132-158 | an issued authorization refused once is refused in every later state |
| `CoordinatorRuns.VerifiedBeforeReplaced` | src/runtime/coordinator.cpp:944-954 | in every run, a transition accepted while boundary B is current implies a retained verified attempt of the plan in force that observed B's digest |
| `CoordinatorRuns.ScopeChangesOnlyByTransition` | src/runtime/coordinator.cpp:956-1024 | only an accepted transition changes the governed scope: expansion keeps every member, contraction strictly shrinks, release clears |
| `CoordinatorLaws.TransitionAcceptedExactly` | src/runtime/coordinator.cpp:875-993 | in every run a transition is accepted if and only if the lease runs, the plan is retained under the presented digest, expected generation and presence match, what is in force is absent or verified, the member sets fit the kind, and the plan is newer than the one in force or none is; it is indeterminate exactly when only the verification is missing, and denied exactly for a release without its proof |
| `CoordinatorLaws.InForceMoves` | src/runtime/coordinator.cpp:986-1024 | in every run an accepted transition puts a strictly newer plan in force, and otherwise the plan in force moves only by a report on an attempt, to the plan that attempt names, with the same governed scope |
| `CoordinatorLaws.AcceptedAscend` | src/runtime/coordinator.cpp:986-993 | accepted decisions carry ever newer plans as long as no report in between takes the plan in force back |
| `CoordinatorLaws.InForceGoesBackExactly` | src/runtime/executor.cpp:255-268 | in every run a report takes the plan in force back if and only if it finds an open attempt's own boundary in place and that attempt's plan is retained, older, and governs the current resources |
| `CoordinatorLaws.SamePlanTwice` | src/runtime/executor.cpp:57-64 | a run in which a decision is accepted, an attempt under an older plan with the same members is verified, and the same decision is accepted again |
| `CoordinatorLaws.SubmissionAcceptedExactly` | src/runtime/executor.cpp:38-80 | in every run a submission is accepted if and only if the lease runs, the plan is retained under the presented digest and in force or of the current membership, and nothing is in flight or verified |
| `CoordinatorReports.EffectsExplained` | src/runtime/executor.cpp:106-272 | in every run each retained attempt is as submitted or an earlier event explains it: applied and released only by a report of just that with the attempt's own digest, acknowledged only by an accepting acknowledgement, failed only by a refusing one or a report of nothing applied |
| `CoordinatorRuns.RunKeeps` | src/runtime/executor.cpp:38-272 | the invariants behind both hold in every run: verified attempts observed their own plan's boundary, and a verified summary state belongs to the plan in force |
| `CoordinatorSteps.RunForward` | src/runtime/coordinator.cpp:701-750 | over every run topology, policy, evidence generations and the evidence revision never go back, and states with the same revision carry the same evidence |
| `CoordinatorSteps.AuthorizeBounded` | src/runtime/coordinator.cpp:754-777 | issuing drops no running lease, never outgrows the table, and issues the next id bound to the current authority |
| `CoordinatorSteps.PlanAppended` | src/runtime/coordinator.cpp:783-847 | a plan takes the next generation, its boundary carries it, an evidence conflict denies it any proof, and only the oldest plan is given up |
| `CoordinatorLaws.PlanMadeExactly` | src/runtime/coordinator.cpp:783-847 | in every run a plan is made if and only if the lease runs, a topology is loaded and the chosen members can make a boundary; it holds those members and the planner's claim, or less while evidence conflicts |
| `CoordinatorLaws.IssuedExactly` | src/runtime/coordinator.cpp:754-777 | the ended leases at the front go, and a lease is issued if and only if that leaves room, on the current definitions and for the configured time |
| `CoordinatorLaws.DefinitionsDecided` | src/runtime/coordinator.cpp:661-699 | a topology or policy is taken if and only if it is strictly newer than the one held |
| `CoordinatorLaws.RecordsCounted` | src/runtime/coordinator.cpp:96-110 | every published change adds one record, a refused transition one and an accepted one two |
| `CoordinatorReports.DetectionDecided` | src/runtime/coordinator.cpp:701-750 | an observation is a conflict if and only if it tells the held generation differently, a regression if and only if it is older, over the limit if and only if new to a full table, and otherwise recorded; a recorded change clears the conflict |
| `CoordinatorReports.ConflictStandsExactly` | src/runtime/coordinator.cpp:701-750 | in every run the conflict flag stands if and only if some observation contradicted the evidence of its time and no evidence has changed since |
| `CoordinatorReports.NewestIsHighest` | src/runtime/coordinator.cpp:174-197 | the attempt picked for a plan has the highest number, and one is picked whenever one is retained |
| `CoordinatorReports.AcknowledgementDecided` | src/runtime/executor.cpp:106-159 | which acknowledgements are taken, which contradict, and what a taken one leaves: only its attempt changes, as the acknowledgement explains, and the summary is the newest attempt's state |
| `CoordinatorReports.ReportDecided` | src/runtime/executor.cpp:161-272 | the same for verification reports |
| `Coordinator.ContainmentRuntime.ValidateAuthorization` | src/runtime/coordinator.cpp:203-233 | the method takes exactly the specified step: the first failing check decides, and a stale or expired lease is fenced |
| `Coordinator.ContainmentRuntime.RecordDetection` | src/runtime/coordinator.cpp:701-750 | the method takes exactly the detection step that `DetectionDecided` decides |
| `Coordinator.ContainmentRuntime.Authorize` | src/runtime/coordinator.cpp:754-777 | the loop and the append take exactly the step of `IssuedExactly` |
| `Coordinator.ContainmentRuntime.MakePlan` | src/runtime/coordinator.cpp:783-847 | lease check, composition and eviction loop take exactly the step that `PlanMadeExactly` decides |
| `Coordinator.ContainmentRuntime.Transition` | src/runtime/coordinator.cpp:875-1035 | the checks in the source's order and the installation take exactly the step that `TransitionAcceptedExactly` decides |
| `Coordinator.ContainmentRuntime.SubmitApply` | src/runtime/executor.cpp:38-104 | the method takes exactly the submission step that `SubmissionAcceptedExactly` decides |
| `Coordinator.ContainmentRuntime.RecomputeEffectState` | src/runtime/coordinator.cpp:174-197 | the scan picks the attempt of the plan in force that `NewestIsHighest` speaks of |
| `Coordinator.ContainmentRuntime.Acknowledge` | src/runtime/executor.cpp:106-159 | the method takes exactly the step that `AcknowledgementDecided` decides; a mismatch leaves the summary state alone |
| `Coordinator.ContainmentRuntime.VerifyEffect` | src/runtime/executor.cpp:161-272 | the method takes exactly the step that `ReportDecided` decides |

## Left out

- Necessity.Analyze: the meaning of the verdicts is stated for plain nodes, because barring an obligation has no effect when protected inclusion is allowed; what an obligation's verdict says is `ObligationFiled`.
- OverlapCondition.OptimalVerdictsExact: stated for instances that leave room for three more nodes; the node identities of the surrounding instances are any ascending strings, not only names of valid resources.
- GreedyCondition.MinimalAnswersExact: the same room and the same freedom of identities; nodes added around the containable ones are not containable.
- Planner.SolvePlan: the freshness of evidence is a parameter; inclusion reasons, the use of UNKNOWN edges along witnesses, the necessity lists of a plan (the analysis itself is `Necessity.Analyze`), explanations and counters are not modelled.
- HeuristicSolver.SolveHeuristic: no quality bound is claimed for the returned weight, as the source promises none.
- ExactSolver.SolveExact: a budget is any natural number, so the sufficient one need not fit the source's 64-bit counter when an instance has 64 containable nodes or more.
- ExactSolver.ExactSearch.Search: the counters of pruned branches and checked paths are kept, but nothing is claimed of their values; the included, excluded and current vectors are sequence-valued fields.
- ExactSolver.ExactSearch.BranchStep: the early exit at a mandatory path node is kept although mandatory nodes never lie on a residual path.
- SearchBounds.DisjointPathBound: overflow branches are replaced by the proofs that the sums fit.
- Store.DurableStore.Open: the pid lock file, directory creation and the text format of CURRENT are left out; CURRENT is a pair of numbers.
- Store.DurableStore.CleanupOldFiles: parsing numbers out of file names is left out; the listing is arbitrary.
- Store.DurableStore.WriteSnapshot: snapshot and segment numbers are unbounded, without 64-bit wrap-around.
- StoreRuns.RunKeeps: I/O errors other than the death of the process are left out.
- Coordinator.ContainmentRuntime.MakePlan: the planner's result is a parameter; plans keep generation, claim and boundary only.
- Coordinator.ContainmentRuntime.Transition: the retained list of past decisions and its explanation texts are left out; a failing durable commit is not modelled.
- Coordinator.ContainmentRuntime.RecordDetection: the retained list of detection records and per-boot confirmations are left out.
- CoordinatorRuns.RunKeeps: one fresh incarnation; recovery of coordinator state across restarts is not covered, because log replay does not restore every counter.
- The FNV digests, JSON rendering, configuration text, sockets, sessions, client and command-line tools: formatting and I/O.
- The plan and durable-state codecs: long field lists in the manner of the topology codec.
- The searches that the source repeats in several functions (breadth-first floods, reverse deletion) are modelled once and shared.
