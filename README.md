# Approximate dynamic programming over stage policies for a capacity-constrained multi-scenario MDP

The modelled program chooses, for a cohort of `nPop` patients, which non-absorbing states to
put under a controlled action at each decision epoch. It must respect a per-stage capacity in
every scenario, and each scenario is a stationary absorbing Markov decision process. It works
on a layered graph:

- A **node** is a stage `t` together with a stage policy `pi`, a boolean per non-absorbing
  state that is true when the state is controlled. Every stage holds one node for every policy
  vector, enumerated by a recursive Cartesian product of `[false, true]`.
- A node carries per-scenario occupancy measures: `X_n` (uncontrolled mass), `X_c` (controlled
  mass) and `Z` (absorbed mass). At stage 0 the prior distribution is split between `X_n` and
  `X_c` by `pi`.
- An **arc** pushes the measures of its source one step through each scenario's transition law
  `P` and absorption law `Q`, then splits the arriving mass by the target's policy. An arc into
  the last controllable stage takes one more look-ahead step, whose terminal reward `R` is
  added to the arc's length.
- A node or arc is **feasible** when `nPop` times its controlled mass stays within the stage's
  capacity in every scenario.
- The **forward pass** (`runADP`) relaxes each stage against the already relaxed previous stage.
  A node with feasible arcs from eligible sources takes the best arc's score as its value, the
  source as its predecessor, and the arc's measures. A source is eligible when it is a feasible
  stage-0 node at `t = 1`, or a reached node later.
- The objective is the best last-stage value divided by the number of scenarios.
- `setPath` walks back from the best last-stage node along the predecessor links. `setStrategy`
  writes the path's policies as a 0/1 matrix.
- The problem instance reshapes flat parameter arrays into 2-D and 3-D arrays in row-major
  order. It derives each terminal reward as the mean of the state's two immediate rewards.

The Dafny project has four modules:

- `Problems` (`problem.dfy`) holds the instance, the reshaping and the reward derivation.
- `Policies` (`policies.dfy`) holds the Cartesian product and the enumeration of policies.
- `Occupancy` (`occupancy.dfy`) holds the per-scenario measure arithmetic and flow conservation.
- `Graphs` (`graph.dfy`) holds nodes, arcs, construction, the forward pass, the path and the
  strategy.

Representation choices:

- Doubles are `real`.
- Nodes and arcs are values. A node names its predecessor by its index in the previous stage's
  row of the node table.
- The engine is a class whose node table, path and objective value are fields its methods
  reassign; the strategy is an `array2<int>`.
- The reshaping methods fill fresh `array2`/`array3` objects with the source's nested loops.

Where the source fails with an exception, the model returns an error or `false` instead:

- `from1Dto2D`/`from1Dto3D` throw on an element-count mismatch; the model returns an `Err`
  result.
- `getBestArc` returns `null` when no candidate scores above its sentinel, and `runADP` then
  dereferences it. The model's forward pass yields `None` and `RunADP` returns `false`.
- `setPath` dereferences a missing best node or a missing predecessor; `SetPath` returns
  `false`.
- With no decision stage (nTBar = 0), `runADP` and `setPath` read a stage that does not
  exist; `RunADP` and `SetPath` return `false`.

The model keeps these details of the code:

- An arc's length is computed from its cumulative absorbed mass `Z`, not from the mass
  absorbed in that step.
- The reward term `Z·rD` is added once per non-absorbing state instead of once per scenario
  (`rD` is always 0 after construction).
- `Node.setOccupancyMeasures` copies `Z[l]` inside the loop over states, so with no
  non-absorbing states `Z` is left as it was.
- The objective value starts from the field's previous value, initially 0, and is then
  divided by `nScenario`.

## Model

| member | source | states |
|---|---|---|
| Problems.Problem.constructor | Problem.java:39-52 | nState is the number of priors plus one, nStage the number of capacities plus one, rD is 0, and the other inputs are kept as given |
| Problems.From1Dto2D | Problem.java:196-217 | fails exactly when the length differs from m·n; otherwise returns an m×n array with B[i,j] = A[i·n+j], whose row-major reading is A again |
| Problems.From1Dto3D | Problem.java:219-244 | fails exactly when the length differs from m·n·k; otherwise returns an m×n×k array with B[i,j,q] = A[(i·n+j)·k+q], whose row-major reading is A again |
| Problems.FillRowMajor3 | Problem.java:230-241 | the three nested loops with their running index leave every B[i,j,q] equal to A[(i·n+j)·k+q] |
| Problems.FillPlane | Problem.java:232-240 | one pass of the outer loop fills plane i, and the running index moves to the start of plane i+1 |
| Problems.FillLine | Problem.java:236-239 | the innermost loop fills line (i,j) from the running index and advances the index by k |
| Problems.Flatten2RoundTrip | Problem.java:205-216 | reading an array filled row-major back in row-major order gives the flat input |
| Problems.Flatten3RoundTrip | Problem.java:228-243 | the same round trip for three dimensions |
| Problems.OffsetIsProduct | Problem.java:201-212 | the running index of a row-major fill at row i is i·n |
| Problems.DeriveTerminalReward | Problem.java:189-192 | R has one entry per state, and R[i] is the mean of r[i][0] and r[i][1] |
| Policies.CartesianProduct | Graph.java:398-416 | every combination picks one entry from each list, in list order, and has one entry per list |
| Policies.CombinationsCount | Graph.java:317-324 | the product of n copies of [false, true] has 2^n combinations, each of length n (one empty combination for n = 0) |
| Policies.IndexOfCombination | Graph.java:398-416 | the k-th combination spells k in binary, first bit most significant, so the enumeration order is 0 .. 2^n−1 |
| Policies.CombinationOfIndex | Graph.java:398-416 | every boolean vector of length n is enumerated, at the position its binary value names |
| Policies.CombinationsDistinct | Graph.java:398-416 | no combination appears twice |
| Occupancy.SplitPriors | Graph.java:88-96 | at stage 0 each state's prior goes wholly to the controlled measure when the policy bit is set, and wholly to the uncontrolled measure otherwise |
| Occupancy.ScenarioReward | Graph.java:101-106 | one scenario's stage reward is the sum over states of X_n·r[.][0] + X_c·r[.][1] + Z·rD |
| Occupancy.PropagateScenario | Graph.java:219-239 | the flow into each state is split by the target's policy, and the absorbed mass grows by the mass absorbed in the step |
| Occupancy.LookaheadScenario | Graph.java:242-253 | the look-ahead step gives the unsplit flow into each state and the absorbed mass one step further |
| Occupancy.ScenarioTerminalReward | Graph.java:270-276 | one scenario's terminal reward is the sum over states of Y·R + Z2·rD |
| Occupancy.ScenarioUsage | Graph.java:150-163 | the capacity used by a scenario is nPop times its total controlled mass |
| Occupancy.SplitExclusive | Graph.java:227-233 | a policy split puts all of a state's mass on one side, the controlled side exactly when the bit is set |
| Occupancy.SplitConserves | Graph.java:227-233 | splitting by a policy neither creates nor destroys mass |
| Occupancy.StepConserves | Graph.java:219-239 | when every transition row plus its absorption probability sums to one, a step keeps the scenario's total mass |
| Occupancy.FlowInterchange | Graph.java:220-225 | the mass arriving in the first m states equals, summed the other way round, the mass each source state sends there |
| Graphs.Node.IsFeasible | Graph.java:166-178 | true exactly when nPop times the controlled mass is within the node's stage capacity in every scenario |
| Graphs.InitialNode | Graph.java:61-70 | a new node has the given stage and policy, measures of the engine's dimensions, no predecessor and Z = 0 |
| Graphs.NewNode | Graph.java:83-113 | at stage 0 the measures are the policy split of the priors and the value equals the objective; every new node has Z = 0 |
| Graphs.SetOccupancyMeasures | Graph.java:124-148 | the node takes the given measures (Z only when there are states) and its objective is recomputed from them |
| Graphs.ComputeObjective | Graph.java:135-146 | the objective is the sum over scenarios of the scenario stage rewards |
| Graphs.CapacityUsage | Graph.java:150-163 | per scenario, nPop times the controlled mass |
| Graphs.CheckCapacity | Graph.java:166-178 | the scan that stops at the first scenario over capacity returns true exactly when no scenario is over capacity |
| Graphs.WithinCapacityMonotone | Graph.java:166-178 | a policy within capacity stays within capacity when the capacity is raised |
| Graphs.Arc.IsFeasible | Graph.java:297-310 | true exactly when nPop times the arc's controlled mass is within the target stage's capacity in every scenario |
| Graphs.ArcMeasures | Graph.java:213-255 | the arc's measures are the source's flow split by the target's policy, with the absorbed mass grown by one step; the look-ahead measures exist exactly when the target is at stage nStage−2 |
| Graphs.PropagateMeasures | Graph.java:219-240 | the first loop of the arc's setOccupancyMeasures computes the split flow and the grown absorbed mass in every scenario |
| Graphs.LookaheadMeasures | Graph.java:241-254 | the look-ahead loop computes one more unsplit step and its absorbed mass in every scenario |
| Graphs.ArcLength | Graph.java:257-279 | the length is the objective of the arc's measures, plus the terminal reward of the look-ahead measures when there are any |
| Graphs.NewArc | Graph.java:199-211 | arc construction yields the arc determined by its source and target |
| Graphs.ArcPropagation | Graph.java:219-239 | entry by entry, the arc holds the flow into state j on the side the target's policy chooses and 0 on the other side, with Z grown by the mass absorbed in the step |
| Graphs.ArcConserves | Graph.java:213-255 | under stochastic scenarios an arc carries exactly its source's total mass per scenario, and the look-ahead step keeps that total again |
| Graphs.Construct | Graph.java:314-337 | builds, for every stage, one initial node per enumerated policy |
| Graphs.StageEnumeratesPolicies | Graph.java:324-335 | every stage holds 2^n nodes, and the node at position Index(v) has policy v, for every policy vector v |
| Graphs.StagePoliciesDistinct | Graph.java:324-335 | no two nodes of a stage share a policy |
| Graphs.BestOf | Graph.java:386-396 | none exactly when no value exceeds the sentinel; otherwise the first position of a maximum, which lies above the sentinel |
| Graphs.FirstMax | Graph.java:386-396 | the strict-maximum scan from a sentinel (−1000000 in getBestArc, −10000000 in setPath) returns the first position of the maximum above the sentinel, and none when no value exceeds it |
| Graphs.FeasibleFlags | Graph.java:343-347 | flags exactly the feasible stage-0 nodes |
| Graphs.CandidateArcs | Graph.java:351-365 | collects, in stage order, the feasible arcs from feasible stage-0 nodes at t = 1 and from reached nodes later |
| Graphs.CandidatesSound | Graph.java:351-365 | every candidate is the arc from an eligible source, and it is within capacity |
| Graphs.CandidatesComplete | Graph.java:351-365 | every eligible source whose arc is within capacity contributes a candidate |
| Graphs.RelaxBellman | Graph.java:366-373 | relaxing a node fails exactly when it has candidates and none scores above the sentinel; otherwise a node with candidates is reached through one of them, and its value is the maximum candidate score |
| Graphs.RelaxLinks | Graph.java:370-373 | a relaxed node keeps its predecessor or takes an eligible node of the previous stage |
| Graphs.RelaxNode | Graph.java:351-374 | the per-node body of the stage loop computes the relaxation of the node |
| Graphs.RelaxNodes | Graph.java:351-375 | the loop over a stage's nodes relaxes each of them, failing if any fails |
| Graphs.ForwardStep | Graph.java:350-376 | a failing stage fails the pass; otherwise the pass goes on from the table with that stage replaced |
| Graphs.ForwardPass | Graph.java:350-376 | the stage loop yields the forward pass over stages 1 .. nTBar−1 |
| Graphs.ForwardBellman | Graph.java:350-376 | after the pass a node of stage t ≥ 1 has a predecessor exactly when it has candidates; if it has none it keeps its initial state; otherwise it is reached through a candidate of maximal score |
| Graphs.ForwardRooted | Graph.java:353-363 | after the pass every predecessor link points into the previous stage, at a node that is reached: a stage-0 node or a node with a predecessor of its own |
| Graphs.ReachedFeasible | Graph.java:351-373 | after the pass every node of stage t ≥ 1 that has a predecessor is within its stage's capacity |
| Graphs.Stage1RootFeasible | Graph.java:343-357 | after the pass the predecessor of a reached stage-1 node is a stage-0 node within capacity |
| Graphs.ReachedMass | Graph.java:83-99 | under stochastic scenarios every reached node holds the whole prior mass in every scenario |
| Graphs.ReachThroughArcMass | Graph.java:370-373 | a node reached through an arc from a node holding the prior mass holds it too |
| Graphs.MaxFrom | Graph.java:378-381 | the running maximum is at least its start and every value, and equals the start or one of the values |
| Graphs.BestLength | Graph.java:378-381 | the scan over the last stage computes that running maximum |
| Graphs.Reversed | Graph.java:450 | reversal keeps the length and reads the input backwards |
| Graphs.ChainFrom | Graph.java:440-447 | the walk back starts at the chosen node and has at most t+1 entries |
| Graphs.WalkBack | Graph.java:440-447 | the backward loop collects the walk from the chosen node along its predecessor links |
| Graphs.ChainChronological | Graph.java:440-447 | from a reached node of a rooted table the walk back passes through stages t, t−1, …, 0, each entry the predecessor of the one before it |
| Graphs.PathChronological | Graph.java:426-451 | the reversed walk visits stage s at position s and links each node to its predecessor |
| Graphs.ReversedChain | Graph.java:450 | reversing a linked walk back gives a path forward on which path[s].t = s |
| Graphs.PathFeasible | Graph.java:426-451 | after the pass, the path read back from a reached node of stage T has one node per stage 0 .. T, each within its stage's capacity |
| Graphs.ReachedReplays | Graph.java:369-373 | after the pass a reached node of stage t ≥ 1 holds the measures of the arc from its predecessor (its Z only when there are states) and the predecessor's value plus that arc's length |
| Graphs.ReachedByReplays | Graph.java:198-255 | a node reached through an arc holds that arc's measures and score, where the arc is rebuilt from the reached node itself, since an arc reads only its target's stage and policy |
| Graphs.PathArcs | Graph.java:426-451 | after the pass, replaying the arcs of the path read back from a reached node gives each node after the first the measures of the arc from the node before it, and that node's value plus the arc length |
| Graphs.PathReplay | Graph.java:426-451 | the path read back from a reached node of stage T has T+1 nodes with path[s].t = s: with full-length policies when the table is rooted; when the table is the forward pass's result, every node is within capacity and replaying its arcs gives back each node's measures and value |
| Graphs.Graph.constructor | Graph.java:31-44 | the table is the constructed one, the path is empty, the objective is 0 and the strategy is an all-zero nTBar×nSBar matrix |
| Graphs.Graph.RunADP | Graph.java:339-384 | succeeds exactly when there is a decision stage and the forward pass succeeds; the table becomes the pass's result and the objective becomes max(previous value, last-stage values) / nScenario; on failure the table and the objective are unchanged |
| Graphs.Graph.SetPath | Graph.java:426-451 | succeeds exactly when there is a decision stage, a last-stage node scores above −10000000 and the first best one has a predecessor; the walk back is appended to the path and the whole list reversed, so the path becomes the reversed walk (stage order) followed by the previous contents reversed; from an empty path over a rooted table it holds one node per stage, in stage order, with full-length policies, and over the forward pass's result every node is within capacity and holds the measures and value of the arc from the node before it |
| Graphs.Graph.SetStrategy | Graph.java:453-463 | strategy[t][i] is 1 exactly when the path's stage-t policy controls i, and 0 otherwise |

## Left out

- Reading the scenario parameters from CSV files (`Problem.read`, the second `Problem` and `MDP` constructors) is not modelled: the scenarios are constructor parameters.
- MIP.java is not part of this model. Neither are `writeStrategy`, `displayPath`, `displayStrategy`, `getObjVal` and `getElapsedTime`, which only do I/O or return a field, nor the wall-clock timing in `runADP`.
- The `parallelStream` loops are modelled as sequential loops over scenarios; each scenario writes only its own entries.
- Floating-point rounding is not modelled: doubles are real numbers and sums are exact, taken left to right.
- `makeDefault` and the copy constructor of `Node` are not modelled. Nodes are values, so a copy is the node itself.
- `getBestArc` iterates a `HashMap`, whose order is unspecified. The model scans the candidates in stage order, so among equal best scores it keeps the first.
- The forward pass does not update nodes in place. It relaxes a table value stage by stage; each stage is relaxed against the already relaxed previous stage, as in the source. `RunADP` assigns the resulting table to the field once.
- After an exception the source leaves partly updated nodes behind. The model reports failure, and `RunADP` then leaves the table and the objective unchanged.
- Graphs.Graph.RunADP: requires nScenario ≥ 1. With no scenario the source divides by zero in floating point and gets an infinity or NaN, which reals do not represent.
- Problems.From1Dto2D: compares the length with the exact product m·n, not with Java's 32-bit product, which wraps around. Likewise for Problems.From1Dto3D.
- Graphs.ForwardBellman: states the Bellman step for the table the constructor builds. A second `runADP` on an already relaxed table is covered only by Graphs.Graph.RunADP's contract in terms of the forward pass.
