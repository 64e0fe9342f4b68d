# Routing oracle of the TSP example: subtour elimination and formulation

This project models the routing oracle of the HIRO TSP example (`examples/tsp/src/tsp.cpp`) and proves properties of the model.

It covers two parts of that file:

- **The lazy-constraint callback `CycleLazyCallback`.** It rounds the arc values of an integral candidate to a 0/1 matrix. It splits the nodes into paths by following selected arcs from the smallest unreached node. When it finds more than one path, it adds, for each path, a cut bounding the sum of the path's arc variables by its length minus one.
- **The data that `TSP::solve_ip` builds for the solver:**
  - the flat index map `dmap`;
  - one scenario row `z >= sum c[k][dmap[i][j]] * x[i][j]` per cost vector;
  - the in-degree and out-degree rows with range [1, 1];
  - the copy of the solver's arc values into the flat solution vector.

Modules:

- `Sets`: integer ranges, cardinality facts, least elements.
- `Lp`: the narrow view of the solver backend.
  - A variable is an arc variable `X(i, j)` or the objective variable `Z`.
  - A range constraint has a coefficient map, a lower bound and an optional upper bound.
  - `Satisfied` says when a point satisfies it.
  - "add" is appending to a sequence of constraints.
- `Cycles`: the specification of what the tracer computes.
  - `Succ` is the head of the last selected arc.
  - `IsTrace` is one traced path; `IsDecomposition` is the whole sequence of paths.
  - Facts about both, including the cycle partition under a permutation matrix and tours.
- `Callback`: the callback as imperative methods (`Threshold`, `NextNode`, `TracePath`, `Decompose`, `EmitCuts`, `LazyCallback`). Each loop is proved against the `Cycles` predicates.
- `Cuts`: what the cuts achieve.
  - The current candidate violates every emitted cut.
  - No tour violates any of them.
  - A cut holds exactly when a path arc is missing.
  - A four-node example.
- `Formulation`: the parts of `solve_ip` listed above, as methods with loops proved against specification functions, and lemmas on what each row means at a 0/1 point.

The callback's state maps to the model as follows:

- The `std::set<int>` values `unreached` and `reached` are `set<int>`.
- The vectors `path` and `paths` are sequences.
- `*(unreached.begin())` is the least element of `unreached`.
- The `do ... while(!find_cycle)` loop is a `while` loop on a `findCycle` flag.

The value of an arc is an `Option<real>`. `None` stands for a `getValue` call that raised `IloException`, which the source catches and ignores.

Three behaviours of the code that a cycle-cover formulation would not lead one to expect; the model follows the code:

- **Diagonal variables.** The code creates a variable `x[i][i]` for every node, and every scenario row gives it a coefficient. Only the degree rows leave the diagonal out. At a 0/1 point of the degree rows, the selected arcs between distinct nodes therefore always form a permutation matrix, but a selected self-loop `x[i][i]` takes over as the successor of i whenever i's other arc goes to a smaller node (`Formulation.SuccUnderDegreeRows`). A single path still means that the arcs between distinct nodes form one Hamiltonian cycle (`Formulation.OnePathHamiltonian`). The callback, however, accepts such a candidate with its self-loop still selected (`Formulation.SelfLoopAccepted`).
- **Paths that are not cycles.** The tracer stops at any node already reached on the current path, so a path is in general a "rho" shape, not a cycle. On a non-permutation input, it may also pass through nodes that earlier paths reached, because the closing test checks only the `reached` set of the current path. The `unreached.erase(next)` of such a node then removes nothing. `IsTrace` and `IsDecomposition` describe exactly this.
- **Disjoint cycles.** When the matrix is a permutation matrix, the paths are disjoint directed cycles; `Cycles.CyclePartition` proves it.

## Model

| member | source | states |
|---|---|---|
| Callback.Threshold | examples/tsp/src/tsp.cpp:24-36 | `sol` is n by n, and `sol[i][j]` holds exactly when the value of arc (i, j) could be read and exceeds 0.5; an unreadable value leaves the entry false |
| Callback.NextNode | examples/tsp/src/tsp.cpp:56-59 | the inner for loop returns `Succ`: a selected head of `current`, with no selected head above it (the last index the loop assigns) |
| Cycles.SuccSelected | examples/tsp/src/tsp.cpp:56-59 | when every node has a selected outgoing arc, `Succ(v)` is a node, `sol[v][Succ(v)]` holds and no larger index is selected |
| Cycles.PermutationHasOut | examples/tsp/src/tsp.cpp:56-59 | a permutation matrix meets the precondition of the successor loop: every node has a selected outgoing arc |
| Callback.TracePath | examples/tsp/src/tsp.cpp:46-73 | the do-while loop produces a trace that starts at the least unreached node, and `unreached` afterwards is the old set minus exactly the nodes the path left |
| Callback.WalkStep | examples/tsp/src/tsp.cpp:60-71 | one iteration either closes the path with the arc to an already reached node (then path is a trace and `reached` its node set) or extends the walk and adds the new node to `reached` |
| Callback.WalkingCard | examples/tsp/src/tsp.cpp:60-71 | the tracer never holds more than n reached nodes, which bounds the do-while loop |
| Callback.Decompose | examples/tsp/src/tsp.cpp:38-76 | the outer while loop ends with a decomposition: each path is a trace from the least node no earlier path reached, all n nodes are reached, and there are at most n paths |
| Callback.ExtendDecomposition | examples/tsp/src/tsp.cpp:44-76 | appending the traced path keeps the outer loop's invariant (unreached = all nodes minus those covered) and strictly shrinks `unreached` |
| Callback.EmitCuts | examples/tsp/src/tsp.cpp:78-90 | with at most one path nothing is added; otherwise one cut per path, in the order of the paths |
| Callback.ArcVarsSnoc | examples/tsp/src/tsp.cpp:85-86 | after the k-th iteration of the coefficient loop, the cut's variables are those of the first k + 1 arcs |
| Callback.LazyCallback | examples/tsp/src/tsp.cpp:18-93 | the whole callback: the rounded matrix, its decomposition, and the cuts `CutsFor(paths)` exactly when there is more than one path |
| Cycles.TraceSelected | examples/tsp/src/tsp.cpp:57-70 | every arc (a, b) of a traced path is a selected arc, `sol[a][b]` |
| Cycles.TraceLength | examples/tsp/src/tsp.cpp:54-73 | a traced path leaves each of its nodes once, so it has at most n arcs |
| Cycles.DistinctTailsCard | examples/tsp/src/tsp.cpp:62-69 | arcs with pairwise distinct tails have as many tails as arcs |
| Cycles.TraceUnique | examples/tsp/src/tsp.cpp:50-73 | the tracer is deterministic: two traces from the same node are equal |
| Cycles.ClosesOnlyAtEnd | examples/tsp/src/tsp.cpp:60-64 | a prefix of a trace ends on a node it has already left exactly when it is the whole trace |
| Cycles.PermutationCloses | examples/tsp/src/tsp.cpp:60-64 | under a permutation matrix the closing arc returns to the first node, so the path is a directed cycle |
| Cycles.SuccInjective | examples/tsp/src/tsp.cpp:56-59 | under a permutation matrix no two nodes have the same successor |
| Cycles.PredecessorOnTrace | examples/tsp/src/tsp.cpp:54-73 | under a permutation matrix a node whose successor lies on a trace lies on it too |
| Cycles.MeetingTraceStartsOn | examples/tsp/src/tsp.cpp:54-73 | under a permutation matrix a trace that meets another trace's nodes starts on them |
| Cycles.CyclePartition | examples/tsp/src/tsp.cpp:44-76 | under a permutation matrix the paths are directed cycles with pairwise disjoint node sets that together are all nodes |
| Cycles.StartsDistinct | examples/tsp/src/tsp.cpp:50-52 | each path starts at a node that no earlier path reached |
| Cycles.DecompositionUnique | examples/tsp/src/tsp.cpp:44-76 | the decomposition is determined by the matrix, so `Decompose` computes a function of `sol` |
| Cycles.SingleCovers | examples/tsp/src/tsp.cpp:78 | with a single path, that path reaches every node |
| Cycles.SpanningTraceLength | examples/tsp/src/tsp.cpp:54-73 | a trace reaching every node has exactly n arcs |
| Cycles.SinglePathIsTour | examples/tsp/src/tsp.cpp:78 | a single path leaves every node once, has n arcs, and under a permutation matrix it returns to its start |
| Cycles.PermutationSuccIs | examples/tsp/src/tsp.cpp:56-59 | under a permutation matrix the successor of a node is the head of its one selected arc |
| Cycles.WalkStaysOn | examples/tsp/src/tsp.cpp:54-73 | a trace that starts on a closed trace never leaves its nodes |
| Cycles.TraceSpans | examples/tsp/src/tsp.cpp:54-73 | when the matrix is a tour, every trace reaches every node |
| Cycles.TourHasOnePath | examples/tsp/src/tsp.cpp:78-90 | when the candidate is a tour, the decomposition has exactly one path, so the callback adds no cut |
| Cycles.OnePathIsTour | examples/tsp/src/tsp.cpp:78-90 | under a permutation matrix, a decomposition with one path is a tour: exactly the candidates the callback accepts |
| Cuts.ArcVarsCard | examples/tsp/src/tsp.cpp:85-86 | the cut of a path with distinct tails has one coefficient per arc |
| Cuts.CutLhs | examples/tsp/src/tsp.cpp:83-86 | at a 0/1 point the left-hand side of a cut counts the path's arcs that are selected |
| Cuts.CutViolated | examples/tsp/src/tsp.cpp:83-88 | the cut of a traced path has left-hand side |path| at the candidate, above its bound |path| - 1 |
| Cuts.CutsViolated | examples/tsp/src/tsp.cpp:78-90 | the current candidate violates every cut the callback emits |
| Cuts.MissingArcSatisfies | examples/tsp/src/tsp.cpp:83-86 | a 0/1 point that leaves out some arc of the path satisfies its cut |
| Cuts.CutMeaning | examples/tsp/src/tsp.cpp:83-86 | a 0/1 point satisfies a path's cut exactly when it leaves out one of the path's arcs |
| Cuts.TourContainingTrace | examples/tsp/src/tsp.cpp:54-73 | a tour that selects every arc of a trace agrees with the candidate on every successor, and the trace reaches every node |
| Cuts.SomeArcMissing | examples/tsp/src/tsp.cpp:78-90 | with more than one path, every tour leaves out at least one arc of each path |
| Cuts.CutSatisfied | examples/tsp/src/tsp.cpp:78-90 | with more than one path, every tour satisfies the cut of each path |
| Cuts.CutsValid | examples/tsp/src/tsp.cpp:78-90 | the cuts are valid: every tour satisfies every cut the callback emits |
| Cuts.TwoPairsDecomposition | examples/tsp/src/tsp.cpp:44-76 | on four nodes with arcs 0->1, 1->0, 2->3, 3->2 the decomposition is the two 2-cycles |
| Cuts.TwoSubtours | examples/tsp/src/tsp.cpp:78-90 | on that input the cuts are x01 + x10 in [0, 1] and x23 + x32 in [0, 1] |
| Formulation.IndexMap | examples/tsp/src/tsp.cpp:108-114 | `dmap[i][j] = i * nr + j` for all node pairs, each value in [0, nr * nr) |
| Formulation.FlatIndexDecode | examples/tsp/src/tsp.cpp:113 | `i * nr + j` lies in [0, nr * nr), and division and remainder by nr recover i and j |
| Formulation.FlatIndexEncode | examples/tsp/src/tsp.cpp:113 | every index in [0, nr * nr) is `dmap` of some node pair: the map is onto |
| Formulation.FlatIndexInjective | examples/tsp/src/tsp.cpp:113 | distinct node pairs have distinct flat indices: the map is one-to-one |
| Formulation.BuildCostExpr | examples/tsp/src/tsp.cpp:132-135 | the loop nest builds the expression with coefficient `c[k][dmap[i][j]]` on every arc variable |
| Formulation.AddRowTerms | examples/tsp/src/tsp.cpp:134-135 | the inner loop adds the terms of the arcs leaving node i |
| Formulation.CostExprAt | examples/tsp/src/tsp.cpp:133-135 | the scenario expression gives arc (i, j), the diagonal included, the coefficient `c[i * nr + j]` and has no `z` term |
| Formulation.AtLeastValue | examples/tsp/src/tsp.cpp:136 | the row `cpz >= con` has left-hand side z minus the value of con |
| Formulation.AtLeastMeaning | examples/tsp/src/tsp.cpp:136 | the row holds exactly when z is at least the value of con |
| Formulation.ScenarioMeaning | examples/tsp/src/tsp.cpp:130-137 | the row of scenario k holds exactly when z is at least the scenario's cost of the point |
| Formulation.BuildInRow | examples/tsp/src/tsp.cpp:140-149 | the in-degree loop builds the row with coefficient 1 on `x[j][i]` for every j != i and range [1, 1] |
| Formulation.BuildOutRow | examples/tsp/src/tsp.cpp:152-161 | the out-degree loop builds the row with coefficient 1 on `x[i][j]` for every j != i and range [1, 1] |
| Formulation.InRowMeaning | examples/tsp/src/tsp.cpp:140-149 | at a 0/1 point the in-degree row of i holds exactly when exactly one other node has a selected arc into i |
| Formulation.OutRowMeaning | examples/tsp/src/tsp.cpp:152-161 | at a 0/1 point the out-degree row of i holds exactly when i has exactly one selected arc to another node |
| Formulation.DegreeRowsPermutation | examples/tsp/src/tsp.cpp:140-161 | with no diagonal arc selected, all degree rows hold exactly when the selection is a permutation matrix |
| Formulation.DiagonalOnlyPriced | examples/tsp/src/tsp.cpp:130-161 | a diagonal variable `x[i][i]` has no coefficient in any degree row but one in every scenario row |
| Formulation.DiagonalSlack | examples/tsp/src/tsp.cpp:140-161 | the degree rows alone admit a selection with a diagonal arc that is not a permutation matrix |
| Formulation.OffDiagonalPermutation | examples/tsp/src/tsp.cpp:140-161 | at a 0/1 point satisfying every degree row, the selected arcs between distinct nodes form a permutation matrix, whatever the diagonal holds |
| Formulation.SuccUnderDegreeRows | examples/tsp/src/tsp.cpp:56-59 | at a point of the degree rows, the successor loop moves from i either to i's one other head or to i itself, and to i itself exactly when `x[i][i]` is selected and the other head is smaller than i |
| Formulation.OnePathHamiltonian | examples/tsp/src/tsp.cpp:78-90 | when a point of the degree rows yields a single path, the arcs between distinct nodes form a tour that agrees with the path on all but the last arc and returns to the path's start |
| Formulation.SelfLoopAccepted | examples/tsp/src/tsp.cpp:44-90 | on two nodes the selection 0->1, 1->0, 1->1 satisfies every degree row, is not a permutation matrix, and decomposes into the single path 0->1->1, so the callback adds no cut |
| Formulation.BuildModel | examples/tsp/src/tsp.cpp:130-161 | the rows are added in source order: one scenario row per cost vector, then the in-degree rows, then the out-degree rows |
| Formulation.OutRowsHaveOut | examples/tsp/src/tsp.cpp:152-161 | a 0/1 point satisfying every out-degree row gives each node a selected outgoing arc, the precondition of the callback's successor loop |
| Formulation.RowsAtPoint | examples/tsp/src/tsp.cpp:130-161 | at the point (sol, z) the k-th row holds exactly when z is at least scenario k's cost, and the in- and out-degree rows hold exactly when they hold at the 0/1 point of sol |
| Formulation.ModelRowsMeaning | examples/tsp/src/tsp.cpp:130-161 | with no diagonal arc selected, (sol, z) satisfies every row of the model exactly when sol is a permutation matrix and z is at least the cost of sol in every scenario |
| Formulation.Flatten | examples/tsp/src/tsp.cpp:181-185 | the flat vector has length n, holds arc (i, j)'s value at `dmap[i][j]`, and is 0 at every index past nr * nr |
| Formulation.FlatAt | examples/tsp/src/tsp.cpp:184 | arc (i, j)'s value sits at its flat index |
| Formulation.FlatRoundTrip | examples/tsp/src/tsp.cpp:181-185 | reading the flat vector back through the index map gives the matrix of arc values again |

## Left out

- The CPLEX machinery is not modelled: `IloEnv`, `IloModel`, variable creation, `IloMinimize`, `IloCplex::solve`, `setOut`, `setParam(Threads, 1)`, `getNnodes`, `getObjValue`, `env.end()` and the registration of the callback. These are foreign solver calls. The solver is only a source of arc values (the parameters `vals`) and a sink for rows and cuts (the returned sequences).
- The domains of the variables (`x` binary, `z` in [0, +infinity)) are not modelled. The row lemmas are stated at 0/1 points instead through `Indicator`.
- `nr_nodes = sqrt(n)` truncates a floating-point square root, so it is not computed. `nr` is an input, and `Flatten` requires `nr * nr <= n`, which the truncated root guarantees.
- Floating-point arithmetic is modelled with `real`. Costs and arc values carry no rounding, and the threshold test `> 0.5` is exact.
- The number of scenarios `K = get_num_scenarios()` is taken to be the number of cost vectors `|c|`.
- Cycles.OnePathIsTour: proves that an accepted candidate is a tour only under a permutation matrix, which at a point of the degree rows means no diagonal arc is selected. The degree rows leave `x[i][i]` free, and `Formulation.SelfLoopAccepted` shows the callback accepting `[[false, true], [true, true]]` through the single path 0 -> 1 -> 1. The flattened solution vector then has two arcs out of node 1. For every accepted candidate the model proves only `Formulation.OnePathHamiltonian`: the arcs between distinct nodes form a Hamiltonian cycle.
- Callback.NextNode: requires a selected arc out of `current`. Without one, the source reads the uninitialised `next`, which is undefined behaviour, so this case is excluded rather than modelled. `Callback.LazyCallback` requires, in the same way, that some value in every row exceeds 0.5.
- Callback.EmitCuts: requires every path to be non-empty. For an empty path, `p->size() - 1` would wrap around as an unsigned value, and that bound is not modelled. `Decompose` never produces an empty path.
- Formulation.Flatten: takes the arc values as a matrix of reals. A failing `cplex.getValue` would throw out of `solve_ip`, which the model does not represent.
- `TSP::solve_regret` is not modelled: it is an empty stub returning a default solution.
- `src/hiro.h` and `examples/tsp/src/tsp.h` hold declarations only and are not part of this model. The mismatch between the parameterless `TSP::solve_ip()` and its declarations is build glue, not behaviour.
- The returned `HIROsolution` (`set_nodes`, `set_upper_bound`, `set_solution`) is not modelled. `Flatten` returns the vector that `set_solution` receives.
