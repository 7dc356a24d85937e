# PatrolGRAPH in Dafny

A model of the PatrolGRAPH planner (`src/PatrolGRAPH.cpp`). The planner computes a
patrol route over an occupancy grid. It reads a grid of 0 (free) / non-zero
(blocked) values. It lays one node per cell out in row-major order, and builds the
8-connected adjacency matrix over the free cells. Dividing each adjacency row by the
node's degree gives the probability transition matrix (PTM). Then, step by step, it
moves to a 4-connected free neighbour. The neighbour chosen is the one whose
observed share of traversals is closest to the transition probability.

The model is split into four modules:

- `Sums` (`sums.dfy`): sums over sequences, the `std::accumulate` of the source, and
  ascending sequences.
- `Grid` (`grid.dfy`): row-major index arithmetic; the adjacency matrix as a
  specification function `EdgeMatrix` and its properties; the lemmas that carry the
  construction loop; and how a loaded file's row and column counts come out.
- `Transition` (`transition.dfy`): the rows of the PTM and their properties.
- `Patrol` (`patrol_graph.dfy`): the class `PatrolGraph`. Its fields are the
  planner's members: vectors become `seq` fields that the methods reassign.
  - Its methods follow the source's loops. Each is proved against a
    specification: `EdgeMatrix`, `ProbabilityMatrix`, `LaidOut`, `InitialFlags`,
    and the best-neighbour list `IsBestList`.
  - The invariant `Valid()` ties the fields together once the grid is loaded.
    `InitGraph` establishes it, and `IncrCount` and `FindNext` keep it.

Three helpers have no counterpart in the source:

- `rand()` becomes the parameter `r` of `FindNext`.
- The state of the file stream becomes the parameters of `LoadMatrixFile`:
  - `isOpen`;
  - `values`, the integers read;
  - `newlineAfter`, whether a line break follows each one.
- The initial `deltaP_best` of `std::numeric_limits<double>::max()` becomes a flag,
  `haveBest`.

The model follows the code as written where it departs from the planner's intended
design, in two places:

- **`incrCount` clears `unvisited.at(currType)`**. The flag cleared is slot 0
  (`false` converted to an index), not the visited node's flag. `IncrCount` models
  this as written. `CompletionUnreachable` proves the consequence: once any node
  other than node 0 is flagged unvisited, no run of visits brings the count to zero.
- **A never-visited neighbour (visit count 0) is skipped**. The comment at
  `src/PatrolGRAPH.cpp:214` describes looking for the neighbour with the smallest
  number of visits. At line 243, however, the ratio for such a neighbour divides by
  zero. The model reads `abs` there as the floating-point overload. Under that
  reading, `deltaP` is an IEEE-754 infinity or NaN, which fails the `<=` test against
  `deltaP_best`, so the neighbour is never chosen. (`deltaP_best` is always finite: it
  starts at the largest `double` and only takes values that passed the test.)
  In the model, `Candidate` requires a positive visit count. Had `abs` bound to the
  `int` overload instead, converting infinity or NaN to `int` would be undefined
  behaviour; this reading is not modelled.
  - A consequence: right after `initGraph` on a fresh planner, every visit count is 0
    (`FreshHasNoCandidate`). So the first `findNext` finds no candidate, and the
    assertion at line 264 fails, unless `incrCount` has first counted a neighbour of
    the current node. `FindNext` therefore requires, for a patrol not yet complete,
    that a candidate exists.

## Model

| member | source | states |
|---|---|---|
| Patrol.PatrolGraph.constructor | src/PatrolGRAPH.cpp:28-33 | grid sizes 0, current node STARTNODE = 5, unvisited count INT_MAX, all vectors empty |
| Patrol.PatrolGraph.LoadMatrixFile | src/PatrolGRAPH.cpp:40-58 | an open file appends every value read to the occupancy vector, sets rows to the number of values followed by a line break and columns to the vector size divided by rows; a file that is not open changes nothing |
| Grid.RectangularFileShape | src/PatrolGRAPH.cpp:45-53 | a rectangular file whose rows each end in a line break is read back as a grid with one row per file row and one column per value in a row |
| Patrol.PatrolGraph.InitGraph | src/PatrolGRAPH.cpp:61-86 | establishes the invariant `Valid()` (nodes at their row-major cells, graph, PTM and counters derived from the grid, unvisited count equal to the sum of the flags); nodes equal `LaidOut`, flags equal `InitialFlags`; on a fresh planner the count is the number of free cells; traversal counters are zero; current node, chosen edge and path are left alone |
| Patrol.PatrolGraph.SetUpNodes | src/PatrolGRAPH.cpp:68-82 | after the resizes and the layout loop, nodes equal `LaidOut` of the old nodes, flags equal `InitialFlags` of the old flags, and the count is their sum (the number of free cells on a fresh planner) |
| Patrol.PatrolGraph.LayOutNodes | src/PatrolGRAPH.cpp:72-81 | every node k gets row k / columns, column k mod columns and occupancy accessVec[k], keeping its visit count; its flag is set to 1 when the cell is free and kept otherwise |
| Patrol.FreshFlagsCount | src/PatrolGRAPH.cpp:69-82 | on a fresh planner the flags are 1 exactly on the free cells, so their sum is the number of free cells |
| Patrol.PatrolGraph.CreateEdgeMat | src/PatrolGRAPH.cpp:89-142 | the graph equals `EdgeMatrix` of the grid (an edge between exactly the distinct free 8-connected neighbours) and the traversal counters are the zero matrix |
| Patrol.PatrolGraph.ConnectCell | src/PatrolGRAPH.cpp:117-137 | the shift loops for free cell i write exactly the edges of cell i, completing cell i |
| Patrol.PatrolGraph.ConnectOffset | src/PatrolGRAPH.cpp:122-135 | at each offset the edge to an in-grid free neighbour other than the cell itself is written in both directions; any other offset writes nothing |
| Grid.EdgeMatrixProperties | src/PatrolGRAPH.cpp:116-139 | the adjacency matrix is 0/1 and symmetric, rows and columns of blocked cells are zero, an edge joins two distinct near cells, and every pair of distinct free near cells is joined |
| Patrol.PatrolGraph.ComputeProbabilityMat | src/PatrolGRAPH.cpp:144-164 | the PTM equals `ProbabilityMatrix` of the graph |
| Transition.ProbabilityRow | src/PatrolGRAPH.cpp:156-161 | a row with no edge stays all zero |
| Transition.RowStochastic | src/PatrolGRAPH.cpp:157-160 | a PTM row with at least one edge sums to exactly 1 |
| Transition.PositiveIffEdge | src/PatrolGRAPH.cpp:157-160 | a PTM entry of a 0/1 row is positive exactly where there is an edge |
| Transition.EntriesAreProbabilities | src/PatrolGRAPH.cpp:157-160 | every PTM entry of a 0/1 row lies in [0, 1] |
| Patrol.PatrolGraph.TransitionRow | src/PatrolGRAPH.cpp:144-164 | under the invariant, each PTM row with an edge sums to 1, its entries lie in [0, 1] and are positive exactly on the node's edges |
| Patrol.PatrolGraph.IncrCount | src/PatrolGRAPH.cpp:178-192 | the visit count of the node and the traversal count of the edge go up by one; a first visit clears flag 0 and recounts; the invariant is kept, the count drops by the flag cleared, and the node counted is no longer of the first-visit kind |
| Patrol.OnlySlotZeroCleared | src/PatrolGRAPH.cpp:187-188 | no run of incrCount calls changes any flag but slot 0 |
| Patrol.FlagsAfterAppend | src/PatrolGRAPH.cpp:187-191 | the flags after one run of incrCount calls followed by another are the flags after the joined run, so `IncrCount`'s one-call update, applied call by call, gives `FlagsAfter` of the whole run |
| Patrol.CompletionUnreachable | src/PatrolGRAPH.cpp:187-191 | once a node other than node 0 is flagged unvisited, the unvisited count stays at least 1 under any run of incrCount calls |
| Patrol.PatrolGraph.DeltaP | src/PatrolGRAPH.cpp:243-244 | deltaP is not negative, and it is zero exactly when traversals over visits equals the transition probability |
| Patrol.PatrolGraph.BestNeighbours | src/PatrolGRAPH.cpp:219-258 | the scan returns exactly the candidates of least deltaP, in ascending order, and a non-empty list whenever a candidate exists |
| Patrol.PatrolGraph.ScanOffset | src/PatrolGRAPH.cpp:230-256 | one offset of the scan keeps the scan invariant `Scanned` from one offset rank to the next |
| Patrol.PatrolGraph.MeasureCandidate | src/PatrolGRAPH.cpp:243-254 | a candidate's deltaP replaces the list when smaller or first, extends it when equal, and is dropped when larger, keeping `Scanned` |
| Patrol.PatrolGraph.ChooseNext | src/PatrolGRAPH.cpp:260-268 | the node chosen is the entry r mod n of the best list, of length n > 0, so it is a best candidate |
| Patrol.PatrolGraph.FindNext | src/PatrolGRAPH.cpp:211-272 | a completed patrol changes nothing, whatever the current node; otherwise the move goes to entry r mod n of the best list of the node left, which is a best candidate; the chosen edge is (node left, node reached), the path grows by the node reached, and the invariant is kept |
| Patrol.PatrolGraph.FreshHasNoCandidate | src/PatrolGRAPH.cpp:68-75 | after a fresh initialisation every visit count is 0, so no node has a candidate neighbour and the step rule has nothing to choose from |
| Patrol.PatrolGraph.BestListUnique | src/PatrolGRAPH.cpp:246-252 | there is only one ascending best list, so for a given r the move is determined |
| Patrol.PatrolGraph.MoveFollowsEdge | src/PatrolGRAPH.cpp:233-244 | a move from a free node to a candidate follows an edge of the graph with positive transition probability |
| Patrol.PatrolGraph.GetCurrentType | src/PatrolGRAPH.cpp:274-280 | the current node counts as visited exactly when its visit count is positive |
| Patrol.PatrolGraph.GetCurrentCoord | src/PatrolGRAPH.cpp:282-294 | 'x' gives the row and 'y' the column of the current node in the row-major layout |
| Patrol.PatrolGraph.CoordinatesLocateNode | src/PatrolGRAPH.cpp:282-294 | the coordinates lie in the grid and encode the current node's index |
| Patrol.PatrolGraph.IsCompleted | src/PatrolGRAPH.cpp:298-304 | complete exactly when the unvisited count is 0; `CompletedIffAllVisited` relates this to the flags |
| Patrol.PatrolGraph.CompletedIffAllVisited | src/PatrolGRAPH.cpp:298-304 | under the invariant, the patrol is complete exactly when every unvisited flag is clear |

## Lemmas that carry the loop proofs

These rows are proof steps rather than models of a source operation. Each states
what one pass of a loop above, or one piece of its arithmetic, contributes.

| member | source | states |
|---|---|---|
| Patrol.PatrolGraph.LayOutRow | src/PatrolGRAPH.cpp:73-79 | one pass of the outer loop extends the laid-out prefix from row i to row i + 1 and leaves the cells beyond untouched |
| Patrol.LaidOutStep | src/PatrolGRAPH.cpp:74-77 | laying out cell m extends the laid-out prefix of the grid by that one cell |
| Grid.MatchesStart | src/PatrolGRAPH.cpp:95-97 | the zero matrix matches the construction before any cell is done |
| Grid.MatchesNext | src/PatrolGRAPH.cpp:120-137 | once every offset of cell i is done, cell i is done |
| Grid.MatchesAdd | src/PatrolGRAPH.cpp:130-134 | writing the two entries for the only neighbour at an offset completes that offset of the construction |
| Grid.MatchesSkip | src/PatrolGRAPH.cpp:124-130 | an offset with no free neighbour in the grid adds nothing |
| Grid.MatchesBlocked | src/PatrolGRAPH.cpp:117 | a blocked cell adds no edge |
| Grid.MatchesDone | src/PatrolGRAPH.cpp:116-139 | once every cell is done the matrix built equals `EdgeMatrix` |
| Grid.EdgeHit | src/PatrolGRAPH.cpp:122-133 | an offset whose row and column are in the grid names an index in range other than the cell, at that offset, and the only free neighbour there |
| Grid.EdgeMiss | src/PatrolGRAPH.cpp:122-127 | an offset out of the grid, or the zero offset, names no neighbour |
| Grid.NeighbourAt | src/PatrolGRAPH.cpp:118-124 | the row-major index of an in-grid offset decodes back to that row and column, and it is the only cell of the grid at that offset |
| Grid.CellOfIndex | src/PatrolGRAPH.cpp:74-75 | the cell (i, j) stored at i * columns + j decodes back to row i and column j |
| Grid.IndexOfCell | src/PatrolGRAPH.cpp:118-119 | every index is row * columns + column of its own row and column, the column within the row |
| Grid.IndexOrder | src/PatrolGRAPH.cpp:227-228 | an earlier row, or the same row and an earlier column, is a smaller index |
| Grid.InGrid | src/PatrolGRAPH.cpp:124 | an index is in a rows-by-columns grid exactly when its row is |
| Grid.RankOrder | src/PatrolGRAPH.cpp:227-228 | the order in which the shift loops visit the neighbours is increasing index order |
| Grid.RankBounds | src/PatrolGRAPH.cpp:120-121 | the offset rank of a neighbour lies in the shift loops' range and reverses sign when the cells swap |
| Transition.DividedSum | src/PatrolGRAPH.cpp:159-160 | dividing each entry by the degree divides the row sum by it |
| Sums.SumUpdate | src/PatrolGRAPH.cpp:188-191 | overwriting one flag changes the sum by the difference |
| Patrol.NonNegativeAfter | src/PatrolGRAPH.cpp:187-191 | flags that are not negative stay so under any run of incrCount calls |
| Patrol.PatrolGraph.OffsetHit | src/PatrolGRAPH.cpp:233-238 | an in-grid orthogonal offset names an index in range at that offset, a candidate when free and visited, and the only candidate there |
| Patrol.PatrolGraph.OffsetMiss | src/PatrolGRAPH.cpp:233-236 | any other offset holds no candidate |
| Patrol.PatrolGraph.ScanSkip | src/PatrolGRAPH.cpp:240 | an offset without a candidate leaves the scan unchanged |
| Patrol.PatrolGraph.ScanReplace | src/PatrolGRAPH.cpp:249-253 | a strictly smaller (or first) deltaP makes the list that one candidate |
| Patrol.PatrolGraph.ScanExtend | src/PatrolGRAPH.cpp:247-248 | an equal deltaP appends the candidate and the list stays ascending |
| Patrol.PatrolGraph.ScanKeep | src/PatrolGRAPH.cpp:246 | a larger deltaP leaves the list unchanged |
| Patrol.PatrolGraph.ScanDone | src/PatrolGRAPH.cpp:227-258 | after the last offset the list is the best list, non-empty when a candidate exists |
| Sums.SumZeroIff | src/PatrolGRAPH.cpp:300-303 | a sum of flags that are not negative is zero exactly when every flag is |

## Left out

- Stream I/O is left out: the file stream's state, the integers read and the line break after each become the parameters of `LoadMatrixFile`. The "Error reading file!" message is not modelled. A file with no line break divides by zero in the source; `LoadMatrixFile` requires at least one.
- `srand(time(NULL) xor getpid()<<16)` is left out; `rand()` is the parameter `r`.
- Floating point is modelled as exact arithmetic. `float` positions are `int` row and column values, and `double` probabilities and deltaP are `real`, so rounding and the floating tolerance of row sums are not modelled.
- Patrol.PatrolGraph.DeltaP: it uses the mathematical absolute value. The unqualified `abs` call in the source may resolve to the `int` overload and truncate; this is not modelled.
- Patrol.PatrolGraph.Candidate: a free orthogonal neighbour with visit count 0 is treated as never chosen, following the IEEE comparison on infinity or NaN. The source relies on the floating-point result here.
- 32-bit `int` overflow of the counters and of the index products is not modelled: integers are unbounded.
- `Node`'s default constructor and fields come from a header that is not part of this model; a default node is taken to be all zeros (`DefaultNode`).
- The initial value of `chosenEdge` is indeterminate in the source; the constructor gives it (0, 0), and no contract depends on it.
- The destructor is empty in the source and is not modelled.
- Patrol.PatrolGraph.InitGraph: requires that the cell count equals the number of values loaded. The source asserts this in `createEdgeMat`; a ragged file is not modelled as an error path.
- Patrol.PatrolGraph.FindNext: requires a candidate to exist unless the patrol is complete. The source asserts the best list is non-empty; the failure path is not modelled. Under the IEEE reading of the zero-visit ratio, this excludes the first step from a fresh planner, on which no node has a candidate (`FreshHasNoCandidate`), until `incrCount` has counted a neighbour of the current node. With `STARTNODE` fixed at 5, a planner whose grid has 5 cells or fewer (or that has not been initialised) has its current node outside the grid; a `findNext` that is not complete would then read `edgeCountMat[currentNode]` and `PTM[currentNode]` out of bounds, which is undefined behaviour. The model requires the current node to lie in the grid for a step instead.
- Patrol.PatrolGraph.GetCurrentType: requires the current node to lie in the grid. With `STARTNODE` fixed at 5, on a grid of 5 cells or fewer, or before `initGraph`, `graphNodes.at(currentNode)` throws `std::out_of_range` in the source; the throw is not modelled.
- Patrol.PatrolGraph.GetCurrentCoord: requires 'x' or 'y'. For any other character the source falls off the end of a function that returns a value, which is undefined behaviour; that case is not modelled. It also requires the current node to lie in the grid: where it does not (`STARTNODE` 5 on a grid of 5 cells or fewer, or before `initGraph`), `graphNodes.at(currentNode)` throws `std::out_of_range` in the source; the throw is not modelled.
- Patrol.PatrolGraph.IncrCount: the source's `.at()` range checks throw on a bad index; the model requires valid indices instead.
- The debugging printouts in `createEdgeMat`, `computeProbabilityMat` and `incrCount` are commented out in the source and not modelled.
- `SetUpNodes`, `LayOutNodes`, `LayOutRow`, `ConnectCell`, `ConnectOffset`, `BestNeighbours`, `ScanOffset`, `MeasureCandidate` and `ChooseNext` split the bodies of `initGraph`, `createEdgeMat` and `findNext` into their loops and loop bodies; they introduce no behaviour of their own.
