# Algorithm visualiser: verified step-trace generators

This project models the two trace generators behind an algorithm visualiser, in Dafny, and proves what their traces promise.

- **`SortingAlgorithms`** runs bubble, selection, insertion, merge or quick (Lomuto) sort on a working copy of an integer array.
  - Each time the picture should change, it appends a `SortingStep` to its `steps` list.
  - A step holds the array as it stands, plus the index lists `comparing`, `sorted` and `current`.
- **`PathfindingAlgorithms`** runs BFS, DFS or unit-weight Dijkstra on a fresh `rows × cols` grid built from a wall list.
  - Each time a cell is visited, it appends a `PathfindingStep` with the grid, the visit list and the cell.
  - When the goal is reached, it adds one last step that carries the path rebuilt from the parent links.

Both classes keep their step list in a field that each run resets and appends to. The model keeps that shape.

- `Sorting.SortingAlgorithms` (sorting.dfy) is a class.
  - Its `steps` field is a `seq<SortingStep>`.
  - Every sort works in place on an `array<int>` copy of the input, with the source's loops.
  - Merge sort and quick sort recurse, threading the shared `sorted` list through each call.
- `Pathfinding.PathfindingAlgorithms` (pathfinding.dfy) is a class with `rows`, `cols` and `steps`.
  - The grid is a `seq<seq<Cell>>` value that the search loops replace cell by cell.
  - The queue, the stack, the unvisited list and the visit list are `seq<Pos>` local variables.

Each method is proved against specification predicates, and the properties are proved about those predicates:

| module | file | what it specifies |
|---|---|---|
| `SortSpec` | sort_spec.dfy | ascending order, the two-cursor merge `MergeSeq`, index ranges, per-sort loop invariants (`Bubbled`, `SelectedUpTo`, `Partitioned`, `PivotPlaced`) |
| `SortTrace` | sort_trace.dfy | a well-formed sorting trace, and `Complete`: every step well formed, `sorted` only grows, the last step holds the input sorted with every index named once |
| `GridModel` | grid.dfy | cells, the neighbour order up/down/left/right, the stable sort by distance |
| `PathSpec` | path_spec.dfy | snapshots, walks and reachability, the parent forest, `SearchTrace` (what a finished search trace is) and `ShortestTrace` |
| `BfsSpec`, `DfsSpec`, `DijkstraSpec` | bfs_spec.dfy, dfs_spec.dfy, dijkstra_spec.dfy | the loop invariant of each search and one lemma per loop round |
| `BfsLayers` | bfs_layers.dfy | a ghost depth map showing the BFS queue is layered, so the BFS path is shortest |
| `DijkstraOrder` | dijkstra_order.dfy | distances stay consistent with the visit order, so extracted distances never decrease and the Dijkstra path is shortest |

`Util` (util.dfy) holds `Option`, `NoDup`, `Last` and `IndexOf`.

How the JavaScript semantics are rendered:

- **Integers.** Values are mathematical integers; JavaScript numbers are floating point.
- **Distance.** `Infinity` is the datatype value `Inf`, and finite distances are `Fin(n)`.
- **Parents.** A parent link is an optional position, not an object reference.
- **Dijkstra's choice of cell.** `unvisited.sort((a, b) => a.distance - b.distance)` becomes a stable insertion sort by distance with `Inf` last.
  - Array sort is stable (ECMAScript 2023, section 23.1.3.30).
  - `Infinity - Infinity` is NaN, which the sort treats as "equal".
- **Edge cases** are reproduced exactly:
  - bubble sort of `[]` gives one step with `sorted = [0]`;
  - selection sort of `[]` gives one step with `sorted = [-1]`;
  - insertion sort of `[]` gives one step with `sorted = [0]`;
  - merge sort of zero or one element gives no steps;
  - quick sort of `[]` gives no steps.

### BFS and Dijkstra can return different shortest paths

On a grid without walls the two searches can record different paths of the same length. Follow the code by hand on a 3 × 3 grid from (0,0) to (2,2):

- BFS records (0,0),(1,0),(2,0),(2,1),(2,2). "Down" is tried before "right", so (1,0) is enqueued first.
- Dijkstra records (0,0),(0,1),(0,2),(1,2),(2,2). Its unvisited list starts in row-major order, and the stable sort keeps (0,1) ahead of (1,0).

The model follows the code. For both searches it proves that the path is a walk of minimal length (`ShortestTrace`). It does not fix which of the shortest paths is chosen.

## Model

| member | source | states |
|---|---|---|
| Sorting.CopyOf | frontend/src/utils/sortingAlgorithms.ts:23 | the working array is a fresh array holding exactly the input, so the caller's array is never touched |
| Sorting.Swap | frontend/src/utils/sortingAlgorithms.ts:32 | the destructuring swap exchanges exactly positions i and j and keeps the multiset of values |
| Sorting.SortingAlgorithms.constructor | frontend/src/utils/sortingAlgorithms.ts:10 | a new generator has an empty step list |
| Sorting.SortingAlgorithms.AddStep | frontend/src/utils/sortingAlgorithms.ts:12-19 | appends one snapshot of copies of the array and the three index lists; a snapshot whose lists are in range keeps the trace well formed with `sorted` grown |
| Sorting.SortingAlgorithms.BubbleSort | frontend/src/utils/sortingAlgorithms.ts:21-43 | for a non-empty input the trace is complete and ends with `sorted` = 0..n-1; for the empty input it is the single step with `sorted = [0]` |
| Sorting.SortingAlgorithms.BubbleRound | frontend/src/utils/sortingAlgorithms.ts:27-37 | after outer pass i, the last i+1 positions hold the largest values in order, values are permuted only, and `sorted` is n-i-1..n-1 |
| Sorting.SortingAlgorithms.BubblePass | frontend/src/utils/sortingAlgorithms.ts:28-35 | one inner pass carries the largest of the unsorted prefix to its end, permuting values only |
| Sorting.SortingAlgorithms.BubbleCompare | frontend/src/utils/sortingAlgorithms.ts:29-34 | the pair j, j+1 is swapped exactly when it is out of order (strict `>`) |
| Sorting.SortingAlgorithms.SelectionSort | frontend/src/utils/sortingAlgorithms.ts:45-76 | for a non-empty input the trace is complete and ends with `sorted` = 0..n-1; for the empty input it is the single step with `sorted = [-1]` |
| Sorting.SortingAlgorithms.SelectRound | frontend/src/utils/sortingAlgorithms.ts:51-70 | after outer iteration i, the first i+1 positions are final (each at most every later value), values are permuted only, `sorted` is 0..i |
| Sorting.SortingAlgorithms.SelectScan | frontend/src/utils/sortingAlgorithms.ts:52-62 | `minIdx` is the first position of a minimum of arr[i..] (strict `<`) |
| Sorting.SortingAlgorithms.InsertionSort | frontend/src/utils/sortingAlgorithms.ts:78-105 | for a non-empty input the trace is complete and ends with `sorted` = 0..n-1; for the empty input it is the single step with `sorted = [0]` |
| Sorting.SortingAlgorithms.InsertRound | frontend/src/utils/sortingAlgorithms.ts:86-102 | after outer index i, arr[0..i] is ascending and a permutation of what arr[0..i] held before, arr[i+1..] is untouched, and `sorted` is 0..i |
| Sorting.SortingAlgorithms.Insert | frontend/src/utils/sortingAlgorithms.ts:87-99 | the key moves to the position after the last value not above it, and the values it passes shift right by one |
| Sorting.SortingAlgorithms.ShiftRun | frontend/src/utils/sortingAlgorithms.ts:92-97 | the inner loop stops at the first value from the right that is not greater than the key, having shifted every greater value one place right |
| Sorting.SortingAlgorithms.Shift | frontend/src/utils/sortingAlgorithms.ts:93-95 | one shift copies arr[j] into arr[j+1] and changes nothing else |
| Sorting.SortingAlgorithms.MergeSort | frontend/src/utils/sortingAlgorithms.ts:107-112 | for two or more elements the trace is complete; for zero or one element there are no steps |
| Sorting.SortingAlgorithms.MergeSortHelper | frontend/src/utils/sortingAlgorithms.ts:114-122 | arr[left..right] ends ascending and permuted, everything outside is unchanged, and `sorted` gains exactly left..right when left < right |
| Sorting.SortingAlgorithms.SortHalves | frontend/src/utils/sortingAlgorithms.ts:116-119 | the two recursive calls leave both halves ascending, permute values only and touch nothing outside [left, right] |
| Sorting.SortingAlgorithms.Merge | frontend/src/utils/sortingAlgorithms.ts:124-162 | arr[left..right] becomes the two-cursor merge of the old halves (ties from the left), the rest is unchanged, and `sorted` gains exactly the missing indices of [left, right] |
| Sorting.SortingAlgorithms.MergeRuns | frontend/src/utils/sortingAlgorithms.ts:125-156 | the three copy loops write exactly the merge of the two runs into arr[left..right], nothing else |
| Sorting.SortingAlgorithms.MergeHeads | frontend/src/utils/sortingAlgorithms.ts:130-142 | the head-comparison loop writes a prefix of the merge and stops when one run is exhausted, the rest of the merge being the merge of the remainders |
| Sorting.SortingAlgorithms.MergeStep | frontend/src/utils/sortingAlgorithms.ts:131-141 | one comparison takes the left head when it is `<=` the right head, otherwise the right head, extending the merged prefix |
| Sorting.SortingAlgorithms.CopyRest | frontend/src/utils/sortingAlgorithms.ts:144-156 | a tail loop copies the rest of one run, completing the merged prefix |
| Sorting.SortingAlgorithms.Put | frontend/src/utils/sortingAlgorithms.ts:134 | one write extends the merged prefix by its next value |
| Sorting.SortingAlgorithms.IncludeRange | frontend/src/utils/sortingAlgorithms.ts:158-160 | `sorted` gains, in increasing order, exactly the indices of [left, right] it did not already hold |
| Sorting.SortingAlgorithms.QuickSort | frontend/src/utils/sortingAlgorithms.ts:164-169 | for a non-empty input the trace is complete; for the empty input there are no steps |
| Sorting.SortingAlgorithms.QuickSortHelper | frontend/src/utils/sortingAlgorithms.ts:171-182 | arr[low..high] ends ascending and permuted, the rest unchanged; `sorted` gains exactly low..high, each once |
| Sorting.SortingAlgorithms.QuickSides | frontend/src/utils/sortingAlgorithms.ts:173-177 | after the pivot is placed, the two recursive calls sort each side in place and leave the pivot where it is |
| Sorting.SortingAlgorithms.MarkSingle | frontend/src/utils/sortingAlgorithms.ts:178-181 | a one-element range adds its index to `sorted` with one step; the "not yet in `sorted`" guard always holds at the call |
| Sorting.SortingAlgorithms.Partition | frontend/src/utils/sortingAlgorithms.ts:184-204 | returns p in [low, high] holding the old arr[high]; values before p are below it, values after are not; values permuted only, the rest unchanged |
| Sorting.SortingAlgorithms.PartitionScan | frontend/src/utils/sortingAlgorithms.ts:185-198 | the scan leaves a block of values below the pivot followed by a block of values not below it |
| Sorting.SortingAlgorithms.PartitionCompare | frontend/src/utils/sortingAlgorithms.ts:191-197 | a value below the pivot is swapped to the end of the low block; any other value stays |
| Sorting.SortingAlgorithms.PlacePivot | frontend/src/utils/sortingAlgorithms.ts:200-203 | swapping the pivot to i+1 puts it between the two blocks |
| Sorting.SortingAlgorithms.GetSteps | frontend/src/utils/sortingAlgorithms.ts:206-221 | every algorithm gives a complete trace for two or more elements, and all but merge for one; the empty-input traces are as listed above |
| SortTrace.BuiltOkMeans | frontend/src/utils/sortingAlgorithms.ts:12-19 | a trace built one valid snapshot at a time is well formed everywhere, and every later `sorted` list contains every earlier one |
| SortTrace.FinishedInOrder | frontend/src/utils/sortingAlgorithms.ts:36-41 | a trace ending with `sorted` = 0..n-1 and the array ascending and permuted is complete |
| SortSpec.MergePermutes | frontend/src/utils/sortingAlgorithms.ts:130-156 | the merge of two runs is a permutation of their concatenation |
| SortSpec.MergeSorted | frontend/src/utils/sortingAlgorithms.ts:130-156 | the merge of two ascending runs is ascending |
| SortSpec.BubbledSorted | frontend/src/utils/sortingAlgorithms.ts:27-38 | an array whose suffix from position 1 is bubbled is ascending |
| SortSpec.SelectSwap | frontend/src/utils/sortingAlgorithms.ts:64-69 | swapping the first minimum of arr[i..] into position i extends the final prefix by one |
| SortSpec.InsertedPermutes | frontend/src/utils/sortingAlgorithms.ts:92-99 | inserting the key rearranges values without changing their multiset |
| SortSpec.InsertedPrefix | frontend/src/utils/sortingAlgorithms.ts:92-99 | inserting the key only rearranges arr[0..i] among itself |
| SortSpec.PrefixPermutedStep | frontend/src/utils/sortingAlgorithms.ts:86-102 | after each outer round, arr[0..i] holds the first i+1 input values in some order and the rest of the input is untouched |
| SortSpec.InsertedSorted | frontend/src/utils/sortingAlgorithms.ts:92-99 | inserting the key after the last value not above it into an ascending prefix gives an ascending prefix one longer |
| SortSpec.PartitionPlace | frontend/src/utils/sortingAlgorithms.ts:200-203 | the final swap places the pivot between the blocks and only permutes values inside [low, high] |
| SortSpec.SortedAroundPivot | frontend/src/utils/sortingAlgorithms.ts:173-177 | two ascending sides around a placed pivot form an ascending range |
| SortSpec.QuickCombine | frontend/src/utils/sortingAlgorithms.ts:171-182 | a partition followed by sorting both sides in place leaves [low, high] ascending, the values those held at the start, and nothing outside the range moved |
| Pathfinding.PathfindingAlgorithms.constructor | frontend/src/utils/pathfindingAlgorithms.ts:23-26 | a new generator has the given dimensions and an empty step list |
| Pathfinding.PathfindingAlgorithms.MarkPath | frontend/src/utils/pathfindingAlgorithms.ts:35-42 | the copied grid has `isPath` true exactly on the cells of the path, every other field unchanged |
| Pathfinding.PathfindingAlgorithms.AddStep | frontend/src/utils/pathfindingAlgorithms.ts:28-50 | appends exactly one snapshot: the grid with the path marked, plus copies of the three lists |
| Pathfinding.PathfindingAlgorithms.CreateGrid | frontend/src/utils/pathfindingAlgorithms.ts:52-68 | a rows × cols grid whose cell (r, c) has row r and column c, is a wall exactly when (r, c) is in the wall list, is unvisited, unmarked, unreached and has no parent |
| Pathfinding.PathfindingAlgorithms.GetNeighbors | frontend/src/utils/pathfindingAlgorithms.ts:70-92 | exactly the in-bounds non-wall cells at distance one, in the order up, down, left, right, without repeats (so at most four) |
| Pathfinding.PathfindingAlgorithms.ReconstructPath | frontend/src/utils/pathfindingAlgorithms.ts:94-104 | following the parent links from a visited cell ends, and gives a walk from the start to that cell with no repeated position, every cell visited |
| Pathfinding.PathfindingAlgorithms.Dijkstra | frontend/src/utils/pathfindingAlgorithms.ts:106-157 | the trace is a search trace (goal visited exactly when reachable, then a path snapshot); its path is shortest; in every snapshot the distances of visited cells never decrease along the visit order |
| Pathfinding.PathfindingAlgorithms.InitDijkstra | frontend/src/utils/pathfindingAlgorithms.ts:111-124 | start at distance 0, every other cell unreached, the unvisited list holds every cell once, one empty snapshot |
| Pathfinding.PathfindingAlgorithms.AllPositions | frontend/src/utils/pathfindingAlgorithms.ts:118-122 | the unvisited list holds every in-bounds position exactly once, in row-major order |
| Pathfinding.PathfindingAlgorithms.RelaxNeighbors | frontend/src/utils/pathfindingAlgorithms.ts:144-153 | each neighbour that is unvisited and strictly improved by distance+1 takes that distance and the current cell as parent; nothing else changes |
| Pathfinding.PathfindingAlgorithms.DijkstraFinish | frontend/src/utils/pathfindingAlgorithms.ts:138-141 | reaching the goal closes a search trace whose path is shortest |
| Pathfinding.PathfindingAlgorithms.Bfs | frontend/src/utils/pathfindingAlgorithms.ts:159-195 | the trace is a search trace and its path, when the goal is reached, is shortest |
| Pathfinding.PathfindingAlgorithms.InitBfs | frontend/src/utils/pathfindingAlgorithms.ts:164-170 | the start is marked and queued, one empty snapshot, the queue at depth 0 |
| Pathfinding.PathfindingAlgorithms.BfsFinish | frontend/src/utils/pathfindingAlgorithms.ts:178-181 | reaching the goal closes a search trace whose path is shortest |
| Pathfinding.PathfindingAlgorithms.EnqueueNeighbors | frontend/src/utils/pathfindingAlgorithms.ts:184-191 | each unmarked neighbour is marked, linked to the current cell and queued in neighbour order; marked ones are left alone |
| Pathfinding.PathfindingAlgorithms.Dfs | frontend/src/utils/pathfindingAlgorithms.ts:197-235 | the trace is a search trace: goal visited exactly when reachable, path a walk without repeats |
| Pathfinding.PathfindingAlgorithms.InitDfs | frontend/src/utils/pathfindingAlgorithms.ts:202-207 | the stack holds only the start, one empty snapshot |
| Pathfinding.PathfindingAlgorithms.PushNeighbors | frontend/src/utils/pathfindingAlgorithms.ts:225-231 | each unvisited neighbour is (re)linked to the current cell and pushed in neighbour order; visited ones are left alone |
| Pathfinding.PathfindingAlgorithms.GetSteps | frontend/src/utils/pathfindingAlgorithms.ts:237-253 | every algorithm name gives a search trace; every name but `dfs` gives a shortest path, and `dijkstra` gives nondecreasing extraction |
| GridModel.SetCell | frontend/src/utils/pathfindingAlgorithms.ts:117 | writing one cell changes that cell only |
| GridModel.NeighborsExact | frontend/src/utils/pathfindingAlgorithms.ts:72-89 | the neighbour list holds exactly the open adjacent cells, in strictly increasing direction order, without repeats, at most four |
| GridModel.AllCellsExact | frontend/src/utils/pathfindingAlgorithms.ts:118-122 | the row-major list of positions holds every in-bounds position exactly once |
| GridModel.SortByDistanceCorrect | frontend/src/utils/pathfindingAlgorithms.ts:128 | the sort by distance orders by distance with unreached last and keeps the previous order among equal distances |
| PathSpec.ChainIsWalk | frontend/src/utils/pathfindingAlgorithms.ts:94-104 | a parent chain of visited cells from a root is a walk from the start with no repeated position |
| PathSpec.ChainExtend | frontend/src/utils/pathfindingAlgorithms.ts:98-101 | prepending the cell being followed keeps the partial chain linked by parents |
| PathSpec.ParentEarlier | frontend/src/utils/pathfindingAlgorithms.ts:100 | the parent of a visited cell was visited strictly earlier, so following parents terminates |
| PathSpec.FoundTrace | frontend/src/utils/pathfindingAlgorithms.ts:138-141 | the path snapshot after the goal visit completes a search trace whose last grid has `isPath` exactly on the path |
| PathSpec.ExhaustedTrace | frontend/src/utils/pathfindingAlgorithms.ts:172 | a search whose visited set is closed under moves and misses the goal proves the goal unreachable |
| PathSpec.ClosedUnreachable | frontend/src/utils/pathfindingAlgorithms.ts:209 | no walk leaves a set closed under moves, so a goal outside it is unreachable |
| PathSpec.ShortestSnoc | frontend/src/utils/pathfindingAlgorithms.ts:140 | recording a shortest path as the final snapshot makes the trace's path shortest |
| BfsSpec.BfsStart | frontend/src/utils/pathfindingAlgorithms.ts:167-170 | marking the start and taking the first snapshot establishes the BFS loop invariant |
| BfsSpec.BfsVisit | frontend/src/utils/pathfindingAlgorithms.ts:173-176 | a dequeued cell is new to the visit list, and its snapshot extends the visit trace |
| BfsSpec.BfsAdvance | frontend/src/utils/pathfindingAlgorithms.ts:172-191 | one round keeps the BFS invariant and decreases the unmarked-cell count, or else the queue length |
| BfsSpec.BfsExit | frontend/src/utils/pathfindingAlgorithms.ts:172 | an empty queue ends a search trace with the goal unreachable |
| BfsLayers.BfsStep | frontend/src/utils/pathfindingAlgorithms.ts:172-191 | one round also keeps the queue layered by depth (nondecreasing, spanning at most two layers) |
| BfsLayers.LayeredShortest | frontend/src/utils/pathfindingAlgorithms.ts:178-181 | when the goal is dequeued, the parent path to it is no longer than any walk from the start |
| DfsSpec.DfsStart | frontend/src/utils/pathfindingAlgorithms.ts:205-207 | the start on the stack and the first snapshot establish the DFS loop invariant |
| DfsSpec.DfsSkip | frontend/src/utils/pathfindingAlgorithms.ts:210-212 | popping an already visited cell keeps the invariant |
| DfsSpec.DfsVisit | frontend/src/utils/pathfindingAlgorithms.ts:214-217 | a popped unvisited cell is new to the visit list, and its snapshot extends the visit trace |
| DfsSpec.DfsAdvance | frontend/src/utils/pathfindingAlgorithms.ts:209-231 | one visiting round keeps the DFS invariant and leaves fewer unvisited cells |
| DfsSpec.DfsExit | frontend/src/utils/pathfindingAlgorithms.ts:209 | an empty stack ends a search trace with the goal unreachable |
| DijkstraSpec.DijkstraStart | frontend/src/utils/pathfindingAlgorithms.ts:117-124 | seeding the start at distance 0 and taking the first snapshot establishes the Dijkstra loop invariant |
| DijkstraSpec.DijkstraSort | frontend/src/utils/pathfindingAlgorithms.ts:128 | re-sorting the unvisited list keeps the invariant and orders it by distance |
| DijkstraSpec.DijkstraStuck | frontend/src/utils/pathfindingAlgorithms.ts:131 | an unreached head means every unvisited cell is unreached, so the goal is unreachable and the trace is finished |
| DijkstraSpec.DijkstraExit | frontend/src/utils/pathfindingAlgorithms.ts:126 | an empty unvisited list ends a search trace |
| DijkstraSpec.DijkstraVisit | frontend/src/utils/pathfindingAlgorithms.ts:133-136 | the extracted cell is new to the visit list, and its snapshot extends the visit trace |
| DijkstraSpec.DijkstraAdvance | frontend/src/utils/pathfindingAlgorithms.ts:129-153 | one extraction and relaxation round keeps the Dijkstra invariant on the rest of the list |
| DijkstraOrder.HeadLeast | frontend/src/utils/pathfindingAlgorithms.ts:128-129 | the head of the sorted unvisited list has a distance no greater than any unvisited cell's |
| DijkstraOrder.ExtractedVisit | frontend/src/utils/pathfindingAlgorithms.ts:133-134 | visiting the least unvisited cell keeps the visited distances nondecreasing in visit order |
| DijkstraOrder.OrderedRelax | frontend/src/utils/pathfindingAlgorithms.ts:144-153 | after relaxation, visited distances are at most unvisited ones, each parent is one closer, and no neighbour is more than one further |
| DijkstraOrder.DijkstraStep | frontend/src/utils/pathfindingAlgorithms.ts:126-153 | one round keeps the loop invariant, the distance ordering, and nondecreasing extraction in every snapshot |
| DijkstraOrder.DijkstraShortest | frontend/src/utils/pathfindingAlgorithms.ts:138-141 | when the goal is extracted, the parent path to it is no longer than any walk from the start |

## Left out

- The visualiser's pages and canvases are not part of this model. They hold React state, timed playback, random inputs and rendering.
- Array values are integers, not floating-point numbers. NaN, infinities and fractions among the values are not modelled.
- Parent links are positions, not shared cell objects. Snapshots sharing `parent` references is not modelled.
- The constructor has no default dimensions, and rows and cols are natural numbers. The defaults (20 × 30) and negative or fractional dimensions are not modelled.
- Dijkstra's cost of re-sorting every round is not modelled; only the resulting order is.
- Pathfinding.PathfindingAlgorithms.Bfs: requires the start to be on the grid. Otherwise the source fails while indexing the grid. The same holds for Dfs, Dijkstra and GetSteps.
- Pathfinding.PathfindingAlgorithms.ReconstructPath: requires the parent links to form a forest over the visited cells. Every search establishes this. On a cyclic chain the source would not terminate.
- Pathfinding.PathfindingAlgorithms.GetSteps: does not say that an unknown name gives the same trace as `bfs`, only that it gives a trace with the same properties. The methods have no functional definitions to compare.
- Sorting.SortingAlgorithms.GetSteps: does not say that an unknown name gives the same trace as `bubble`, only that its empty-input trace and its completeness agree with bubble sort.
- Determinism (identical inputs give identical traces) is not stated. Each run starts from an empty step list and a fresh grid, but there is no functional definition of a trace to compare two runs with.
- Pathfinding.PathfindingAlgorithms.Dfs: does not claim a shortest path; DFS does not give one. A cell pushed twice takes the later cell as its parent, exactly as in the source.
