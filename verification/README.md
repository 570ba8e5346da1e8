# N-Queens on Vert.x: a Dafny model

This project models the core of `marcuzo-nreinas-vertx`, a service that counts the solutions of the N-Queens puzzle. The service spreads the search over Vert.x verticles:

- an orchestrator (`OrquestadorVerticle`);
- a state manager (`StateManagerVerticle`);
- workers (`WorkerVerticle`).

A stand-alone algorithm library (`NQueensAlgorithm`) and a table of constants and small rules (`ApplicationConfig`) sit beside them.

The model follows the Java code file by file.

- `queens.dfy` (module `Queens`): the specification every search is proved against.
  - A placement is a sequence of columns, one per filled row.
  - `Safe` is the conflict check.
  - `Consistent` / `IsSolution`: no two queens attack.
  - `Completions(n, p)`: the full placements below `p`, in the order a depth-first search with columns tried in ascending order finds them.
  - `AllSolutions(n) == Completions(n, [])`.
  - `Placements(n, k, p)`: the same search stopped at depth `k`.
  - `Tries` / `InnerNodes` count the columns a search tries.
  - Lemmas prove the following of `AllSolutions(n)`:
    - it holds exactly the sequences satisfying `IsSolution`;
    - it is in strictly increasing lexicographic order, so it has no duplicates.
- `queens_four.dfy` (module `FourQueens`): the 4×4 board has exactly the solutions `[1,3,0,2]` and `[2,0,3,1]`.
- `config.dfy` (module `Config`): `ApplicationConfig`, covering:
  - the constants;
  - the two range checks;
  - the timeout table;
  - heap sizing, with Java's 32-bit `int` product written out;
  - `Integer.toString`;
  - the address of a worker.
- `java_list.dfy` (module `JavaList`):
  - the `java.util.List` operations the searches use (`add`, `remove`, `size`), as a class over a `seq`;
  - `JsonObject.getInteger(key, default)` over an `Option`.
- `algorithm.dfy` (module `Algorithm`): `NQueensAlgorithm`.
  - `isValidPosition` and `solutionToBoard` are loops proved against `Safe` and a drawing function.
  - The three solvers are classes whose `solveRecursive` methods change the current placement, the solution list, `statesExplored` and, for the optimized solver, the three occupancy arrays in place.
  - Each backtracking solver is proved to report `AllSolutions(N)`.
  - `statesExplored` is a Java `int`: `statesExplored++` wraps past 2^31 - 1 (`Config.Wrap32`), and each contract gives the count as the wrap of the exact number of columns tried. The exact count passes 2^31 - 1 from N = 15 on, within the sizes 1..20 the configuration allows.
  - The distributed solver as written throws NullPointerException (see Findings). `solve` is modelled as written; `SolveCorrected` is the same entry point with the solver fixed.
- `state_store.dfy` (module `StateStore`): `StateManagerVerticle` as a class.
  - Its fields are the row cache (a map from `"row_<r>"` to a set of placements), the solution list and the counter.
  - The five event-bus consumers are methods.
  - A request's reply is the method's result.
- `worker.dfy` (module `Worker`): `WorkerVerticle` as a class whose field `sent` is its outbox: sending a message appends it.
  - The complete search of worker 0 is proved to send one `solution.found` per solution, in order.
  - The row pipeline (`generateInitialStates`, `processNextRow`, `processWorkUnit`) is proved equal to `RowMessages`, a specification function. In the service as written the pipeline never runs: `generateInitialStates` has no caller, and no code sends to the `worker.<id>.process` consumer that would start `processWorkUnit`. The model still states what the pipeline would do. Lemmas about `RowMessages` show:
    - row `j` is published holding exactly the placements of `j + 1` queens;
    - a worker whose range reaches the last row reports exactly `AllSolutions(N)`, in the same order as the complete search;
    - a worker whose range ends earlier reports nothing.
- `coordinator.dfy` (module `Coordinator`): `OrquestadorVerticle`, covering:
  - the request defaults;
  - the row partition, proved contiguous, covering, disjoint and balanced;
  - the ordered completion policy of the monitor and its per-request `checkCount` (a `ProgressMonitor` object);
  - the `deploymentIds` / `workersDeployed` bookkeeping of reset and deployment.
- `run.dfy` (module `Run`): a worker's messages delivered in order to a fresh state manager. Worker 0's complete search, the one search the service actually runs, leaves exactly the board's solutions in the summary. The row pipeline, which nothing in the service starts, would leave the same summary.

Conventions of the model:

- N is a `nat`. The HTTP gateway only forwards sizes from 1 to 20.
- A placement is a `seq<int>`. JSON arrays are represented by the sequences they carry.
- The clock, the event bus and the outcome of each deployment are inputs to the methods that use them.

Bucket `"row_j"` holds placements of `j + 1` queens: `generateInitialStates` stores the one-queen placements under row 0, and `processNextRow(r, …)` stores its children under `r + 1` (`Worker.PipelinePublishesLevels`).

## Model

| member | source | states |
|---|---|---|
| `Config.DefaultsWithinBounds` | src/main/java/cl/marcuzo/nreinas/config/ApplicationConfig.java:34-71 | the default board size and worker count lie within their bounds, and the heap bounds are ordered |
| `Config.IsValidBoardSize` | src/main/java/cl/marcuzo/nreinas/config/ApplicationConfig.java:168-170 | true exactly for sizes 1..20 |
| `Config.IsValidWorkerCount` | src/main/java/cl/marcuzo/nreinas/config/ApplicationConfig.java:178-180 | true exactly for counts 1..10 |
| `Config.CalculateRecommendedTimeout` | src/main/java/cl/marcuzo/nreinas/config/ApplicationConfig.java:188-198 | 60 000 ms exactly up to size 8, 120 000 ms exactly for 9..12, 240 000 ms exactly above; never below the default execution timeout |
| `Config.TimeoutMonotone` | src/main/java/cl/marcuzo/nreinas/config/ApplicationConfig.java:188-198 | a larger board never gets a shorter timeout |
| `Config.Int32Mul` | src/main/java/cl/marcuzo/nreinas/config/ApplicationConfig.java:220 | Java's `int` product: always a 32-bit value, equal to the true product when that fits, and congruent to it modulo 2^32 |
| `Config.Wrap32` | src/main/java/cl/marcuzo/nreinas/algorithm/NQueensAlgorithm.java:244 | the value a Java `int` holds after arithmetic: always in the int range, and the exact value whenever that fits |
| `Config.WrapCongruent` | src/main/java/cl/marcuzo/nreinas/algorithm/NQueensAlgorithm.java:244 | the wrapped value differs from the exact one by a multiple of 2^32 |
| `Config.WrapAdd` | src/main/java/cl/marcuzo/nreinas/algorithm/NQueensAlgorithm.java:243-244 | bumping an `int` counter with `++` step by step ends at the wrapped exact total, so a counted search can be specified by its exact count |
| `Config.GetRecommendedHeapSize` | src/main/java/cl/marcuzo/nreinas/config/ApplicationConfig.java:217-229 | always 256, 512 or 1024 MB, within the heap bounds; when the product does not wrap, 256 iff product ≤ 50, 512 iff 50 < product ≤ 100, 1024 iff product > 100 |
| `Config.HeapSizeForValidInput` | src/main/java/cl/marcuzo/nreinas/config/ApplicationConfig.java:217-229 | for a valid size and worker count the product cannot wrap, so the table applies to the true product |
| `Config.NatDigits` | src/main/java/cl/marcuzo/nreinas/config/ApplicationConfig.java:207 | the decimal digits of a natural number: at least one, all digits, no leading zero |
| `Config.DigitsRoundTrip` | src/main/java/cl/marcuzo/nreinas/config/ApplicationConfig.java:207 | reading the digits back yields the number |
| `Config.DecimalStringInjective` | src/main/java/cl/marcuzo/nreinas/config/ApplicationConfig.java:207 | distinct ints have distinct `Integer.toString` renderings |
| `Config.GetWorkerAddress` | src/main/java/cl/marcuzo/nreinas/config/ApplicationConfig.java:206-208 | the address is `"worker."`, then the id in decimal, then `".process"` |
| `Config.WorkerAddressInjective` | src/main/java/cl/marcuzo/nreinas/config/ApplicationConfig.java:206-208 | two workers share an address only if they share an id |
| `JavaList.ArrayList.Add` | src/main/java/cl/marcuzo/nreinas/algorithm/NQueensAlgorithm.java:247 | the element is appended at the end and nothing else changes |
| `JavaList.ArrayList.Remove` | src/main/java/cl/marcuzo/nreinas/algorithm/NQueensAlgorithm.java:249 | the element at the index is removed, the others keep their order |
| `Queens.ConsistentSnoc` | src/main/java/cl/marcuzo/nreinas/algorithm/NQueensAlgorithm.java:245-247 | a consistent placement extended by a column Safe for its next row and on the board is consistent, and only then |
| `Queens.CompletionsSound` | src/main/java/cl/marcuzo/nreinas/algorithm/NQueensAlgorithm.java:236-251 | from a conflict-free placement, every placement the search records is a solution: length N, columns in 0..N-1, no two queens attacking |
| `Queens.CompletionsComplete` | src/main/java/cl/marcuzo/nreinas/algorithm/NQueensAlgorithm.java:236-251 | every solution that extends the current placement is recorded |
| `Queens.AllSolutionsExact` | src/main/java/cl/marcuzo/nreinas/algorithm/NQueensAlgorithm.java:201-210 | the search from the empty board records exactly the solutions |
| `Queens.CompletionsSorted` | src/main/java/cl/marcuzo/nreinas/algorithm/NQueensAlgorithm.java:243-250 | columns tried in ascending order give solutions in strictly increasing lexicographic order |
| `Queens.AllSolutionsDistinct` | src/main/java/cl/marcuzo/nreinas/algorithm/NQueensAlgorithm.java:201-210 | no solution is recorded twice |
| `Queens.TriesCountsInnerNodes` | src/main/java/cl/marcuzo/nreinas/algorithm/NQueensAlgorithm.java:243-244 | a search tries N columns at each non-leaf call, so `statesExplored` grows by N times the number of non-leaf calls |
| `Queens.PlacementsFull` | src/main/java/cl/marcuzo/nreinas/verticle/WorkerVerticle.java:212-222 | the search stopped at depth N is the full search |
| `FourQueens.FourQueens` | src/main/java/cl/marcuzo/nreinas/algorithm/NQueensAlgorithm.java:243-250 | for N = 4 the solutions are exactly [1,3,0,2] and [2,0,3,1], in that order |
| `Algorithm.Result.SolutionCount` | src/main/java/cl/marcuzo/nreinas/algorithm/NQueensAlgorithm.java:55 | the count is the length of the solution list |
| `Queens.SolutionsCounted` | src/main/java/cl/marcuzo/nreinas/algorithm/NQueensAlgorithm.java:55 | the search's list has exactly as many entries as there are distinct N-queens solutions, and its members are exactly the solutions |
| `Algorithm.SolutionCountCountsSolutions` | src/main/java/cl/marcuzo/nreinas/algorithm/NQueensAlgorithm.java:55 | for a result holding the search's list, `getSolutionCount` is the number of distinct placements in it, and those are exactly the solutions of the board |
| `Algorithm.IsValidPosition` | src/main/java/cl/marcuzo/nreinas/algorithm/NQueensAlgorithm.java:109-124 | true iff no queen of rows 0..row-1 shares the column or a diagonal |
| `Algorithm.SolutionToBoard` | src/main/java/cl/marcuzo/nreinas/algorithm/NQueensAlgorithm.java:132-147 | the nested StringBuilder loops produce the board drawing `BoardText` |
| `Algorithm.LinesLength` | src/main/java/cl/marcuzo/nreinas/algorithm/NQueensAlgorithm.java:132-147 | the first k lines take k·(2N+1) characters, so the drawing is N·(2N+1) long |
| `Algorithm.BoardCellMark` | src/main/java/cl/marcuzo/nreinas/algorithm/NQueensAlgorithm.java:137-141 | the first character of a cell is 'Q' exactly at the queen's column, '.' elsewhere |
| `Algorithm.BoardCellSpace` | src/main/java/cl/marcuzo/nreinas/algorithm/NQueensAlgorithm.java:137-141 | the second character of every cell is a blank |
| `Algorithm.BoardLineEnd` | src/main/java/cl/marcuzo/nreinas/algorithm/NQueensAlgorithm.java:144 | each line ends with a newline after its N cells |
| `Algorithm.ClassicBacktrackingSolver.constructor` | src/main/java/cl/marcuzo/nreinas/algorithm/NQueensAlgorithm.java:188 | a new solver has explored no state |
| `Algorithm.ClassicBacktrackingSolver.SolveRecursive` | src/main/java/cl/marcuzo/nreinas/algorithm/NQueensAlgorithm.java:236-251 | appends exactly the solutions below the current placement in search order, restores the placement, and leaves the `int` `statesExplored` at the 32-bit wrap of its old value plus one per column tried (`Tries`) |
| `Algorithm.ClassicBacktrackingSolver.TryColumn` | src/main/java/cl/marcuzo/nreinas/algorithm/NQueensAlgorithm.java:243-250 | one pass of the column loop: counts the column with `int` wrap-around, and searches below it (appending its completions) exactly when `isValidPosition` accepts it |
| `Algorithm.ClassicBacktrackingSolver.FindAllSolutions` | src/main/java/cl/marcuzo/nreinas/algorithm/NQueensAlgorithm.java:201-210 | returns `AllSolutions(N)`; `statesExplored` becomes the 32-bit wrap of its old value plus N per non-leaf call, which is the exact count only while that stays below 2^31 |
| `Algorithm.OccupancyDecidesSafe` | src/main/java/cl/marcuzo/nreinas/algorithm/NQueensAlgorithm.java:278-284 | the diagonal indices are within 0..2N-2, and the three array reads find the square free iff `isValidPosition` would accept it |
| `Algorithm.OccupancyMark` | src/main/java/cl/marcuzo/nreinas/algorithm/NQueensAlgorithm.java:286-289 | setting the three marks of a new queen gives the marks of the longer placement |
| `Algorithm.OccupancyUnmark` | src/main/java/cl/marcuzo/nreinas/algorithm/NQueensAlgorithm.java:294-297 | clearing the marks of the last queen gives back the marks of the shorter placement |
| `Algorithm.SafeLinesFree` | src/main/java/cl/marcuzo/nreinas/algorithm/NQueensAlgorithm.java:278-284 | a square no queen attacks has its column and both diagonals unmarked |
| `Algorithm.DiagonalsSnoc` | src/main/java/cl/marcuzo/nreinas/algorithm/NQueensAlgorithm.java:281-282 | a new queen occupies its own two diagonals and no others |
| `Algorithm.OptimizedBacktrackingSolver.constructor` | src/main/java/cl/marcuzo/nreinas/algorithm/NQueensAlgorithm.java:258-261 | a new solver has null arrays and has explored no state |
| `Algorithm.OptimizedBacktrackingSolver.MarksDecideSafe` | src/main/java/cl/marcuzo/nreinas/algorithm/NQueensAlgorithm.java:278-284 | on the solver's own arrays, the indices are in bounds and the array test is the conflict check |
| `Algorithm.OptimizedBacktrackingSolver.InitializeSolver` | src/main/java/cl/marcuzo/nreinas/algorithm/NQueensAlgorithm.java:264-268 | N ≥ 1 gives three fresh, all-false arrays of sizes N, 2N-1 and 2N-1; N = 0 throws NegativeArraySizeException |
| `Algorithm.OptimizedBacktrackingSolver.Place` | src/main/java/cl/marcuzo/nreinas/algorithm/NQueensAlgorithm.java:285-289 | appends the column and marks it, keeping the arrays in step with the placement |
| `Algorithm.OptimizedBacktrackingSolver.Unplace` | src/main/java/cl/marcuzo/nreinas/algorithm/NQueensAlgorithm.java:293-297 | removes the last queen and clears its marks, keeping the arrays in step with the placement |
| `Algorithm.OptimizedBacktrackingSolver.SolveRecursive` | src/main/java/cl/marcuzo/nreinas/algorithm/NQueensAlgorithm.java:271-298 | with allocated arrays: the classic solver's contract, including the wrapping `int` count, and the arrays mark the placement again on return; with null arrays: a full placement is still recorded, anything else counts one state and throws NullPointerException on the first column |
| `Algorithm.OptimizedBacktrackingSolver.TryColumn` | src/main/java/cl/marcuzo/nreinas/algorithm/NQueensAlgorithm.java:278-298 | one pass of the column loop: counts the column with `int` wrap-around, then throws NullPointerException if the arrays were never allocated, or else searches below the column exactly when the three marks show it free |
| `Algorithm.OptimizedBacktrackingSolver.Descend` | src/main/java/cl/marcuzo/nreinas/algorithm/NQueensAlgorithm.java:284-297 | place, search below, backtrack: appends the solutions below the extended placement, restores placement and marks, and adds that subtree's tries to the wrapping count |
| `Algorithm.OptimizedBacktrackingSolver.FindAllSolutions` | src/main/java/cl/marcuzo/nreinas/algorithm/NQueensAlgorithm.java:201-210 | for N ≥ 1 returns `AllSolutions(N)`, the classic solver's list, with the same wrapping count of N per non-leaf call; throws NegativeArraySizeException for N = 0 |
| `Algorithm.DistributedDPSolver.SolveRecursiveAsWritten` | src/main/java/cl/marcuzo/nreinas/algorithm/NQueensAlgorithm.java:309-314 | the uninitialized delegate throws NullPointerException below a full placement and leaves `statesExplored` unchanged; at a full placement the placement is recorded and `statesExplored` is set to N·N·N as `int` products |
| `Algorithm.DistributedDPSolver.FindAllSolutionsAsWritten` | src/main/java/cl/marcuzo/nreinas/algorithm/NQueensAlgorithm.java:201-210 | throws NullPointerException for every N ≥ 1, with `statesExplored` unchanged |
| `Algorithm.DistributedDPSolver.SolveRecursive` | src/main/java/cl/marcuzo/nreinas/algorithm/NQueensAlgorithm.java:309-314 | with the delegate initialized: appends `AllSolutions(N)` and sets `statesExplored` to N·N·N as `int` products |
| `Algorithm.DistributedDPSolver.FindAllSolutions` | src/main/java/cl/marcuzo/nreinas/algorithm/NQueensAlgorithm.java:201-210 | returns `AllSolutions(N)` with `statesExplored` = N·N·N as `int` products for N ≥ 1; throws NegativeArraySizeException for N = 0 |
| `Algorithm.CubeExact` | src/main/java/cl/marcuzo/nreinas/algorithm/NQueensAlgorithm.java:313 | the `int` product N·N·N is the true cube for every N up to 1290, so for every board size the service accepts |
| `Algorithm.Solve` | src/main/java/cl/marcuzo/nreinas/algorithm/NQueensAlgorithm.java:74-85 | the backtracking strategies report `AllSolutions(N)` with the strategy, the elapsed time and the wrapping count of N per non-leaf call; OPTIMIZED_BACKTRACKING throws NegativeArraySizeException exactly at N = 0; DISTRIBUTED_DP as written throws NullPointerException exactly for N ≥ 1 and returns `[[]]` with 0 states at N = 0; an Ok result's `getSolutionCount` is the number of distinct solutions |
| `Algorithm.SolveCorrected` | src/main/java/cl/marcuzo/nreinas/algorithm/NQueensAlgorithm.java:74-85 | with the corrected distributed solver every strategy reports the same list `AllSolutions(N)`; only N = 0 under an array strategy throws; the distributed count is N·N·N as `int` products; an Ok result's `getSolutionCount` is the number of distinct solutions |
| `Algorithm.DistributedOnFourQueens` | src/main/java/cl/marcuzo/nreinas/algorithm/NQueensAlgorithm.java:309-314 | on N = 4 the distributed strategy as written throws, the corrected one returns the two solutions |
| `StateStore.Address` | src/main/java/cl/marcuzo/nreinas/verticle/StateManagerVerticle.java:48-70 | row updates go to "state.update" and solutions to "solution.found", and only those |
| `StateStore.SolutionsInConcat` | src/main/java/cl/marcuzo/nreinas/verticle/StateManagerVerticle.java:77-80 | the solutions of two streams sent one after the other are those of the first, then those of the second |
| `StateStore.NoSolutionsIn` | src/main/java/cl/marcuzo/nreinas/verticle/StateManagerVerticle.java:70-80 | a stream of row updates records no solution |
| `StateStore.SolutionMessagesRoundTrip` | src/main/java/cl/marcuzo/nreinas/verticle/StateManagerVerticle.java:72-78 | solutions sent one per message are recorded unchanged and in order |
| `StateStore.RowKey` | src/main/java/cl/marcuzo/nreinas/verticle/StateManagerVerticle.java:33 | the key is `"row_"` followed by the row in decimal |
| `StateStore.RowKeyInjective` | src/main/java/cl/marcuzo/nreinas/verticle/StateManagerVerticle.java:53 | different rows never share a bucket |
| `StateStore.StateManagerVerticle.constructor` | src/main/java/cl/marcuzo/nreinas/verticle/StateManagerVerticle.java:17-23 | empty cache, no solutions, count 0 |
| `StateStore.StateManagerVerticle.Get` | src/main/java/cl/marcuzo/nreinas/verticle/StateManagerVerticle.java:30-45 | lists each stored placement of the row exactly once, and nothing for a row never updated |
| `StateStore.StateManagerVerticle.Update` | src/main/java/cl/marcuzo/nreinas/verticle/StateManagerVerticle.java:48-67 | the row's bucket becomes old ∪ new and is created if absent; other buckets and the solutions are untouched; nothing is removed; re-adding known placements changes nothing; the cache grows by one key only for a new row; replies "updated" |
| `StateStore.StateManagerVerticle.RecordSolution` | src/main/java/cl/marcuzo/nreinas/verticle/StateManagerVerticle.java:70-88 | appends the solution and counts it, so the count stays the list's length; the broadcast carries the new count and the solution |
| `StateStore.StateManagerVerticle.GetSummary` | src/main/java/cl/marcuzo/nreinas/verticle/StateManagerVerticle.java:91-107 | reports the solutions in arrival order, their count, and the number of row keys |
| `StateStore.StateManagerVerticle.Reset` | src/main/java/cl/marcuzo/nreinas/verticle/StateManagerVerticle.java:110-118 | empties cache and list and zeroes the count, whatever the state before, so a second reset changes nothing; replies "reset" |
| `StateStore.StateManagerVerticle.Receive` | src/main/java/cl/marcuzo/nreinas/verticle/StateManagerVerticle.java:47-88 | a message reaches the consumer of its address: an update unions into its row, a solution is appended |
| `StateStore.StateManagerVerticle.ReceiveAll` | src/main/java/cl/marcuzo/nreinas/verticle/StateManagerVerticle.java:77-80 | the solutions of a stream are appended in the order sent |
| `Worker.RowMessages` | src/main/java/cl/marcuzo/nreinas/verticle/WorkerVerticle.java:241-260 | a pipeline whose range ends before the last row sends only row updates |
| `Worker.FirstRowIsFirstLevel` | src/main/java/cl/marcuzo/nreinas/verticle/WorkerVerticle.java:150-157 | the initial states [0], [1], …, [N-1] are exactly the one-queen placements, in search order |
| `Worker.ChildrenExtend` | src/main/java/cl/marcuzo/nreinas/verticle/WorkerVerticle.java:228-233 | each child is its parent plus one column on the board that is Safe for the next row |
| `Worker.ExpansionExtends` | src/main/java/cl/marcuzo/nreinas/verticle/WorkerVerticle.java:227-236 | each expanded state is some previous state plus one Safe column |
| `Worker.ExpansionConsistent` | src/main/java/cl/marcuzo/nreinas/verticle/WorkerVerticle.java:229-232 | conflict-free parents of length k give only conflict-free children of length k + 1 |
| `Worker.ExpansionConcat` | src/main/java/cl/marcuzo/nreinas/verticle/WorkerVerticle.java:227-236 | expanding a list expands its parts in turn |
| `Worker.PlacementsNextLevel` | src/main/java/cl/marcuzo/nreinas/verticle/WorkerVerticle.java:224-236 | expanding the placements of k queens gives exactly the placements of k + 1 queens, in search order |
| `Worker.EmptyLevelStaysEmpty` | src/main/java/cl/marcuzo/nreinas/verticle/WorkerVerticle.java:241 | once a level is empty, every later level is |
| `Worker.PipelineReportsAllSolutions` | src/main/java/cl/marcuzo/nreinas/verticle/WorkerVerticle.java:209-262 | from the placements of r + 1 queens, a worker whose range reaches the last row reports exactly `AllSolutions(N)`, in order |
| `Worker.PipelinePublishesLevels` | src/main/java/cl/marcuzo/nreinas/verticle/WorkerVerticle.java:241-252 | every published row j is later than the start, below N, and holds exactly the placements of j + 1 queens |
| `Worker.LastRowReportsSolutions` | src/main/java/cl/marcuzo/nreinas/verticle/WorkerVerticle.java:212-222 | past the last row only solutions are sent, and nothing is expanded |
| `Worker.RowMessagesStep` | src/main/java/cl/marcuzo/nreinas/verticle/WorkerVerticle.java:241-260 | an empty expansion sends nothing; otherwise it is published as the next row, and the pipeline continues only while that row is within range |
| `Worker.RowMessagesMembers` | src/main/java/cl/marcuzo/nreinas/verticle/WorkerVerticle.java:241-260 | each message before the last row is the next row's update or comes from the continuation |
| `Worker.ShortRangeReportsNothing` | src/main/java/cl/marcuzo/nreinas/verticle/WorkerVerticle.java:255 | a worker whose range ends before the last row reports no solution |
| `Worker.InitialPipelineReportsAllSolutions` | src/main/java/cl/marcuzo/nreinas/verticle/WorkerVerticle.java:149-179 | the pipeline started by generateInitialStates on a full range reports the same solutions, in the same order, as worker 0's complete search |
| `Worker.WorkerVerticle.constructor` | src/main/java/cl/marcuzo/nreinas/verticle/WorkerVerticle.java:58-61 | workerId defaults to 0, N to 8, startRow to 0, endRow to N - 1 |
| `Worker.WorkerVerticle.ProcessAddress` | src/main/java/cl/marcuzo/nreinas/verticle/WorkerVerticle.java:68 | the worker listens on the address the configuration assigns to its id |
| `Worker.WorkerVerticle.IsValidPosition` | src/main/java/cl/marcuzo/nreinas/verticle/WorkerVerticle.java:267-281 | the new row is the state's length; true iff no queen of the state shares the column or a diagonal |
| `Worker.WorkerVerticle.FindAllSolutions` | src/main/java/cl/marcuzo/nreinas/verticle/WorkerVerticle.java:123-144 | appends exactly the solutions below the current placement, in search order, and restores the placement |
| `Worker.WorkerVerticle.SolveNQueensComplete` | src/main/java/cl/marcuzo/nreinas/verticle/WorkerVerticle.java:99-118 | sends one "solution.found" per solution of the board, in search order |
| `Worker.WorkerVerticle.SendSolutions` | src/main/java/cl/marcuzo/nreinas/verticle/WorkerVerticle.java:111-117 | sends one "solution.found" per placement, in order |
| `Worker.WorkerVerticle.StartProcessing` | src/main/java/cl/marcuzo/nreinas/verticle/WorkerVerticle.java:77-94 | only worker 0 searches; the others send nothing |
| `Worker.WorkerVerticle.ProcessNextRow` | src/main/java/cl/marcuzo/nreinas/verticle/WorkerVerticle.java:209-262 | sends exactly the pipeline's messages `RowMessages` |
| `Worker.WorkerVerticle.ExpandStates` | src/main/java/cl/marcuzo/nreinas/verticle/WorkerVerticle.java:224-236 | the next states are every previous state extended by each valid column, state by state and column by column |
| `Worker.WorkerVerticle.GenerateInitialStates` | src/main/java/cl/marcuzo/nreinas/verticle/WorkerVerticle.java:149-179 | publishes [0], …, [N-1] as row 0, then runs the pipeline from row 0 when endRow > 0 |
| `Worker.WorkerVerticle.ProcessWorkUnit` | src/main/java/cl/marcuzo/nreinas/verticle/WorkerVerticle.java:286-301 | runs the pipeline from the unit's row and states and replies "processing" |
| `Coordinator.DefaultWorkers` | src/main/java/cl/marcuzo/nreinas/verticle/OrquestadorVerticle.java:37 | the default worker count is min(N, 4) |
| `Coordinator.DefaultWorkersValid` | src/main/java/cl/marcuzo/nreinas/verticle/OrquestadorVerticle.java:36-37 | for every valid board size the default worker count is valid |
| `Coordinator.PartitionContiguous` | src/main/java/cl/marcuzo/nreinas/verticle/OrquestadorVerticle.java:128-134 | worker 0 starts at row 0, each worker starts right after the previous one ends, and the last ends at N - 1 |
| `Coordinator.PartitionBalanced` | src/main/java/cl/marcuzo/nreinas/verticle/OrquestadorVerticle.java:128-134 | the first N % W workers get N / W + 1 rows and the others N / W, so sizes differ by at most one |
| `Coordinator.TrailingRangesEmpty` | src/main/java/cl/marcuzo/nreinas/verticle/OrquestadorVerticle.java:128-134 | with more workers than rows, workers from N on get the empty range with endRow = startRow - 1 |
| `Coordinator.StartRowMonotone` | src/main/java/cl/marcuzo/nreinas/verticle/OrquestadorVerticle.java:133 | later workers never start earlier |
| `Coordinator.PartitionCovers` | src/main/java/cl/marcuzo/nreinas/verticle/OrquestadorVerticle.java:131-134 | every row lies in some worker's range |
| `Coordinator.PartitionDisjoint` | src/main/java/cl/marcuzo/nreinas/verticle/OrquestadorVerticle.java:131-134 | no row lies in two workers' ranges |
| `Coordinator.Decide` | src/main/java/cl/marcuzo/nreinas/verticle/OrquestadorVerticle.java:196-211 | the ordered policy: any solution finishes; else the 30th check; else more than 60 s; else keep polling (each case an iff) |
| `Coordinator.ProgressMonitor.constructor` | src/main/java/cl/marcuzo/nreinas/verticle/OrquestadorVerticle.java:180 | a request's monitor starts with checkCount 0 and an armed timer |
| `Coordinator.ProgressMonitor.Tick` | src/main/java/cl/marcuzo/nreinas/verticle/OrquestadorVerticle.java:183-232 | checkCount goes up by one before the summary is read; the policy decides on the new count; finishing cancels the timer and sends the "completed" reply with the summary's data; a failed summary request changes nothing else |
| `Coordinator.ProgressMonitor.SafetyTimeout` | src/main/java/cl/marcuzo/nreinas/verticle/OrquestadorVerticle.java:235-247 | cancels the periodic check and sends the "timeout" reply |
| `Coordinator.WorkerConfigs` | src/main/java/cl/marcuzo/nreinas/verticle/OrquestadorVerticle.java:131-140 | worker i is configured with its id, N and its row range |
| `Coordinator.DeployedIds` | src/main/java/cl/marcuzo/nreinas/verticle/OrquestadorVerticle.java:145-147 | successful deployments contribute their ids, at most one per deployment |
| `Coordinator.AllSucceededIds` | src/main/java/cl/marcuzo/nreinas/verticle/OrquestadorVerticle.java:161-167 | when every deployment succeeds there is one id per worker, in worker order |
| `Coordinator.DeploymentsSnoc` | src/main/java/cl/marcuzo/nreinas/verticle/OrquestadorVerticle.java:145-158 | one more deployment result appends its id, if any, and keeps "all succeeded" exact |
| `Coordinator.OrquestadorVerticle.constructor` | src/main/java/cl/marcuzo/nreinas/verticle/OrquestadorVerticle.java:22-23 | no deployments and no workers |
| `Coordinator.OrquestadorVerticle.ResetState` | src/main/java/cl/marcuzo/nreinas/verticle/OrquestadorVerticle.java:65-98 | undeploys every recorded id, empties the list, zeroes the count, and asks for "state.reset" only when there was something to undeploy |
| `Coordinator.OrquestadorVerticle.DeployStateManager` | src/main/java/cl/marcuzo/nreinas/verticle/OrquestadorVerticle.java:103-118 | a successful deployment records its id without counting a worker; a failure changes nothing |
| `Coordinator.OrquestadorVerticle.DeployWorkers` | src/main/java/cl/marcuzo/nreinas/verticle/OrquestadorVerticle.java:123-174 | worker i gets its partition range; each success records its id and counts one worker; the outcome carries all ids iff all succeeded; zero workers divides by zero |
| `Coordinator.OrquestadorVerticle.HandleRequest` | src/main/java/cl/marcuzo/nreinas/verticle/OrquestadorVerticle.java:34-60 | defaults N to 8 and the worker count to min(N, 4); reset, then state manager, then workers; each failed deployment gets its error reply; full success starts a fresh monitor for the request |
| `Run.CompleteSearchSummary` | src/main/java/cl/marcuzo/nreinas/verticle/WorkerVerticle.java:99-118 | after worker 0's run reaches the state manager, the summary lists every solution exactly once, in lexicographic order, and counts them |
| `Run.PipelineSummary` | src/main/java/cl/marcuzo/nreinas/verticle/WorkerVerticle.java:149-179 | the row pipeline over the whole board leaves the same summary as worker 0's complete search |

## Left out

- The event bus, deployment and timers are not modelled as such.
  - Sending a message appends it to the worker's `sent` outbox. A consumer is a method call, and a request's reply is the method's result.
  - Every reply a worker waits for is taken to succeed. A failed reply stops the Java pipeline early, and the model does not cover that.
  - Deployment outcomes are inputs, and their callbacks are taken in worker order.
  - The 1 s periodic timer, the 65 s safety timer and the 50 ms throttle of the pipeline become explicit calls.
  - The race between the periodic check and the safety timer, which can both answer the same request, is concurrency and is not modelled.
- Clocks are left out. `System.currentTimeMillis` readings are parameters (`elapsedMs`, `now`, `startTime`).
- Logging, the Micrometer counters and timers, `reportProgress` / `ProgressCallback`, and the `solution.broadcast` consumer `onSolutionFound` only print or record metrics, so they are left out.
- JSON encoding is left out. A JSON array of columns is the `seq<int>` it carries, and a request's fields are method parameters.
- `NQueensAlgorithm.estimateComplexity` uses floating-point `Math.pow`, so it is left out.
- `WorkerVerticle.processIntermediateStates` is never called, so it is left out. `generateInitialStates` and the `worker.<id>.process` consumer are unreachable too, but they are modelled because `processNextRow` is their core.
- `WorkerVerticle.start` is the constructor followed by `StartProcessing`. Registering the consumers is plumbing.
- The HTTP gateway, the metrics manager and the interface-only pattern files are not part of this model.
- The state manager's `solutionCount`, the orchestrator's `workersDeployed` and the monitor's `checkCount` are unbounded integers. `solutionCount` always equals the length of a Java list, which cannot exceed 2^31 - 1 elements. `workersDeployed` is at most the requested worker count. `checkCount` is bounded by the number of 1 s ticks before the 65 s safety timer cancels the periodic check (about 65): the periodic timer is cancelled only when a summary arrives, so failed summary requests keep the count rising past 30.
- Nothing in the service calls `NQueensAlgorithm`. It is modelled as a library on its own.
- The `NQueensAlgorithm` members take N as a `nat`. Java's N is an `int`, so it is never above 2^31 - 1, and `solve(int N, …)` also accepts a negative N. For a negative N, CLASSIC_BACKTRACKING returns `[]` with 0 states, OPTIMIZED_BACKTRACKING throws NegativeArraySizeException, and DISTRIBUTED_DP returns `[]` with N·N·N states. The members below do not cover these cases:
- `Algorithm.Solve`: N is a `nat`; the negative-N results above are not part of its contract.
- `Algorithm.SolveCorrected`: N is a `nat`, as for `Algorithm.Solve`.
- `Algorithm.ClassicBacktrackingSolver.FindAllSolutions`: N is a `nat`; a negative N, which returns `[]`, is not modelled.
- `Algorithm.OptimizedBacktrackingSolver.FindAllSolutions`: N is a `nat`; a negative N, which throws NegativeArraySizeException, is not modelled.
- `Algorithm.DistributedDPSolver.FindAllSolutionsAsWritten`: N is a `nat`; a negative N, which returns `[]` with N·N·N states, is not modelled.
- `Algorithm.DistributedDPSolver.FindAllSolutions`: N is a `nat`, as for the as-written solver.
- `Worker.WorkerVerticle.constructor`: N is a `nat`, while Java's `getInteger` would also accept a negative N. The gateway never sends one.
- `Coordinator.OrquestadorVerticle.HandleRequest`: N is a `nat` for the same reason.
- `Algorithm.DistributedDPSolver.SolveRecursive`: requires `row == 0` and an empty placement. Its only caller, `findAllSolutions`, always starts it that way.
- `Worker.InitialPipelineReportsAllSolutions`: requires `endRow > 0`. With N = 1 the default range stops at row 0, so `generateInitialStates` publishes `[0]` as row 0 and never reports it as a solution.
- `Run.PipelineSummary`: requires N ≥ 2, for the same reason. It describes code the service never runs (`generateInitialStates` has no caller).
- `StateStore.StateManagerVerticle.Get`: the order in which the set is listed is left open, as Java's `HashSet` iteration order is.

## Findings

| source | as written | input that shows it | evidently intended | confidence | as-written member | corrected member |
|---|---|---|---|---|---|---|
| src/main/java/cl/marcuzo/nreinas/algorithm/NQueensAlgorithm.java:309-314 | `DistributedDPSolver.solveRecursive` delegates to `new OptimizedBacktrackingSolver()` without calling its `initializeSolver`, so the delegate's occupancy arrays are null | N = 4 (any N ≥ 1): the first array read throws NullPointerException, so `solve(4, DISTRIBUTED_DP)` fails instead of returning the two solutions | initialize the delegate for N before searching, so the strategy returns the same solutions as the other two | not executed | `Algorithm.DistributedDPSolver.FindAllSolutionsAsWritten` | `Algorithm.DistributedDPSolver.FindAllSolutions` |
