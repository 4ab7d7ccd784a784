# amod: the MILP formulation builders and their supporting code, in Dafny

This project models the core of amod, a C program for single-machine
scheduling with release dates. Each job j has a processing time p_j and a
release date r_j, and the objective is to minimise total completion time.
`model.c` turns one instance into one of three mixed-integer linear
programs and hands them to Gurobi:

- **precedence**: completion times C_j plus one ordering binary x_(i,j) per
  pair of jobs;
- **positional**: completion times C_[h] per position plus an n x n
  assignment matrix;
- **time-indexed**: one binary per job and possible completion time,
  laid out in per-job blocks.

Each call to `GRBaddvars` or `GRBaddconstr` is modelled as appending to an
abstract `ModelSpec`, which is a list of variables (objective coefficient,
type) and a list of sparse rows (entries, relation, right-hand side).
Every builder then becomes a pure integer-valued function of the
instance. Around them, the project models:

- the release-date quicksort of `utils.c`;
- the integer state of the multi-stream Lehmer generator of `generate.c`;
- the growable vector of `entities.c` and `vector.c`;
- the row-grouping loop of `load_csv` in `csv.c`.

Modules, one per file:

| file | module | models |
|---|---|---|
| instance.dfy | Scheduling | the instance, its validity, the horizon sum p + max(0, max r) |
| milp.dfy | Milp | variables, rows, models, what an assignment satisfying a row means |
| precedence.dfy | Precedence | `model_precedence_create`, as written and with the constraint section reached |
| positional.dfy | Positional | `model_positional_create` |
| timeindexed.dfy | TimeIndexed | `model_time_indexed_create`, with the slot rows as written and clamped |
| driver.dfy | Driver | `model_init`'s dispatch, the part of `model_optimize` that is not the solver, the test runner's instance |
| sorting.dfy | Sorting | `sort`, `quicksort`, `partition`, `swap` |
| lehmer.dfy | Lehmer | `rng` (seed update), `plant_seeds`, `put_seed` (x > 0), `get_seed`, `select_stream` |
| vectors.dfy | Vectors | `vector_init`, `vector_add` (both revisions), `vector_reset`, `vector_refit` (entities revision) |
| csv.dfy | Csv | the grouping loop of `load_csv`, as written and corrected |

Points where the code differs from the usual textbook formulation, and the model follows the code:

- The completion-time variables are INTEGER, not continuous.
- The sort is the unstable quicksort, not a stable sort.
- The big-M equals sum p + max r, where the comment in the code asks for a
  strictly larger value. `Precedence.DisjunctionMeaning` shows that
  equality is enough.
- No heuristic or warm start is modelled, because the code has none.

## Model

| member | source | states |
|---|---|---|
| Scheduling.MaxRelease | src/run/model/model.c:463-470 | The running maximum started at 0 is max(0, max r_j): it is non-negative, bounds every release date, and is either 0 or some r_j. |
| Scheduling.HorizonBounds | src/run/model/model.c:463-470 | Every job fits the horizon T: p_j + r_j <= T, so 1 <= p_j <= T and a block of T - p_j + 1 indices has room for the r_j pinned ones. |
| Milp.NonEmptyPrefix | src/run/model/model.c:597-598 | Dropping the rows with no entries from a list whose non-empty rows form a prefix leaves exactly that prefix. |
| Precedence.PairsLayout | src/run/model/model.c:128-135 | The nested pair loops visit every pair i < j < n exactly once, and the triangular index is each pair's visiting position: a bijection onto [0, n(n-1)/2). |
| Precedence.TriangularSlotsSound | src/run/model/model.c:94-135 | With slot n + triangular index, every pair gets its own slot in [n, n + n(n-1)/2), and the k-th visited pair gets slot n + k, so every ordering slot is named. |
| Precedence.AsWrittenSlotsSoundIff | src/run/model/model.c:128-135 | The name slot n + i + j - 1 is in range and collision-free if and only if n <= 3. |
| Precedence.AsWrittenSlotsFourJobs | src/run/model/model.c:128-135 | For n = 4, pairs (0,3) and (1,2) both write slot 6, and slot 9 of 10 is never named. |
| Precedence.AsWrittenColumnMatchesNameIff | src/run/model/model.c:190-234 | The row column i + j + 2 is the slot where x_(i,j) was named for every pair exactly when n is 1 or 3. |
| Precedence.AsWrittenColumnFourJobs | src/run/model/model.c:193-197 | For n = 4 the row of pair (0,1) addresses column 3, which is the completion time C_4 rather than an ordering variable. |
| Precedence.TriangularColumnIsSlot | src/run/model/model.c:190-234 | The corrected row column of pair (i, j) is the slot where x_(i,j) is named, and it is a declared ordering column. |
| Precedence.PrecedenceCreate | src/run/model/model.c:91-142 | As written: n + n(n-1)/2 variables, where the first n are INTEGER with objective 1 and the rest BINARY with objective 0. The model has no rows, because the function returns before the constraint section. |
| Precedence.PrecedenceCorrected | src/run/model/model.c:144-234 | With the constraint section reached, there are n + 2 n(n-1)/2 rows, and every row names only declared columns. |
| Precedence.PrecedenceRowsShape | src/run/model/model.c:144-234 | Rows come in emission order from three separate loops. Rows 0 .. n-1 are C_j >= p_j + r_j, one per job. Row n + k is the three-entry "before" row of the k-th visited pair (i, j), with rhs M - p_j. Row n + n(n-1)/2 + k is the three-entry "after" row of that pair, with rhs -p_i. So every "before" row precedes every "after" row. M is sum p + max(0, max r). |
| Precedence.DisjunctionMeaning | src/run/model/model.c:190-234 | For completion times in [p, M], both rows of a pair hold iff x = 1 and C_i + p_j <= C_j, or x = 0 and C_j + p_i <= C_i. So M equal to sum p + max r already deactivates the relaxed row. |
| Positional.XColBijection | src/run/model/model.c:292-300 | (j, h) maps to n + j*n + h one-to-one onto [n, n + n^2), with division and remainder by n as its inverse. |
| Positional.PositionalCreate | src/run/model/model.c:252-440 | There are n + n^2 variables: n INTEGER with objective 1, then BINARY with objective 0. There are exactly 5n rows, and every row names only declared columns. |
| Positional.RowAt | src/run/model/model.c:321-440 | Row c is, in emission order: n job rows, n position rows, the C_[1] row, n - 1 recursion rows, n release rows, n non-negativity rows. |
| Positional.RowsColumns | src/run/model/model.c:321-440 | Every family of rows names only columns below n + n^2. |
| Positional.JobRowMeaning | src/run/model/model.c:321-336 | On 0/1 values, job j's row holds iff job j takes exactly one position. |
| Positional.PositionRowMeaning | src/run/model/model.c:342-357 | On 0/1 values, position h's row holds iff exactly one job takes position h. |
| Positional.AssignmentRowsMeaning | src/run/model/model.c:321-357 | On 0/1 values, the first 2n rows all hold iff the assignment variables form a permutation matrix. |
| Positional.FirstRowMeaning | src/run/model/model.c:363-377 | With job j0 in position 1, the C_[1] row holds iff C_[1] >= p_j0. |
| Positional.RecursionRowMeaning | src/run/model/model.c:379-401 | With job j0 in position h >= 2, the row holds iff C_[h] >= C_[h-1] + p_j0. |
| Positional.ReleaseRowMeaning | src/run/model/model.c:407-423 | With job j0 in position h, the row holds iff C_[h] >= p_j0 + r_j0. |
| TimeIndexed.OffsetAtLeastIndex | src/run/model/model.c:475-486 | Every block has at least one variable, so job j's block starts at or after column j. |
| TimeIndexed.BlocksDisjoint | src/run/model/model.c:475-486 | Distinct (job, local index) pairs are distinct columns, and every such column is below the variable count. |
| TimeIndexed.VarsLayout | src/run/model/model.c:472-503 | There are sum_j (T - p_j + 1) variables, all BINARY. The variable at offset_j + t has objective t + p_j, a completion time in [p_j, T]. |
| TimeIndexed.ExactlyOneRows | src/run/model/model.c:541-573 | The loop with its running offset emits, for each job in order, the row covering exactly that job's block at the closed-form offset sum_{k<j}(T - p_k + 1). |
| TimeIndexed.ExactlyOneRowMeaning | src/run/model/model.c:541-573 | On 0/1 values, job j's row holds iff exactly one completion time of job j is chosen. |
| TimeIndexed.JobSlotTermsMeaning | src/run/model/model.c:580-596 | Job j's entries in the row of slot tau have unit coefficients, stay inside job j's block, and name local index t iff the rule covers (j, t) at tau. |
| TimeIndexed.SlotTermsColumns | src/run/model/model.c:580-596 | The job loop from job j on collects unit entries whose columns lie between job j's offset and the variable count. |
| TimeIndexed.SlotTermsCover | src/run/model/model.c:580-596 | A column of job j' >= j is among the entries collected from job j on iff the rule covers it. |
| TimeIndexed.SlotTermsMeaning | src/run/model/model.c:576-596 | The row of slot tau has unit coefficients and declared columns, and names (j, t) iff the rule covers it. As written, that is when job j runs during tau and tau <= T - p_j. |
| TimeIndexed.SkippedSlotEmpty | src/run/model/model.c:584-587 | As written, a slot after T minus the shortest processing time collects no entries. |
| TimeIndexed.SlotRowNonEmpty | src/run/model/model.c:597-598 | A slot row has entries iff tau is at most the rule's last slot: T - min p as written, T - 1 when clamped. |
| TimeIndexed.SlotRowsLayout | src/run/model/model.c:576-616 | The emitted slot rows are exactly the rows of slots 0 .. last slot, in order. |
| TimeIndexed.ReleasedJobs | src/run/model/model.c:619-626 | Lists, in increasing order, only jobs with a nonzero release date. |
| TimeIndexed.ReleasedJobsComplete | src/run/model/model.c:619-626 | Every job with a nonzero release date is listed. |
| TimeIndexed.ReleaseRows | src/run/model/model.c:619-642 | The release loop with its running offset emits one pinning row per released job, in job order, and no row for a job released at 0. |
| TimeIndexed.PinRowColumns | src/run/model/model.c:630-633 | The pinned indices 0 .. r_j - 1 stay inside job j's block. |
| TimeIndexed.PinRowMeaning | src/run/model/model.c:618-642 | On 0/1 values, job j's pinning row holds iff no completion time before r_j + p_j is chosen. |
| TimeIndexed.TimeIndexedCreate | src/run/model/model.c:459-642 | sum_j (T - p_j + 1) binaries; n + (last slot + 1) + (number of released jobs) rows; every row names only declared columns. |
| TimeIndexed.RowOfJob | src/run/model/model.c:541-573 | Row j of the model is job j's exactly-one row. |
| TimeIndexed.RowOfSlot | src/run/model/model.c:576-616 | Row n + tau is the row of slot tau, for every emitted slot. |
| TimeIndexed.RowOfRelease | src/run/model/model.c:619-642 | After the slot rows, row k is the pinning row of the k-th released job. |
| TimeIndexed.FeasibleOneCompletion | src/run/model/model.c:540-573 | Under either slot rule, every feasible point picks exactly one completion time per job. |
| TimeIndexed.FeasibleRelease | src/run/model/model.c:618-642 | Under either slot rule, no feasible point picks a completion time of job j before r_j + p_j. |
| TimeIndexed.SlotRowExclusive | src/run/model/model.c:609-610 | A slot row that holds on 0/1 values reads 1 from at most one of its columns. |
| TimeIndexed.ClampedNoOverlap | src/run/model/model.c:575-616 | With the slot rows clamped to each block, no feasible point runs two jobs (or one job twice) in the same slot. |
| TimeIndexed.ClampedSlotRowAdmits | src/run/model/model.c:575-616 | On 0/1 values that never run two (job, completion) pairs in the same slot, the clamped row of every slot holds. |
| TimeIndexed.ScheduleFeasible | src/run/model/model.c:540-642 | A schedule (0/1 values, one completion per job, none before r_j + p_j, no two jobs in one slot) satisfies every row of the clamped model. |
| TimeIndexed.ClampedFeasibleIff | src/run/model/model.c:540-642 | Under the clamped slot rows, the feasible points are exactly the schedules: both directions. |
| TimeIndexed.BackToBackTimes | src/run/model/model.c:463-470 | Starting job j at max r + p_0 + ... + p_(j-1): it is released by then, it finishes by T, and it ends before any later job starts. |
| TimeIndexed.BackToBackFeasible | src/run/model/model.c:463-470 | The back-to-back schedule from max r is inside every block, is a schedule, and is feasible under the clamped rows. So T = sum p + max r suffices, and the + 1 the comment at model.c:152 considers for `big_t` is not needed. |
| TimeIndexed.SkipExampleShape | src/run/model/model.c:463-486 | For p = (3, 1) and r = (0, 0): T = 4, job 0's block is columns 0..1, job 1's block is columns 2..5, and no job is released late. |
| TimeIndexed.SkipExampleSlot | src/run/model/model.c:580-596 | For that instance, job 0 is missing from the rows of slots 2 and 3 as written, though it can still be running then. |
| TimeIndexed.SkipAdmitsOverlap | src/run/model/model.c:584-587 | As written, x = (1,0,0,0,1,0) is feasible although jobs 0 and 1 both run in slot 2. |
| TimeIndexed.ClampRejectsOverlap | src/run/model/model.c:584-587 | The clamped rows make the same x infeasible. |
| Driver.ModelInit | src/run/model/model.c:33-42 | Each solver's builder gives a well-formed model with at least n variables. Precedence has no rows. Precedence and positional start with n INTEGER objective-1 columns. Time-indexed is all BINARY. |
| Driver.ModelInitCorrected | src/run/model/model.c:33-42 | With the corrected builders, precedence has n + n(n-1) rows, positional is unchanged, and every model is well formed. |
| Driver.ModelOptimize | src/run/model/model.c:61-86 | The solution records the solver, size = n, and values that are the first n entries of the solver's point. |
| Driver.RunnerShape | tests/runner.c:14-18 | For p = (3,1,4), r = (5,0,2): T = 13, blocks of 11, 13 and 10 variables, and jobs 0 and 2 released late. |
| Driver.RunnerCounts | tests/runner.c:14-18 | On the runner's instance: precedence has 6 variables and 0 rows, positional 12 and 15, time-indexed 34 and 18. |
| Sorting.Swap | src/utils/utils.c:98-102 | Exactly the two cells change, each taking the other's value. |
| Sorting.SwapZip | src/utils/utils.c:87-93 | Swapping both arrays at the same indices is swapping those two (r_j, p_j) jobs. |
| Sorting.PartitionLoopOrders | src/utils/utils.c:84-90 | The loop keeps [low, i] below the pivot and (i, j) at or above it, and never moves the pivot. |
| Sorting.PartitionLoopRearranges | src/utils/utils.c:84-90 | The loop only rearranges jobs within [low, high), and every other job stays in place. |
| Sorting.Partition | src/utils/utils.c:79-96 | pi is in [low, high] and holds the old pivot. Entries in [low, pi) are below it and entries in (pi, high] are at least it. |
| Sorting.PartitionRearranges | src/utils/utils.c:79-96 | Partition only rearranges the jobs of [low, high]. |
| Sorting.QuickSortStep | src/utils/utils.c:73-76 | One partition followed by sorting each side sorts and rearranges the whole range. |
| Sorting.QuickSort | src/utils/utils.c:70-77 | With low >= high nothing changes. Otherwise release dates in [low, high] end up non-decreasing, only jobs of that range move, and on two jobs the result is the single partition. |
| Sorting.Sort | src/utils/utils.c:66-68 | Same number of jobs, same multiset of (r_j, p_j) pairs, non-decreasing release dates. |
| Sorting.PartitionSwapsTies | src/utils/utils.c:85-93 | For two jobs released together, the pivot (the later one) moves to the front, so the sort is not stable. |
| Lehmer.Initial | src/generate/generate.h:24-26 | The static state: seed[0] = DEFAULT, stream 0, not initialised. |
| Lehmer.SchrageConstants | src/generate/generate.c:51-52 | Q = 44488 and R = 3399 for 48271; Q = 93674 and R = 7197 for 22925. |
| Lehmer.SchrageNoOverflow | src/generate/generate.c:51-55 | Both products lie in [0, M], so t fits a signed 32-bit integer. |
| Lehmer.SchrageSplit | src/generate/generate.c:55 | a * s = M * (s / Q) + t, which is Schrage's identity. |
| Lehmer.ResidueOfStep | src/generate/generate.c:56-59 | Adding M to t when t <= 0 gives the residue of a * s modulo M, which is nonzero. |
| Lehmer.SchrageIsMulMod | src/generate/generate.c:55-59 | Schrage's step equals (a * s) mod M and stays in [1, M - 1]. |
| Lehmer.NextSeed | src/generate/generate.c:51-59 | The rng step is (48271 * s) mod M and stays in [1, M - 1]. |
| Lehmer.JumpSeed | src/generate/generate.c:70-85 | The planting step is (22925 * s) mod M and stays in [1, M - 1]. |
| Lehmer.Rng | src/generate/generate.c:50-59 | Only seed[stream] changes, to (48271 * seed) mod M. The stream and the flag are kept, and the state stays good. |
| Lehmer.PutSeed | src/generate/generate.c:95-109 | seed[stream] becomes x mod M, and nothing else changes. |
| Lehmer.GetSeed | src/generate/generate.c:115 | get_seed returns a value in [1, M - 1] from a good state. |
| Lehmer.GetAfterPut | src/generate/generate.c:95-115 | get_seed returns what put_seed stored: x itself when 0 < x < M. |
| Lehmer.GetAfterRng | src/generate/generate.c:50-115 | After rng, get_seed returns the previous seed times 48271 mod M, a value in [1, M - 1]. |
| Lehmer.PlantSeeds | src/generate/generate.c:69-86 | seed[0] = x mod M and seed[j] = 22925 * seed[j-1] mod M for j = 1..255. The flag is set and the stream is kept. |
| Lehmer.UnsignedCast | src/generate/generate.c:122 | The cast of a 32-bit int to unsigned is the residue modulo 2^32. |
| Lehmer.SelectStream | src/generate/generate.c:121-125 | The stream becomes index mod 256. Before planting, choosing a nonzero stream plants DEFAULT; otherwise the seeds are unchanged. |
| Vectors.Init | src/utils/entities.c:6-24 | No elements and capacity 32. vector.c:6-19 does the same for `allocated_size`. |
| Vectors.Add | src/utils/entities.c:26-42 | The value goes last and earlier values stay. Capacity grows by exactly 32, and only when the vector is full, so length <= capacity is kept. vector.c:21-39 does the same for `allocated_size`. |
| Vectors.Reset | src/utils/entities.c:63-76 | As written: the reset succeeds iff the capacity is already 32 or the first stored value is not NULL, and then the vector is empty with capacity 32. On failure it returns -1 with length and capacity untouched, over a buffer of 32 slots. |
| Vectors.ResetCorrected | src/utils/entities.c:63-76 | With the pointer returned by realloc tested instead, a reset always gives the empty vector of capacity 32, the same as a fresh vector. |
| Vectors.ResetWithoutNulls | src/utils/entities.c:63-76 | When no stored value is NULL, as with the tuple pointers the time-indexed builder stores, the reset as written succeeds with exactly the corrected result. |
| Vectors.ResetNullFirst | src/utils/entities.c:64-70 | A vector of capacity 64 holding 33 values, the first NULL, fails to reset and keeps capacity 64 and length 33 over a 32-slot buffer. |
| Vectors.Refit | src/utils/entities.c:50-61 | As written, on a non-empty vector: success iff the capacity already equals the length or the first value is not NULL. Success keeps the elements with capacity equal to the length, and nothing changes when they were already equal. Failure leaves the vector over a buffer of length slots. |
| Vectors.RefitCorrected | src/utils/entities.c:50-61 | With the pointer tested instead, capacity becomes the length and the elements are kept. |
| Vectors.RefitIdempotent | src/utils/entities.c:50-61 | Refitting a successfully refitted vector again succeeds and changes nothing. |
| Vectors.RefitNullFirst | src/utils/entities.c:53-58 | Five values in 32 slots, the first NULL: the refit fails and reports capacity 32 over a 5-slot buffer. |
| Vectors.AddAllContents | src/utils/entities.c:26-42 | Successive adds append the values in order. |
| Vectors.AddAllCapacity | src/utils/entities.c:28-38 | From the least sufficient multiple of 32, adds keep the capacity at the least multiple of 32 (at least 32) that holds the elements. |
| Vectors.AddsFromInit | src/utils/entities.c:6-42 | From init, n adds give exactly those values and capacity 32 * max(1, ceil(n / 32)). |
| Csv.ToInstance | src/utils/csv.c:49-51 | An emitted buffer becomes an instance with number_of_jobs equal to the rows buffered, and its p and r in row order. |
| Csv.Step | src/utils/csv.c:35-68 | One loop iteration: the row is buffered, old_instance_number becomes the number read, and one buffer is emitted (earlier ones kept) exactly when the number changed. Emitted plus open rows grow by exactly that row. |
| Csv.Run | src/utils/csv.c:35-68 | After the loop, old_instance_number is the last number read (1 before any row), and one buffer was emitted per change of number. |
| Csv.RunInvariant | src/utils/csv.c:35-68 | The emitted buffers and the open buffer hold the rows read, in order. old_instance_number is the number last read. One buffer is emitted per change of number. |
| Csv.AsWrittenCountAndRows | src/utils/csv.c:35-81 | As written, there are (number of changes) + 1 instances, and together they hold every row, in order. |
| Csv.LoadAsWritten | src/utils/csv.c:35-81 | As written: one instance per change of number plus the last one added after the loop. |
| Csv.AsWrittenGroupsBounded | src/utils/csv.c:28-41 | Where every write stays inside a 50-entry buffer, no instance has more than 50 jobs. |
| Csv.AsWrittenMisgroups | src/utils/csv.c:39-53 | As written, rows of instances 1 then 2 give one instance holding both rows and one empty instance. |
| Csv.CorrectedGroups | src/utils/csv.c:35-81 | Comparing before buffering keeps every row in order, and the groups are exactly the maximal runs of one instance number. |
| Csv.LoadCorrected | src/utils/csv.c:35-81 | Corrected: one instance per maximal run of one instance number, and none of them is empty. |
| Csv.GroupRunCount | src/utils/csv.c:35-81 | The corrected loop closes one buffer per run start except the last, which stays open whenever a row was read. |
| Csv.CorrectedSeparates | src/utils/csv.c:43-53 | The corrected loop gives one instance per number on the misgrouped rows. |

## Left out

- Gurobi itself is left out: environment and model creation, parameters, the solve, attribute reads and `GRBwrite`. Its calls are modelled as appending to a `ModelSpec`. `GRBaddvars` is passed lb = NULL (model.c:137, 301), so Gurobi bounds every column below by 0. `Milp.Feasible` bounds only the BINARY columns and leaves INTEGER columns unbounded. No stated property depends on this: `Precedence.DisjunctionMeaning` takes completion times in [p, M], and the positional model has explicit non-negativity rows.
- Variable names (`formatted_string`) are left out. Only the index arithmetic of the precedence name slots is kept, because that is where a defect lies.
- `realloc_constr` is left out. Each builder writes every one of the `c_size` cells of both buffers before each row is added, so the zeroing is never observable. A row is modelled as a fresh sequence, and the allocation-failure path is memory management.
- `create_tuple` is modelled as the `Term` constructor (column, coefficient) and, for the time-indexed variables, as the objective of a `Var`. Its allocation-failure path is left out.
- The time-indexed builder stages entries through a vector of tuples (`vector_reset`, `vector_add`); the model builds the same entry list directly.
- `model_optimize` is reduced to the solution's size and values. Status, runtime and objective come from the solver. The source reads the solution as `double`s, and the model takes them as `int` values, because floating point is not modelled.
- The heuristic solver is left out: it has no builder in the code.
- `rng`'s double result and `uniform` are left out because they are floating point. `put_seed`'s x == 0 branch reads from the console and its x < 0 branch stores a negative seed. `generate()` writes files.
- `vector_free` and every allocation-failure path of the vectors are left out. Only length, capacity and the stored prefix are modelled.
- `load_csv`'s file handling, `fscanf`/`feof` behaviour and header skip at line 18 are left out. The loop is modelled over rows already parsed after the header. Only the first `r_js` has a known size, 50 (`NUMBER_OF_JOBS_UL[2]`, csv.c:28). Every other buffer is sized by `NUMBER_OF_JOBS_UL[ARRAY_SIZE]`: the first `p_js` (csv.c:22) and both buffers allocated again after each emit (csv.c:56, 61). `ARRAY_SIZE` is not defined in the files modelled, and the model assumes that size is 50 too.
- `run.c`, `main.c`, folder creation, logging and `c_print` are I/O and are left out.
- Scheduling.Valid: the model covers instances with n >= 1, r_j >= 0 and p_j >= 1. The first two are what the builders need: with n = 0 the precedence loop bound `n - 1` wraps as `size_t`, and a negative release date would become a negative row size in the time-indexed release loop. Positive processing times are a modelling convenience, not something the source checks. With p_j = 0 the time-indexed slot loop adds nothing for job j, and its block has T + 1 entries. The `feof` loop in `utils/csv.c:35-41` can also append a phantom row (0, 0) after the last line. Neither case is modelled.
- TimeIndexed.TimeIndexedCreate: 32-bit overflow of `big_t`, of the offsets and of the column indices is not modelled. Integers are unbounded, which matches the code for instances of the generated sizes (at most 50 jobs, p <= 15, r <= 25).
- Positional.PositionalCreate: `n + j * n + h` and `n * n` are unbounded. Overflow of `int` for very large n is not modelled.
- Sorting.QuickSort: the arrays are modelled as a sequence of (r_j, p_j) jobs, since both arrays are always swapped at the same indices (`Sorting.SwapZip`). Recursion depth is not modelled.
- Lehmer.PutSeed: only x > 0 with x mod M != 0 is modelled. The other values take the console or negative-seed branches.
- Lehmer.PlantSeeds: only seeds x > 0 with x mod M != 0 are modelled, so `plant_seeds(-1)` from `generate()` is excluded. C's truncating `%` and `/` on a negative seed are not modelled.
- Vectors.Refit: requires a non-empty vector. `realloc(values, 0)` may return NULL or a pointer that must not be dereferenced, and line 55 dereferences it.
- Csv.LoadAsWritten: requires every write to stay inside a 50-entry buffer. That is the source's size only for the first `r_js` (csv.c:28). For the first `p_js` and for every buffer after an emit, the size is `NUMBER_OF_JOBS_UL[ARRAY_SIZE]` (csv.c:22, 56, 61), and 50 is an assumption of the model. The overflow itself is undefined behaviour.

## Findings

| source | as written | input that shows it | evidently intended | confidence | as-written member | corrected member |
|---|---|---|---|---|---|---|
| src/run/model/model.c:142 | `return 0;` right after `GRBaddvars`, so lines 144-249 never run and the model has no constraints | the runner's instance p = (3,1,4), r = (5,0,2): 6 variables, 0 rows | add the release rows and both disjunctive rows per pair | high (not executed) | Precedence.PrecedenceCreate | Precedence.PrecedenceCorrected |
| src/run/model/model.c:133 | name slot `n + i + j - 1` and row column `i + j + 2` | n = 4: pairs (0,3) and (1,2) share slot 6, and pair (0,1) uses column 3 = C_4 | one slot per pair, n + triangular index, used for both name and column | high (not executed) | Precedence.AsWrittenSlotsFourJobs | Precedence.TriangularSlotsSound |
| src/utils/csv.c:39-43 | the row is buffered before the instance number is compared, so a new instance's first row closes the previous one | rows (1,3,5), (2,1,0): instances {(3,5),(1,0)} and {} | compare first, then buffer: one instance per run of one number | high (not executed) | Csv.AsWrittenMisgroups | Csv.CorrectedGroups |
| src/utils/entities.c:55, src/utils/entities.c:67 | `*vector->values == NULL` tests the first stored value, not the pointer realloc returned | a reset of 33 values, the first NULL, at capacity 64: returns -1 and keeps capacity 64 over a 32-slot buffer | `vector->values == NULL` after realloc, as `vector_add` does | high (not executed) | Vectors.ResetNullFirst | Vectors.ResetCorrected |
| src/run/model/model.c:584 | `big_t - tau < p_j` skips job j from the row of slot tau, although completions at or before T still occupy tau | p = (3,1), r = (0,0): job 0 done at 3 and job 1 done at 3 both run in slot 2, and x is feasible | keep the job and cut its range at the block end T - p_j | medium (not executed) | TimeIndexed.SkipAdmitsOverlap | TimeIndexed.ClampedFeasibleIff |
