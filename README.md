# Parallelism benchmarks: partitions, kernels and the task server, in Dafny

This project models the sequential logic inside three of the repository's
parallel benchmarks and proves what that logic promises.

- **task2.1** (`block_partition.dfy`, `flat_matvec.dfy`). This is the static
  block partition that an OpenMP parallel region uses to split `0..m-1` among
  `p` threads. Thread `t` gets `[t*(m/p), t*(m/p)+m/p-1]` and the last thread
  gets `[(p-1)*(m/p), m-1]`. The partition is proved disjoint, contiguous and
  exactly covering. task2.2 (lines 43-47) and task2.3.2 (lines 30-34) use the
  same formula, so this model covers them too. Around it sit the row-major
  matrix-vector product `c[i] = sum_j a[i*n+j]*b[j]` and the loops that fill
  `a[i*n+j] = i+j` and `b[j] = j`. Each exists in a serial form and a per-thread
  form, both on arrays updated in place. Both forms are proved to produce the
  same specification value.
- **task3.1** (`range_split.dfy`). This is a matrix-vector product over rows
  `[lb, ub)` and an array initialisation over `[start, end)`. Both are in-place
  loops on integer arrays. `main` splits the rows as `[k*r, (k+1)*r)` with
  `r = M/p`. The union of these ranges is `[0, p*r)`, which reaches `M` only
  when `p` divides `M`.
- **task3.2** (`task_server.dfy`). This is the task server: a `Server` class
  with the fields `taskQueue`, `results` and `isRunning`. Each critical section
  is an atomic method. The worker thread's position in `process_tasks` is a
  `phase` field. A blocking `cv.wait` is a precondition. The invariant says:
  record `k` of `results` is the `k`-th submitted task, processed. The task in
  flight and the queue are the submitted tasks that have no record yet, in
  order.

A parallel region or a set of `std::thread`s is modelled as the threads'
bodies run one after another in thread-id order. Each thread's method is
specified on whatever the output array holds when it starts: it writes only
the entries of its own range, with values that depend only on the inputs,
and leaves every other entry as it was. The ranges are proved disjoint, so
running the threads in any other order writes the same values.

The model follows the code, including these behaviours of the server:
- ids come from `results.size()`, so they can repeat;
- an unknown `operation_type` leaves `result` as it was instead of recording an error;
- `request_result` for an id never issued blocks instead of failing;
- a second `stop()` joins a thread that is no longer joinable, which throws;
- a second `start()` assigns to a joinable `std::thread`, which terminates the program.

## Model

| member | source | states |
|---|---|---|
| BlockPartition.Lower | task2/task2.1/task2.1.cpp:35-36 | lb = threadid * (m / nthreads); no thread of the team starts beyond m |
| BlockPartition.Upper | task2/task2.1/task2.1.cpp:35-37 | ub is m-1 for the last thread and lb + m/nthreads - 1 otherwise; every thread's ub is below m and at least lb - 1 |
| BlockPartition.RangeLength | task2/task2.1/task2.1.cpp:35-37 | a thread before the last gets exactly m/p indices and the last gets m/p + m%p; the first range starts at 0 and the last ends at m-1 |
| BlockPartition.RangesContiguous | task2/task2.1/task2.1.cpp:35-37 | thread t+1's lb is thread t's ub + 1; each range lies within 0..m-1; after the last thread every index below m is covered |
| BlockPartition.RangesDisjoint | task2/task2.1/task2.1.cpp:35-37 | for threads s < t, thread s's ub is below thread t's lb |
| BlockPartition.OwnerHolds | task2/task2.1/task2.1.cpp:35-38 | every index below m lies in the range of thread Owner(i), which is a valid thread id |
| BlockPartition.OwnerExact | task2/task2.1/task2.1.cpp:33-43 | index i lies in thread t's range if and only if t is Owner(i), so every row is computed by exactly one thread |
| FlatMatVec.ProductAt | task2/task2.1/task2.1.cpp:17-25 | entry i of the product is the sum over j < n of a[i*n+j]*b[j], for every i < m |
| FlatMatVec.ComputeRow | task2/task2.1/task2.1.cpp:21-23 | c[i] becomes row i of a times b; every other entry of c is unchanged |
| FlatMatVec.ComputeRows | task2/task2.1/task2.1.cpp:38-43 | whatever c held, c[k] becomes entry k of the product for lo <= k < hi, and every other entry of c is unchanged |
| FlatMatVec.MatrixVectorProduct | task2/task2.1/task2.1.cpp:17-25 | c[0..m) becomes the product, c from m on is unchanged, and a and b are not written |
| FlatMatVec.ProductThread | task2/task2.1/task2.1.cpp:33-43 | whatever c held, thread t sets c[k] to entry k of the product for lb <= k <= ub and changes no other entry; its range lies within 0..m-1 |
| FlatMatVec.MatrixVectorProductOmp | task2/task2.1/task2.1.cpp:29-45 | running every thread's share in turn leaves c equal to what the serial product gives |
| FlatMatVec.InitRowsSplit | task2/task2.1/task2.1.cpp:63-67 | the initialised rows lo..hi-1 are the rows lo..mid-1 followed by the rows mid..hi-1, so thread blocks join into the whole matrix |
| FlatMatVec.InitMatrixAt | task2/task2.1/task2.1.cpp:63-67 | the initialised matrix holds i+j at row-major position i*n+j, for every i < m and j < n |
| FlatMatVec.FillRow | task2/task2.1/task2.1.cpp:65-66 | row i of a becomes i, i+1, ..., i+n-1; nothing else in a changes |
| FlatMatVec.FillRows | task2/task2.1/task2.1.cpp:108-112 | whatever a held, the block of rows lo..hi-1 becomes the initialised rows lo..hi-1 and every entry outside it is unchanged |
| FlatMatVec.FillEntries | task2/task2.1/task2.1.cpp:118-119 | whatever b held, b[j] becomes j for lo <= j < hi and every other entry is unchanged |
| FlatMatVec.InitSerial | task2/task2.1/task2.1.cpp:63-70 | a[0..m*n) becomes the initialised matrix and b[0..n) the vector 0..n-1; nothing else changes |
| FlatMatVec.InitThread | task2/task2.1/task2.1.cpp:102-119 | whatever a and b held, thread t initialises exactly its block of rows of a and its entries of b, each range lying within the array, and changes nothing else |
| FlatMatVec.InitParallel | task2/task2.1/task2.1.cpp:100-120 | with 1 <= p <= m and p <= n, the partitioned initialisation writes what the serial initialisation writes |
| RangeSplit.MatrixVectorProduct | task3/task3.1/task3.1.cpp:6-12 | result[i] becomes row i of matrix times vector for lb <= i < ub; other entries keep their value; a non-empty range must lie within matrix and result and its rows be no longer than vector |
| RangeSplit.ParallelArrayInit | task3/task3.1/task3.1.cpp:14-17 | entry i becomes i for start <= i < end; every other entry keeps its value |
| RangeSplit.RangeSize | task3/task3.1/task3.1.cpp:38 | range_size = M / p is the largest r with p * r <= M |
| RangeSplit.Start | task3/task3.1/task3.1.cpp:41 | thread k starts at k * range_size, and a thread of the team has a whole range_size of rows before M |
| RangeSplit.End | task3/task3.1/task3.1.cpp:41 | thread k ends at (k+1) * range_size (at M for the last thread when it absorbs the remainder); a thread of the team ends between its start and M |
| RangeSplit.SplitStep | task3/task3.1/task3.1.cpp:38-41 | thread k's range starts where thread k-1's ended and lies within [0, Reach), with Reach <= M |
| RangeSplit.SplitDisjoint | task3/task3.1/task3.1.cpp:38-41 | the ranges of two distinct threads share no row, so their calls commute |
| RangeSplit.CoveredBelowReach | task3/task3.1/task3.1.cpp:38-41 | every row below Reach is in some thread's range |
| RangeSplit.CoveredIff | task3/task3.1/task3.1.cpp:38-41 | a row below M is in some thread's range if and only if it is below Reach (p*(M/p) as written) |
| RangeSplit.ReachIsM | task3/task3.1/task3.1.cpp:38 | the ranges cover all M rows if and only if p divides M (or the last thread absorbs the remainder) |
| RangeSplit.SevenThreadsLeaveRowOut | task3/task3.1/task3.1.cpp:21-41 | with M = 20000 and 7 threads the ranges end at 19999 and row 19999 is in no range |
| RangeSplit.AbsorbingSplitCovers | task3/task3.1/task3.1.cpp:38-41 | when the last thread ends at M, every row below M is in exactly one thread's range |
| RangeSplit.DotOnesPrefix | task3/task3.1/task3.1.cpp:32-34 | a prefix of a row of ones times the initialised vector has the closed form sum of 0..q-1 plus 2 per untouched entry |
| RangeSplit.DotOnes | task3/task3.1/task3.1.cpp:32-34 | twice a covered row's result is q*(q-1) + 4*(M-q), where q is the number of initialised entries |
| RangeSplit.MainIteration | task3/task3.1/task3.1.cpp:32-54 | after both thread rounds, vector[i] is i below Reach and still 2 from Reach on; result[i] is the row product below Reach and still 0 from Reach on |
| TaskServer.Process | task3/task3.2/task3.2.cpp:71-77 | the record keeps id, type and argument; its result is sin, sqrt or the square for types 1, 2, 3 and unchanged otherwise |
| TaskServer.Server.constructor | task3/task3.2/task3.2.cpp:22-27 | the server starts with an empty queue and no records, running, its worker not started |
| TaskServer.Server.Start | task3/task3.2/task3.2.cpp:31-33 | the worker thread starts at the loop test; only once |
| TaskServer.Server.AddTask | task3/task3.2/task3.2.cpp:43-49 | returns the current number of records, appends the task with that id to the queue, and changes nothing else |
| TaskServer.Server.AddTaskNumbered | task3/task3.2/task3.2.cpp:43-49 | the corrected add_task: returns the task's submission position as its id |
| TaskServer.Server.RequestResult | task3/task3.2/task3.2.cpp:52-56 | callable only when more than idRes records exist; returns record idRes, which is the idRes-th submitted task processed; changes nothing |
| TaskServer.Server.Stop | task3/task3.2/task3.2.cpp:36-38 | isRunning becomes false and nothing else changes |
| TaskServer.Server.LoopHead | task3/task3.2/task3.2.cpp:61 | the worker goes on to wait if the server is running and exits for good otherwise |
| TaskServer.Server.Take | task3/task3.2/task3.2.cpp:63-68 | with a non-empty queue, the worker removes the front task and holds it |
| TaskServer.Server.Finish | task3/task3.2/task3.2.cpp:70-82 | the held task, processed, is appended to the records |
| TaskServer.Server.WorkerAfterStop | task3/task3.2/task3.2.cpp:36-84 | after stop(), a worker at the loop test exits at once; one holding a task, or waiting with a task queued, first records that task (the front one), then exits; the rest of the queue stays unprocessed |
| TaskServer.Server.WorkerIteration | task3/task3.2/task3.2.cpp:60-84 | one uninterrupted loop iteration on a running server with a non-empty queue removes the front task and appends it, processed, to the records |
| TaskServer.FifoOrder | task3/task3.2/task3.2.cpp:43-82 | the records without their results, then the task in flight, then the queue, are the submitted tasks in call order |
| TaskServer.SameIdTwice | task3/task3.2/task3.2.cpp:43-56 | two submissions with no worker step in between both get id 0, and request_result of the second id returns the first task's record |
| TaskServer.DistinctIds | task3/task3.2/task3.2.cpp:43-56 | with ids numbered by position, the two submissions get ids 0 and 1, and request_result of the second id returns the second task's record |
| TaskServer.StopAbandonsQueue | task3/task3.2/task3.2.cpp:36-67 | with the worker at its loop test, a task queued when stop() runs never reaches the records: the worker exits at that test |
| TaskServer.StopWhileWaiting | task3/task3.2/task3.2.cpp:36-84 | with the worker inside cv.wait, a task queued when stop() runs is still taken and recorded before the worker exits |

## Findings

| source | as written | input that shows it | evidently intended | confidence | as-written member | corrected member |
|---|---|---|---|---|---|---|
| task3/task3.1/task3.1.cpp:38-41 | thread k handles rows [k*(M/p), (k+1)*(M/p)), so rows p*(M/p)..M-1 belong to no thread | M = 20000 (the default) and p = 7 (in the thread list): row 19999 keeps vector 2 and result 0 | every row is computed; the last thread takes the remainder, as task2.1's partition does | high; not executed | RangeSplit.SevenThreadsLeaveRowOut | RangeSplit.AbsorbingSplitCovers |
| task3/task3.2/task3.2.cpp:45 | a task's id is results.size() at submission | two add_task calls before the worker finishes a task both return 0; request_result(0) then returns the first task for both | an id names its own task, so request_result(add_task(t)) returns t's record | high; not executed | TaskServer.SameIdTwice | TaskServer.DistinctIds |

`RangeSplit.MainIteration` takes the split as a flag: `false` is the code as
written and `true` is the corrected split. The server keeps `AddTask` as
written. `AddTaskNumbered` is the corrected submission that `DistinctIds` uses.

## Left out

- Floating point. The kernels of task2.1 and task3.1 are computed over unbounded integers, so rounding of doubles is not modelled. The values of sin, sqrt, pow and static_cast in task3.2 are function parameters (`Kernels`), so only the dispatch on operation_type is modelled.
- RangeSplit.MatrixVectorProduct: uses unbounded integers, so the C++ `int` overflow of large sums is not modelled. With main's data the largest sum is below 2^31.
- FlatMatVec.MatrixVectorProductOmp: the `int` index `i * n + j` is unbounded here. With the default 20000 x 20000 it stays below 2^31.
- FlatMatVec.MatrixVectorProduct: requires c to be distinct from a and b. The callers always pass separately allocated arrays.
- FlatMatVec.InitParallel: requires 1 <= p <= m and p <= n. With an empty thread range, the source's `size_t i <= int ub` loop runs past the array.
- Threads, mutexes and condition variables. A critical section is one atomic method. A wait is a precondition. A parallel region runs its threads in thread-id order. The team size p stands for what omp_get_num_threads returns.
- TaskServer.Server.Take: requires a non-empty queue. When stop() wakes a worker waiting on an empty queue, the source calls front() and pop() on the empty std::queue, which is undefined.
- TaskServer.Server.Stop: the join in stop() is not modelled. The join waits for phase Exited, and a second stop()'s join throws.
- TaskServer.Server.Stop: modelled as one atomic step, but stop() writes isRunning and calls notify_all without holding mtx, and line 61 reads the flag unlocked. That is a data race. It also allows a lost wake-up: the worker finds the wait condition false, stop() sets the flag and notifies, and only then does the worker block, so it waits for ever and the join hangs. The model does not capture this.
- The `client` helper of task3.2 and its random arguments are not modelled. main's reads at i + N*k, which assume the three clients did not interleave, are not modelled either.
- The file output of task3.2, all timing (cpuSecond, omp_get_wtime, std::chrono), printing, argument parsing, and run_serial/run_parallel's allocation check with exit(1) are I/O and are not modelled.
- main's loop over the thread counts {1, 2, 4, 7, 8, 16, 20, 40} is not modelled, and neither is the reassignment of its `threads` vector. MainIteration models one pass. Of those counts, only 7 does not divide 20000.
- task1, task2.2, task2.3 (all variants), task4 and task5 are not part of this model: floating-point integration and solvers, sensors and video I/O. The partitions of task2.2 and task2.3.2 are the formula modelled in BlockPartition.
