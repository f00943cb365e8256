# Gaussian elimination with partial pivoting, modelled in Dafny

The repository solves a dense n × n linear system A x = b. It uses Gaussian elimination
with partial pivoting, then back-substitution. The same algorithm appears in several forms:

- a sequential reference (utils.c);
- two OpenMP programs (openmp.c, openmp_version.c);
- two Pthreads programs (pthread.c, pthread_version.c);
- two MPI programs (mpi.c, mpi_version.c).

The model uses exact `real` arithmetic for matrix entries and `int` for all indices.
The thresholds 1e-12 (pivot), 1e-9 and 1e-6 (residual checks) are real constants.

The model is layered:

- **LinAlg** (linalg.dfy): vectors, matrices, the left-to-right sums the loops accumulate, and "x solves A x = b".
- **Gauss** (gauss.dfy): the algorithm of utils.c as functions. This is the specification every variant is proved against:
  - `Pivot`: the first row of maximal |A[i][k]|;
  - `Swap`, `Eliminate`, one `Step`, the forward phase `ForwardFrom`, `BackSubst`;
  - `Solve`: returns `Singular` or `Solved(S, x)`.

  Lemmas prove:
  - the pivot is the first maximal row;
  - a swap permutes the equations;
  - each step keeps the solution set and zeroes column k below the diagonal;
  - back-substitution solves the upper-triangular system, and its answer is the only solution;
  - a successful `Solve` solves the original system.
- **Utils** (utils.dfy): a `LinearSystem` class with array fields A (rows as values), b and x, plus the sequential solver as methods that update those arrays in place. The class also has `copy_system` and `verify_solution`.
- **OpenMP** (openmp.dfy): each OpenMP parallel loop runs its iterations one after another, in an order the caller supplies (a *schedule*). A lemma shows that any order gives the sequential result.
- **Partition** (partition.dfy):
  - the thread chunks of the Pthreads programs, where the last chunk takes the remainder;
  - the balanced rank blocks of the MPI programs, where the first n mod p ranks get one extra row;
  - the owner lookup loop.
- **Pthread** and **PthreadVersion** (pthread.dfy, pthread_version.dfy):
  - per-thread scans;
  - the mutex-guarded "keep the strictly larger" merge, in any join order;
  - per-thread elimination on its own rows;
  - swap, final check and back-substitution.
- **Mpi** (mpi.dfy): mpi.c as a bulk-synchronous simulation. A `Cluster` object holds one `RankState` (a copy of A, b and x) per rank, and the distributed system is read row by row from the owning ranks.
  - Collectives are functions:
    - MAXLOC (section 5.9.4 of the MPI-3.1 standard): the larger value wins, and ties go to the lower rank;
    - `MPI_Bcast` copies the root's buffer to every rank;
    - a Send/Recv pair copies a row between ranks;
    - the barrier does nothing.
  - The corrected MPI step is proved equal to a step of `Gauss`.
  - mpi.c's step as written (`StepAsWritten`) is modelled too. It equals that step except when one rank owns both row k and the pivot row g ≠ k.
- **MpiVersion** (mpi_version.dfy): the overwrite-only relocation of mpi_version.c and its fixed, diagonally dominant test system.
- **Demo** (demo.dfy): the 3 × 3 demonstration system of main.c, solved step by step.

On main.c's demonstration system 2x + y + z = 8, x + 3y + z = 11, x + y + 4z = 16 the sequential solver returns (23/17, 37/17, 53/17); `Demo.DemoSolved` proves it.

Parameters stand in for what the programs take from outside:

- the thread count T;
- the OpenMP iteration orders;
- the number of MPI ranks p;
- the join order of the Pthreads merge.

## Model

| member | source | states |
|---|---|---|
| Gauss.ScanSpec | utils.c:169-174 | The strict-`>` scan over rows [lo, hi) keeps its start pair unless some row beats it. It then returns the first row reaching the maximum of the scanned values, and that value bounds every scanned row. |
| Gauss.FirstMaxUnique | utils.c:166-174 | The first row of maximal \|A[i][k]\| in a range is unique. |
| Gauss.Pivot | utils.c:166-174 | `max_row` is the smallest i ≥ k whose \|A[i][k]\| is maximal over rows k..n-1. |
| Gauss.SwapPermutes | utils.c:183-193 | Exchanging rows k and p of A together with b[k] and b[p] permutes the equations (equal multisets). Rows k and p are exchanged and every other row and b entry stays. |
| Gauss.SwapSameSolutions | utils.c:183-193 | The row exchange keeps the solution set of A x = b. |
| Gauss.ElimRow | utils.c:199-202 | The updated row has 0 in column k, and its columns before k are untouched. |
| Gauss.PartialElimAdd | utils.c:196-204 | Eliminating one more row i > k changes only row i of A and b[i], by the update of that row. |
| Gauss.PartialElimSkip | pthread.c:166-176 | Adding a row i ≤ k to the rows handed to an elimination loop changes nothing, because the `i > k` guard skips it. |
| Gauss.PartialElimBelowOnly | pthread_version.c:94-104 | With the `i > k` guard, eliminating over every row of [0, n) gives the same system as eliminating rows k+1..n-1. |
| Gauss.Eliminate | utils.c:196-204 | Rows 0..k and b[0..k] are unchanged. Each row i > k becomes the row update of row i by row k, and b[i] becomes b[i] − (A[i][k]/A[k][k]) b[k]. |
| Gauss.ElimRowDot | utils.c:197-203 | For every x, the updated row's dot product with x is the old one minus the factor times the pivot row's, when the pivot row is zero before column k. |
| Gauss.EliminatedRowDot | utils.c:196-204 | In the eliminated system, equation i > k is equation i minus (A[i][k]/A[k][k]) times equation k. |
| Gauss.EliminatedRowHolds | utils.c:196-204 | When the pivot equation k holds at x, equation i of the eliminated system holds at x iff equation i of the original does. |
| Gauss.EliminateSameSolutions | utils.c:196-204 | Elimination below a pivot row that is zero before column k keeps the solution set. |
| Gauss.StepSpec | utils.c:164-204 | One step k keeps the solution set and leaves rows < k alone. It fails exactly when the maximal \|A[i][k]\| is below 1e-12, and then changes nothing. On success row k is the pivot row, column k is zero below the diagonal, and the echelon invariant extends to k+1. |
| Gauss.SwapKeepsEchelon | utils.c:183-193 | Exchanging row k with a row p ≥ k keeps columns < k zero below the diagonal and the diagonal before k large enough. |
| Gauss.EliminateExtendsEchelon | utils.c:196-204 | With a pivot of at least 1e-12, after step k column k is zero below the diagonal and A[k][k] ≠ 0. |
| Gauss.ForwardFromFails | utils.c:177-180 | A maximal \|A[i][k]\| below 1e-12 ends the forward phase with failure and the system as it is. |
| Gauss.ForwardFromPasses | utils.c:164-205 | Otherwise the forward phase continues from the swapped and eliminated system, with a nonzero pivot. |
| Gauss.ForwardFromUnfold | utils.c:164-205 | The forward phase from k is step k followed, on success, by the forward phase from k+1. |
| Gauss.ForwardFromSpec | utils.c:164-205 | The forward phase keeps the solution set. When every step passes, it leaves A upper triangular with \|A[i][i]\| ≥ 1e-12 for i < n-1. |
| Gauss.BackLoopSpec | utils.c:214-224 | The descending loop leaves x[t] for t ≥ i alone. For every t < i it sets x[t] = (b[t] − Σ_{j>t} A[t][j] x[j]) / A[t][t]. |
| Gauss.BackLoopReadsWritten | utils.c:214-224 | The result does not depend on the initial contents of x below i: every x[i] is written before it is read. |
| Gauss.BackSubstSolves | utils.c:214-224 | On an upper-triangular system with nonzero diagonal, back-substitution solves A x = b exactly. |
| Gauss.BackSubstUnique | utils.c:214-224 | Any solution of such a system is the back-substituted x. |
| Gauss.SolveCases | utils.c:157-227 | The solver succeeds iff the forward phase passes every step and the final \|A[n-1][n-1]\| ≥ 1e-12. It then returns the back-substitution of the reduced system. |
| Gauss.SolveCorrect | utils.c:157-227 | On success the reduced A is upper triangular with nonzero diagonal. x solves both the reduced and the original system and is their only solution. The reduced system always has the same solutions as the input. |
| Demo.DemoStep0 | main.c:46-52 | Step 0 on the demo system keeps row 0 as pivot and gives rows [0, 2.5, 0.5 \| 7] and [0, 0.5, 3.5 \| 12]. |
| Demo.DemoStep1 | main.c:46-52 | Step 1 keeps row 1 as pivot and gives the last row [0, 0, 3.4 \| 10.6]. |
| Demo.DemoForward | main.c:46-52 | Both forward steps on the demo system pass the 1e-12 test and reach the upper-triangular system with last row [0, 0, 3.4 \| 10.6]. |
| Demo.DemoSolution | main.c:46-52 | x = (23/17, 37/17, 53/17) satisfies all three demo equations exactly. |
| Demo.DemoSolved | main.c:64 | The sequential solver succeeds on the demo system with x = (23/17, 37/17, 53/17). |
| Utils.LinearSystem.constructor | utils.c:6-21 | `create_system` gives fresh, separate storage for an n × n matrix and two n-vectors. |
| Utils.CopySystem | utils.c:141-151 | dest's A and b become src's, and every dest x[i] becomes 0. |
| Utils.RowTimes | utils.c:116-119 | The inner loop's sum is the dot product of row i with x. |
| Utils.CheckResiduals | utils.c:115-128 | Returns true iff every residual \|A[i]·x − b[i]\| ≤ tol. |
| Utils.VerifySolution | utils.c:111-129 | `verify_solution` returns 1 iff every residual is at most 1e-6. |
| Utils.ExactSolutionWithin | utils.c:121 | An exact solution passes the residual test for any tolerance ≥ 0. |
| Utils.FindPivot | utils.c:166-174 | The loop returns `Pivot` and its \|A[max_row][k]\|. |
| Utils.SwapRows | utils.c:183-193 | The arrays afterwards hold the system with rows k and p exchanged in A and b together. |
| Utils.ReduceRow | utils.c:200-202 | The column loop j = k..n-1 computes the row update. |
| Utils.EliminateRow | utils.c:197-203 | Only row i of A and b[i] change, to their updates against row k. |
| Utils.EliminateOneMore | utils.c:197-203 | Eliminating one more row i > k extends the set of eliminated rows by i and keeps the pivot row k. |
| Utils.EliminateBelow | utils.c:196-204 | The elimination loop of step k turns the arrays into `Eliminate` of their old contents. |
| Utils.SubstituteRow | utils.c:215-223 | One pass of the outer loop sets x[t] to (b[t] − Σ_{j>t} A[t][j] x[j]) / A[t][t] from the x it found and changes no other entry. |
| Utils.BackSubstitute | utils.c:214-224 | The descending loop writes x = `BackSubst` of the system held. |
| Utils.ForwardEliminate | utils.c:164-205 | The k loop ends with the outcome of the forward phase: the reduced system and whether every pivot passed. |
| Utils.GaussianEliminationSequential | utils.c:157-227 | Returns 1 iff `Solve` succeeds. The arrays end as `Solve`'s reduced system. On success x is the solution; on failure x is untouched. |
| Utils.SolvedPassesVerification | utils.c:111-129 | With exact arithmetic, a successful solve passes `verify_solution` on the reduced and on the original system. |
| Partition.ThreadChunk | pthread.c:199-215 | `start_row` is base + i·(len/T) and `end_row` is base + (i+1)·(len/T), plus len mod T for the last thread: the chunk bounds used by every Pthreads loop. |
| Partition.ChunksTile | pthread.c:200-215 | The pivot-search chunks of [k, n) tile it. Chunk 0 starts at k, each chunk ends where the next starts, the last ends at n, and chunk i has (n−k)/T rows plus (n−k) mod T for the last. |
| Partition.ChunksOrdered | pthread.c:259-271 | Chunks are ordered and disjoint. |
| Partition.ChunkOwnerUnique | pthread_version.c:127-141 | Every row of the tiled range lies in exactly one thread's chunk. |
| Partition.ChunkBounds | pthread.c:262-271 | Each chunk lies inside the tiled range. |
| Partition.BlocksTile | mpi.c:132-136 | For every p ≥ 1 the rank blocks tile [0, n): rank 0 starts at 0, each block ends where the next starts, the last ends at n. |
| Partition.BlocksBalanced | mpi.c:132-136 | A lower rank holds as many rows as a higher one or one more, and the blocks cover n rows. |
| Partition.BlocksWhenRanksExceedRows | mpi.c:132-136 | With p > n, ranks below n hold one row each, starting at their own index, and the others hold none. |
| Partition.BlocksOrdered | mpi.c:132-136 | Blocks of lower ranks end before blocks of higher ranks start. |
| Partition.OwnerFrom | mpi.c:158-165 | The search from rank r returns -1 or a rank ≥ r whose block holds row k. |
| Partition.RowOwner | mpi.c:158-165 | For 0 ≤ i < n the owner is a rank whose block holds i. |
| Partition.BlockOwner | mpi.c:158-165 | A rank whose block holds i is the owner of i. |
| Partition.OwnerCorrect | mpi.c:158-165 | For 0 ≤ k < n the lookup returns the unique rank whose block holds k. Otherwise it is -1. |
| Partition.FindOwner | mpi.c:158-165 | The lookup loop with `break` computes the owner. It reads only n, p and k, so every rank computes the same owner; mpi_version.c:76-83 is the same loop. |
| Partition.OwnRowEach | mpi.c:132-165 | With p ≥ n ranks, row i is owned by rank i. |
| OpenMP.EliminateInOrder | openmp.c:154-163 | The parallel elimination loop gives `Eliminate`, whatever order runs its iterations. |
| OpenMP.OrderCovers | openmp.c:155 | When an order of rows k+1..n-1 has been run completely, exactly those rows have been eliminated. |
| OpenMP.StepOpenMP | openmp.c:122-163 | Under any iteration order, one OpenMP step is the sequential `Step` k: the same verdict (fail iff the pivot value < 1e-12, nothing changed then) and the same new system. On success the forward phase continues from k+1. |
| OpenMP.ForwardEliminateOpenMP | openmp.c:122-164 | Under any schedule the forward phase ends with the sequential outcome. |
| OpenMP.BackSubstituteWithSum | openmp.c:174-186 | Back-substitution that accumulates Σ_{j>i} A[i][j] x[j] separately and then subtracts it gives the same x as utils.c:214-224. |
| OpenMP.GaussianEliminationOpenMP | openmp.c:112-189 | Returns 1 iff `Solve` succeeds. It ends with `Solve`'s reduced system and, on success, its x; on failure x is untouched. openmp_version.c:8-85 is the same function. |
| OpenMP.VerifySolution | openmp.c:90-106 | Returns 1 iff every residual is at most 1e-9. pthread.c:109-125 is the same function. |
| Pthread.Merge | pthread.c:147-152 | The guarded update keeps one of the two pairs, and its value is at least both. |
| Pthread.FindPivotThread | pthread.c:130-155 | The thread returns the shared pair merged, under the strict `>`, with its local scan of rows [max(start, k), min(end, n)). The scan starts from \|A[k][k]\| when start ≤ k and from 0 otherwise. |
| Pthread.PivotSearch | pthread.c:196-229 | Running the threads' search in a join order gives the fold of `Merge` over their local results, from (k, \|A[k][k]\|). |
| Pthread.ScanRestart | pthread.c:136-152 | Merging a local scan that started lower into the shared pair equals continuing the scan from the shared pair. |
| Pthread.ChunkLocalIsScan | pthread.c:135-144 | A thread's local result is the scan of its chunk clipped to rows ≥ k, or (k, \|A[k][k]\|) when the chunk lies above k. |
| Pthread.PivotSearchInOrder | pthread.c:196-229 | Joined in thread order, the search yields exactly `Pivot` and its value, as utils.c:166-174 does. |
| Pthread.MergeLocalsBounds | pthread.c:147-152 | The merged value is at least every thread's local value, and the merged row really has that value. |
| Pthread.PivotSearchAnyOrder | pthread.c:147-152 | For any join order the final `pivot_value` is the maximal \|A[i][k]\| over i ≥ k, at a row that has it. |
| Pthread.EliminationThread | pthread.c:160-179 | A thread updates exactly its rows i > k inside [start, min(end, n)) against the pivot row. |
| Pthread.PartialElimUnion | pthread.c:288-292 | Eliminating two disjoint row sets one after the other equals eliminating their union. |
| Pthread.EliminationOrderFree | pthread.c:288-292 | Threads on disjoint ranges commute: either join order gives the same system. |
| Pthread.GuardedEliminate | pthread.c:166-176 | One iteration of the thread's row loop extends the handled rows by i: row i is eliminated when i > k and skipped otherwise; row k stays. |
| Pthread.EliminationChunk | pthread.c:166-176 | One elimination thread extends the eliminated rows by its chunk. |
| Pthread.EliminationThreadAt | pthread.c:262-285 | Thread i, started only when its range is nonempty, extends the covered prefix of k+1..n-1 to the end of its chunk. |
| Pthread.EliminationPhase | pthread.c:255-295 | The elimination threads of step k together give `Eliminate`. |
| Pthread.StepPthread | pthread.c:191-296 | One step is the sequential `Step` k: it fails iff the pivot value is below 1e-12, changing nothing, and otherwise leaves the swapped, eliminated system. The forward phase then continues from k+1. |
| Pthread.ForwardEliminatePthread | pthread.c:191-296 | The forward phase ends with the sequential outcome. |
| Pthread.GaussianEliminationPthread | pthread.c:184-320 | Returns 1 iff `Solve` succeeds. It ends with `Solve`'s reduced system and, on success, its x; on failure x is untouched. |
| PthreadVersion.LocalPivotFromAgrees | pthread_version.c:23-33 | Starting the scan at max(start, k+1) gives the same local result as pthread.c's scan from max(start, k). |
| PthreadVersion.FindPivotParallel | pthread_version.c:23-42 | The local scan merged into the shared `pivot_row`/`pivot_value` under the strict `>`. |
| PthreadVersion.PivotPhase | pthread_version.c:55-67 | After the reset to (k, \|A[k][k]\|), the searches in a join order give the fold of the merge over the threads' local results. |
| PthreadVersion.EliminationOwnChunk | pthread_version.c:94-104 | Thread i eliminates the rows > k of its own block [i·q, (i+1)·q), the last block taking the remainder. |
| PthreadVersion.EliminationPhaseVersion | pthread_version.c:91-107 | Together the threads' own-block eliminations give `Eliminate`. |
| PthreadVersion.StepVersion | pthread_version.c:53-108 | One step with a single leader is the sequential `Step` k: the same verdict and the same new system, after which the forward phase continues from k+1. |
| PthreadVersion.ForwardEliminateVersion | pthread_version.c:47-111 | The forward phase ends with the sequential outcome. |
| PthreadVersion.GaussianEliminationPthreadVersion | pthread_version.c:116-182 | The corrected solver: returns 1 iff `Solve` succeeds, ending with its reduced system and x; on failure x is untouched. |
| PthreadVersion.SingleThreadVerdictWhenNoPivotFails | pthread_version.c:157-163 | When no pivot fails, the as-written verdict (only the final diagonal test) agrees with `Solve`. |
| PthreadVersion.SingleThreadExitCounterexample | pthread_version.c:70-75 | With one thread, A = [[0,0],[0,1]] and b = [0,1], the thread exits at k = 0. The final test passes, so the function returns 1 although the system is singular. |
| PthreadVersion.LeadersCounted | pthread_version.c:127-141 | With T ≤ n exactly one thread has `start_row` 0. With T > n every thread has `start_row` 0. |
| PthreadVersion.LeaderIff | pthread_version.c:132-133 | Thread i has `start_row` 0 iff i = 0 or T > n. |
| PthreadVersion.LeaderSwapsParity | pthread_version.c:77-87 | L leaders each exchanging rows k and `pivot_row` in turn leave the system swapped when L is odd and unchanged when L is even. |
| PthreadVersion.SwapTwice | pthread_version.c:77-87 | Exchanging the same two rows twice restores the system. |
| PthreadVersion.LeaderRaceCounterexample | pthread_version.c:55-88 | With n = 2 and T = 4 all four threads lead. On A = [[0,1],[1,0]] the pivot is row 1, and four successive swaps leave A[0][0] = 0 where one swap gives 1. |
| Mpi.MaxLoc | mpi.c:188 | MAXLOC of two (value, rank) pairs is one of them, and its value is at least both. |
| Mpi.MaxLocCommutes | mpi.c:188 | MAXLOC is commutative and associative, so the reduction order does not matter. |
| Mpi.MaxLocOverSpec | mpi.c:188 | The reduction over ranks 0..p-1 returns the maximal value and the lowest rank holding it. |
| Mpi.CandidateBound | mpi.c:167-177 | Every rank's local value is at most \|A[P][k]\| for the pivot P. It is strictly below for ranks before P's owner. |
| Mpi.CandidateOfOwner | mpi.c:167-177 | The owner of the pivot row P reports (P, \|A[P][k]\|). |
| Mpi.PivotByMaxLoc | mpi.c:167-188 | The MAXLOC winner is the owner of the sequential pivot, and its `local_pivot_row` is that pivot (the row chosen by utils.c:166-174). |
| Mpi.NoCandidateNeverWins | mpi.c:168-177 | A rank whose rows all lie above k reports −1.0 and never wins the reduction. |
| Mpi.Broadcast | mpi.c:202 | After `MPI_Bcast` every rank holds the root's buffer. |
| Mpi.FailureAgreed | mpi.c:205-211 | Every rank tests the same broadcast `pivot_row[k]`, so at each step all ranks fail or none do. |
| Mpi.RelocatedSwaps | mpi.c:214-246 | The exchange (the owner of k sends row k to the winner, which stores it at the pivot's slot, and the owner stores the broadcast pivot row at k) is exactly the swap of rows k and g of the distributed system. |
| Mpi.RelocatedFrame | mpi.c:214-246 | The exchange changes no other row on any rank, and no x. |
| Mpi.RelocatedAsWrittenWhenRanksDiffer | mpi.c:223-238 | When the owner of k and the winner differ, the code as written performs the exchange. |
| Mpi.ExchangeAsWritten | mpi.c:214-246 | What the relocation as written leaves on the distributed system: row k holds the pivot equation g in every case. The result is the exchange unless one rank owns both rows and g ≠ k; then row g also stays in place. |
| Mpi.RelocatedAsWrittenLogical | mpi.c:214-246 | The ranks' relocation as written, with the owner of k, the owner of g and the broadcast pivot row, turns the distributed system into `ExchangeAsWritten` of it. |
| Mpi.OneRankSetup | mpi.c:132-165 | With one rank and n = 2, rank 0 owns both rows, its copy is the distributed system A = [[1,2],[3,4]], b = [5,6], and the pivot of column 0 is row 1. |
| Mpi.RelocatedAsWrittenLosesRow | mpi.c:215-246 | On that cluster, the relocation as written for k = 0 and pivot 1 leaves the equation 3x0 + 4x1 = 6 in both rows, so the original row 0 is lost. |
| Mpi.ExchangeOnOneRank | mpi.c:214-246 | On the same cluster the corrected exchange gives rows [3,4 \| 6] and [1,2 \| 5], the swap of rows 0 and 1. |
| Mpi.ElimOwnLogical | mpi.c:250-259 | Every rank eliminating the rows of its block against the broadcast buffer is the elimination of all rows i > k of the distributed system. |
| Mpi.ElimOwnRow | mpi.c:250-259 | A rank's elimination changes only its rows i > k, each to the update against the broadcast buffer. |
| Mpi.CandidateAgrees | mpi.c:172-177 | A rank's scan of its own copy gives the candidate computed from the distributed system. |
| Mpi.EliminateRange | mpi.c:250-259 | The loop over [start_row, end_row) with the `i > k` guard computes that elimination of the rank's rows. |
| Mpi.Received | mpi.c:272-275 | Receiving a block copies the source's rows and b entries in [lo, hi) and keeps all others. |
| Mpi.ReceiveRows | mpi.c:272-275 | The receive loop for one process performs `Received`. |
| Mpi.GatherStep | mpi.c:268-276 | After receiving process proc's block, rank 0 agrees with the distributed system on every row before that block's end. |
| Mpi.GatherRows | mpi.c:266-276 | After the gather, rank 0's A and b are the distributed system; its x is unchanged. |
| Mpi.Cluster.constructor | mpi.c:362-380 | After `create_system` and the broadcast of A and b, every rank holds the system that rank 0 generated. |
| Mpi.Cluster.LocalPivotScan | mpi.c:167-177 | A rank's scan of its block for rows ≥ k with the strict `>`, starting from (k, −1.0). |
| Mpi.Cluster.CandidatesOfSystem | mpi.c:167-177 | Each rank's scan equals its candidate from the distributed system. |
| Mpi.Cluster.SelectPivot | mpi.c:167-202 | The scan, MAXLOC and broadcasts yield g = `Pivot` of the distributed system. The winner is g's owner, and the buffer is row g with b[g]. |
| Mpi.Cluster.Relocate | mpi.c:214-246 | The corrected relocation: the distributed system becomes its swap of rows k and g. |
| Mpi.Cluster.RelocateAsWritten | mpi.c:214-246 | The relocation with mpi.c's `rank != pivot_owner` guard: the ranks become `RelocatedAsWritten` of their old state, the distributed system becomes `ExchangeAsWritten` of it, and no x changes. |
| Mpi.Cluster.EliminateOwnRows | mpi.c:250-259 | Rank r's elimination replaces its state by the elimination of its block; no other rank changes. |
| Mpi.Cluster.EliminationPhase | mpi.c:249-262 | All ranks' eliminations, followed by the barrier, eliminate every row of the distributed system. x is unchanged. |
| Mpi.Cluster.StepMpi | mpi.c:153-263 | One corrected MPI step is the sequential `Step` k on the distributed system. It fails exactly as that step does, with no rank changed; otherwise it continues the sequential forward phase from k+1. No x changes. |
| Mpi.Cluster.ForwardEliminateMpi | mpi.c:153-263 | The k loop ends with the sequential forward phase's outcome on the distributed system. |
| Mpi.Cluster.StepMpiAsWritten | mpi.c:167-262 | One step of mpi.c as written is `StepAsWritten` on the distributed system: it fails iff the MAXLOC pivot is below 1e-12, changing nothing; otherwise it relocates as written and eliminates every row below k. No x changes. |
| Mpi.Cluster.ForwardEliminateMpiAsWritten | mpi.c:153-263 | mpi.c's k loop as written ends with `ForwardAsWritten`'s outcome, and its verdict is `MpiVerdictAsWritten`, which is what mpi.c's solver returns. |
| Mpi.Cluster.Gather | mpi.c:266-276 | The gather makes rank 0's A and b the distributed system, changing nothing else. |
| Mpi.Cluster.BackSubstituteRoot | mpi.c:278-287 | Rank 0's x becomes `BackSubst` of its own A and b, and nothing else changes on any rank. |
| Mpi.Cluster.BroadcastSolution | mpi.c:297 | Every rank's x becomes rank 0's x, and A and b are unchanged. |
| Mpi.Cluster.GaussianEliminationMpi | mpi.c:125-301 | The corrected MPI solver returns success iff `Solve` does. It ends with `Solve`'s reduced system, and on success every rank holds `Solve`'s x; on failure no x changes. |
| Mpi.SolveAfterForward | mpi.c:153-300 | Given the forward phase's outcome from the start, `Solve` succeeds iff every step passed and the final \|A[n-1][n-1]\| ≥ 1e-12, and it then returns the back-substitution of the reduced system. |
| Mpi.StepAsWritten | mpi.c:167-262 | A step of mpi.c as written fails exactly when the sequential pivot's magnitude is below 1e-12. |
| Mpi.ForwardAsWrittenAgrees | mpi.c:153-263 | When no passing step has its pivot g ≠ k on the rank that owns row k, mpi.c's forward phase as written is the sequential `ForwardFrom`. |
| Mpi.ExchangesHappenWhenRanksCoverRows | mpi.c:132-136 | With p ≥ n ranks every rank holds one row at most, so no step meets that case and mpi.c's forward phase is the sequential one. |
| Mpi.MpiVerdictAsWrittenAgrees | mpi.c:153-300 | When no step meets that case, mpi.c's verdict as written together with the missing final diagonal test is exactly `Solve`'s success. |
| Mpi.MpiVerdictCounterexample | mpi.c:265-300 | On A = [[1,1],[1,1]], b = [1,1] and any number of ranks, the pivot stays in place and mpi.c's verdict as written is success. The reduced A[1][1] is 0, and `Solve` reports a singular system. |
| Mpi.LostRowStep0AsWritten | mpi.c:214-262 | On one rank, step 0 on A = [[1,1,0],[2,0,1],[0,0,1]], b = 0 overwrites row 0 with the pivot row 1, and row 1 then eliminates to 0. |
| Mpi.LostRowStep0Sequential | utils.c:164-204 | The sequential step 0 on the same system exchanges rows 0 and 1 and reduces the new row 1 to [0, 1, −0.5]. |
| Mpi.LostRowStep1Sequential | utils.c:164-204 | The sequential step 1 keeps row 1 as pivot and leaves row 2 = [0, 0, 1]. |
| Mpi.LostRowVerdictCounterexample | mpi.c:205-246 | On that system with one rank `Solve` succeeds. mpi.c's verdict as written is failure, because its pivot test at k = 1 sees only zeros. |
| Mpi.VerifySolutionMpi | mpi.c:89-119 | Returns 1 iff every residual is at most 1e-9, or n > 2000 and the largest residual is at most 1e-6. |
| Mpi.SolvedPassesVerificationMpi | mpi.c:402 | A successful solve passes `verify_solution`, which runs on the A and b left by elimination. |
| MpiVersion.OverwriteFrame | mpi_version.c:132-142 | The overwrite changes only slot k on the owner of k; every other row on every rank, including the pivot's slot, and every x stay. |
| MpiVersion.OverwriteDuplicatesPivot | mpi_version.c:132-142 | When g ≠ k, the distributed system afterwards holds the pivot equation g both at row k and at row g. Every row other than k is unchanged, so the original equation k is lost unless another row repeats it. |
| MpiVersion.OverwriteCounterexample | mpi_version.c:132-142 | With two ranks, A = [[1,2],[3,4]] and b = [5,6], both equations become 3x0 + 4x1 = 6. |
| MpiVersion.ExchangeOnTwoRanks | mpi.c:214-246 | On the same input the exchange of mpi.c gives rows [3,4 \| 6] and [1,2 \| 5]. |
| MpiVersion.OverwriteRowK | mpi_version.c:132-142 | The overwrite applied to a cluster's ranks. |
| MpiVersion.FillFixedMatrix | mpi_version.c:11-19 | Sets A[i][i] = n + 5 and A[i][j] = 1/(i + j + 1) off the diagonal. |
| MpiVersion.AccumulateRhs | mpi_version.c:28-33 | Each b[i] ends as the dot product of row i with x. |
| MpiVersion.GenerateFixedTestSystem | mpi_version.c:7-36 | The system holds the fixed matrix and b = A·(1, 2, …, n). |
| MpiVersion.FixedSystemSolved | mpi_version.c:21-33 | x = (1, 2, …, n) solves the fixed system exactly. |
| MpiVersion.FixedOffDiagonal | mpi_version.c:16 | Every off-diagonal entry lies in (0, 1]. |
| MpiVersion.FixedSystemDominant | mpi_version.c:10-19 | The fixed matrix is strictly diagonally dominant: off-diagonal magnitudes of a row add up to at most n, below n + 5. |
| MpiVersion.FixedSystemRecovered | mpi_version.c:21-33 | If the solver succeeds on the fixed system, it returns x = (1, 2, …, n). |

## Left out

- Drivers, printing, timing and CSV output: the `main` functions, `print_matrix`/`print_vector`, `get_time_diff`, the timer macros, performance_test.c and sequential.c's banner. They do no algorithmic work. Only main.c's 3 × 3 data is reused, in Demo.
- The random generator `generate_test_system`, `create_system`'s allocation and `free_system`. These are time-seeded randomness and memory management.
- Utils.LinearSystem.constructor, Mpi.Cluster.constructor: zero-fill storage that `malloc` leaves uninitialised. Utils fills A, b and x; Mpi fills every rank's x. Every solver writes x before reading it.
- Utils.BackSubstitute, OpenMP.BackSubstituteWithSum, Mpi.Cluster.BackSubstituteRoot: require a nonzero diagonal. The C code divides regardless and gets inf or NaN, which has no exact-real counterpart; the modelled solvers call them only after that test. mpi.c, mpi_version.c and, after `pthread_exit`, pthread_version.c back-substitute without it; see Findings.
- Floating point: entries are exact reals, so rounding, overflow, and the inf/NaN that a division by a zero pivot would produce are not modelled.
- Row pointers become row values: the pointer exchange of the swap is an exchange of row values, with no aliasing between rows.
- Element-by-element copies of a row (copy_system, MPI row buffers) are modelled as whole-row copies.
- Threads, mutexes, barriers and OpenMP pragmas: parallel loops run one iteration or thread after another, in an order given as a parameter.
  - Interleavings inside a thread are not modelled.
  - Neither are `omp_set_num_threads`, the `if(n-i-1 > 50)` clause and `pthread_create` failures (pthread.c:218-223, 275-281; pthread_version.c:145-148).
- Pthread.StepPthread, PthreadVersion.StepVersion: merge the threads' pivot results in thread order. Another join order may pick a different row of equal value. For any order, Pthread.PivotSearchAnyOrder proves only the pivot value.
- PthreadVersion.GaussianEliminationPthreadVersion, PthreadVersion.StepVersion, PthreadVersion.ForwardEliminateVersion: they model the corrected solver, with one leader and failure on a tiny pivot. These source behaviours are left out:
  - the barrier deadlock after `pthread_exit` when T > 1;
  - the interleavings of concurrent leaders when T > n.
  The Findings rows show what the code does instead.
- Real message passing: message tags, blocking, ordering, MPI_Init/Finalize and MPI_Wtime are left out. In mpi.c:218 the owner of k may be the winner; it then sends to itself with no matching receive. That send is treated as having no effect.
- Mpi.Cluster.GaussianEliminationMpi, Mpi.Cluster.Relocate, Mpi.Cluster.StepMpi, Mpi.Cluster.ForwardEliminateMpi: they model mpi.c with its two defects corrected. The corrections are an exchange when the owner of k is the winner, and the final diagonal test (GaussianEliminationMpi only). Mpi.Cluster.ForwardEliminateMpiAsWritten models mpi.c's k loop as written, and the Findings members show where it departs. The back-substitution that follows it as written divides by A[n-1][n-1] without a test; it is not modelled.
- Mpi.MpiVerdictAsWrittenAgrees: holds only when no step has its pivot g ≠ k on the rank that owns row k (`ExchangesHappen`, always true for p ≥ n). Otherwise the verdicts can differ; Mpi.LostRowVerdictCounterexample shows one such system.
- mpi_version.c's solver outside the relocation is mpi.c's, so it is not modelled a second time; only its relocation (MpiVersion) and its test system are.
- Whether the solver succeeds on the fixed test system is not proved; MpiVersion.FixedSystemRecovered only states what it returns when it does. Proving success would need diagonal dominance to survive elimination.

## Findings

| source | as written | input that shows it | evidently intended | confidence | as-written member | corrected member |
|---|---|---|---|---|---|---|
| mpi.c:215-246 | When the owner of row k also wins the pivot search, its receive branch is skipped (`rank != pivot_owner`). Only row k is overwritten with the pivot row, and the pivot's slot keeps its old content, so original row k is lost. | One rank, A = [[1,2],[3,4]], b = [5,6], k = 0: the system becomes [[3,4],[3,4]], [6,6]. | Exchange rows k and g as utils.c:183-193 does. | not executed | Mpi.RelocatedAsWrittenLosesRow | Mpi.Cluster.Relocate |
| mpi.c:205-246 | Through the same lost row, a later pivot test can fail on a nonsingular system. | One rank, A = [[1,1,0],[2,0,1],[0,0,1]], b = [0,0,0]: row 1 eliminates to zero at k = 0, and at k = 1 the pivot is 0, so mpi.c returns 0. The sequential solver succeeds. | Exchange rows k and g, so that the verdict is the sequential one. | not executed | Mpi.LostRowVerdictCounterexample | Mpi.Cluster.GaussianEliminationMpi |
| mpi.c:265-300 | After the k loop there is no test of \|A[n-1][n-1]\| < 1e-12 (mpi_version.c:160-195 likewise), so a singular system can succeed. | A = [[1,1],[1,1]], b = [1,1]: step 0 passes and the reduced A[1][1] is 0. | Return 0, as utils.c:208-211 does. | not executed | Mpi.MpiVerdictCounterexample | Mpi.Cluster.GaussianEliminationMpi |
| mpi_version.c:132-142 | The relocation only overwrites row k with the pivot row. The pivot's slot is never given row k, so one equation is lost whenever the pivot is not row k. | Two ranks, A = [[1,2],[3,4]], b = [5,6]: both equations become 3x0 + 4x1 = 6. | Exchange rows k and g. | not executed | MpiVersion.OverwriteCounterexample | Mpi.Cluster.Relocate |
| pthread_version.c:70-75 | On a tiny pivot the leader calls `pthread_exit` instead of reporting failure. With one thread, main then applies only the final diagonal test. | T = 1, A = [[0,0],[0,1]], b = [0,1]: the final test passes and back-substitution divides by 0. | Return 0 on a tiny pivot. | not executed | PthreadVersion.SingleThreadExitCounterexample | PthreadVersion.GaussianEliminationPthreadVersion |
| pthread_version.c:55-88 | With T > n every thread has `start_row` 0, so each one resets the pivot and performs the swap. An even number of swaps undoes the exchange. | n = 2, T = 4, A = [[0,1],[1,0]]: if the four swaps run one after another, A[0][0] stays 0. | A single leader performs the swap. | not executed; depends on thread interleaving | PthreadVersion.LeaderRaceCounterexample | PthreadVersion.GaussianEliminationPthreadVersion |
