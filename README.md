# Brute-force travelling salesman, multi-threaded

A Dafny model of a brute-force travelling-salesman solver. The solver reads a
square matrix of edge weights and is meant to weigh every closed tour that
starts at vertex 0 and report the lightest tour and the heaviest one, each
with its weight and its lexicographic rank. As written, its split of the work
skips the last (n-1)! mod threads of those tours, and with more threads than
(n-1)! it weighs none (see Findings).

The work is shared among threads by rank:

- Tours of the vertices `0..n-1` are numbered by their position in
  lexicographic order (their rank).
- The first `(n-1)!` ranks are exactly the tours that start at vertex 0.
- `main` cuts these ranks into one range per thread.
- Each worker (`tsp_forca_bruta`) unranks the first tour of its range, then
  steps through the range with the next-permutation routine.
- While it walks, the worker sends a `(weight, rank)` message on a channel
  every time its running minimum or running maximum improves.
- `main` receives those messages in whatever order they arrive and keeps
  the lightest and the heaviest.

The model has one module per part of the program:

| module | file | models |
|---|---|---|
| `Factorial` | `factorial.dfy` | `calcula_fatorial`, and the place-value arithmetic of the factorial number system |
| `Lex` | `lex.dfy` | lexicographic order, sorting, reversal and rearrangements of vertex sequences |
| `Lehmer` | `lehmer.dfy` | Lehmer codes: the factorial-base digits of a rank |
| `Unranking` | `unranking.dfy` | `n_esima_ordem_lexicografica`, in place on an array, and `imprime_ordem_lexicografica_n` without the printing |
| `Successor` | `successor.dfy` | `proxima_ordem_lexicografica`, in place on an array |
| `Tour` | `tour.dfy` | the weight of a closed tour, and why tours starting at vertex 0 are enough |
| `Worker` | `worker.dfy` | `tsp_forca_bruta`: the walk over a range of ranks and the messages it sends |
| `Driver` | `driver.dfy` | `main`: the thread count, the split into ranges, the spawn loop, the channel and the collector |

Each imperative routine is a `method` over arrays or local variables. Its
contract ties it to a specification function:

- `Unrank` and `Rank` for the unranking routine.
- `Successor` for next-permutation.
- `CycleWeight` for the weight loop.
- `Scan` for the worker loop.
- `Reduce` for the collector loop.

The lemmas then state what the program promises about those functions:

- Unranking is a bijection that respects lexicographic order.
- Next-permutation yields the immediate successor.
- Tour weight does not depend on the starting vertex.
- Each worker sends only strict improvements.
- For any ranges handed to the workers that end at or below n!, and
  whatever the interleaving of the channel, `main` ends with a minimum no heavier than any tour of a rank
  in those ranges, and a maximum no lighter than any of them.
- With the corrected split (`Driver.Ranges`), those ranges hold every tour
  starting at vertex 0. So `main` ends with a weight no larger than that of
  any tour, and one no smaller than that of any tour.
- With the split as written (`Driver.AsWrittenRanges`), the guarantee covers
  only the ranks below threads * q, where q = (n-1)! / threads. With more
  threads than tours starting at vertex 0, no tour is weighed at all (see
  Findings).

A thread is modelled by the stream of messages it sends. The channel is
modelled by a predicate, `Driver.Interleaving`. It relates the sequence the
collector receives to the workers' streams:

- every message is received exactly once;
- each stream arrives in its own order;
- the streams may interleave in any way.

The collector uses `if … else if`, so a message that improves the minimum is
never counted towards the maximum. The maximum is still right because of how
the worker sends:

- A tour that is both a new minimum and a new maximum of its worker is sent
  twice.
- The heaviest tour of each worker is therefore always received as a
  "settled" message, one that cannot lower the minimum.
- `Worker.WorkerCovered` and `Driver.InterleavingCovered` carry this
  argument.

## Model

| member | source | states |
|---|---|---|
| Factorial.CalculateFactorial | src/main.rs:262-272 | returns n! for every n, including 0! = 1! = 1 (the loop is skipped for n <= 1) |
| Factorial.PlaceValueSplit | src/main.rs:244-258 | a rank below m! splits into a leading digit below m, taken as rank / (m-1)!, and a remainder below (m-1)!, taken as rank % (m-1)!; together they give the rank back |
| Factorial.FactDiv | src/main.rs:250-254 | dividing m! by m gives (m-1)!, the next place value of the unranking loop |
| Unranking.TakeLeading | src/main.rs:244-258 | one turn of the unranking loop takes out the element the digit rest / f selects and keeps rest % f and f / (len-1), or 1 at the last element; that element followed by the arrangement of the rest is the arrangement of the whole pool at the old rank |
| Unranking.NthLexOrder | src/main.rs:220-260 | the vector is left unchanged when empty or when n >= len!; otherwise it holds the n-th arrangement, counting from 0 in lexicographic order, of its own elements sorted |
| Unranking.UnrankPermutation | src/main.rs:238-258 | the n-th arrangement is a rearrangement of the pool |
| Unranking.UnrankRank | src/main.rs:220-260 | every rearrangement of the pool is the arrangement of its rank |
| Unranking.RankUnrank | src/main.rs:220-260 | for a pool of distinct elements, the rank of the n-th arrangement is n, so unranking is one-to-one on 0..len!-1 |
| Unranking.UnrankOrder | src/main.rs:220-260 | for a sorted pool, arrangement k1 is lexicographically before arrangement k2 exactly when k1 < k2 |
| Unranking.UnrankIsKth | src/main.rs:220-260 | a rearrangement q comes before the k-th arrangement exactly when the rank of q is below k: exactly k arrangements precede it |
| Unranking.UnrankFirst | src/main.rs:238-241 | rank 0 is the sorted pool itself |
| Unranking.UnrankLast | src/main.rs:220-260 | rank len!-1 is the sorted pool reversed |
| Unranking.UnrankLeadingZero | src/main.rs:48-54 | every rank below (n-1)! is a tour of 0..n-1 that starts at vertex 0 |
| Unranking.TourOfRank | src/main.rs:105-111 | the printed tour of rank n is the n-th arrangement of 0..count-1, or 0..count-1 in order when n >= count! |
| Successor.NextLexOrder | src/main.rs:144-167 | returns whether the vector advances; when it does, the vector holds the Successor of its old contents, otherwise it is unchanged |
| Successor.ReverseFrom | src/main.rs:161-162 | reverses the slice from the given index to the end in place, leaving the front as it was |
| Successor.AdvancesIffNotDescending | src/main.rs:144-167 | the routine advances exactly when the vector is not in strictly descending order |
| Successor.SuccessorPermutation | src/main.rs:159-163 | the successor is a rearrangement of the vector |
| Successor.SuccessorGreater | src/main.rs:159-163 | for distinct elements the successor is lexicographically greater |
| Successor.SuccessorImmediate | src/main.rs:144-167 | no rearrangement lies strictly between a vector and its successor |
| Successor.SuccessorOfUnrank | src/main.rs:210-214 | the successor of the k-th arrangement of a sorted pool is the (k+1)-th |
| Successor.AdvancesUnlessLast | src/main.rs:212-214 | the k-th arrangement advances exactly when k+1 < len!, so the walk stops after the last rank |
| Tour.NextIndex | src/main.rs:195 | (i + 1) % len is the next position of the tour, wrapping to 0 after the last one |
| Tour.TourWeight | src/main.rs:192-196 | the summed weight is the weight of the closed tour: every edge g[p[i]][p[i+1]], and the edge back to the start |
| Tour.RotateWeight | src/main.rs:192-196 | a closed tour started one vertex later weighs the same |
| Tour.RotateByWeight | src/main.rs:192-196 | a closed tour started d vertices later is a rearrangement that weighs the same |
| Tour.StartAtZero | src/main.rs:48-54 | every tour of the n vertices weighs the same as the tour of some rank below (n-1)!: looking only at tours starting at vertex 0 loses no weight |
| Worker.Record | src/main.rs:198-208 | the two updates for one tour: a strictly lighter tour becomes the minimum and is sent, then a strictly heavier one becomes the maximum and is sent |
| Worker.WeighTour | src/main.rs:192-196 | the weight computed for the array holding the tour of rank r is that tour's weight |
| Worker.Advance | src/main.rs:210-214 | the array moves from the tour of rank r to the tour of rank r+1 exactly when r+1 < n!, and is left unchanged otherwise |
| Worker.FirstTour | src/main.rs:185-188 | the starting array is the tour of rank first, or 0..n-1 in order when first >= n! |
| Worker.Visit | src/main.rs:191-215 | one turn of the loop extends the worker's state by the tour of the next rank. It moves the array on to the following tour unless that rank was the last, in which case the array still holds the tour just weighed |
| Worker.BruteForce | src/main.rs:169-218 | the returned minimum and maximum and the messages sent are those of Scan over the weights of the ranks first..last-1, stopping early after rank n!-1 |
| Worker.ScanMin | src/main.rs:175-202 | the worker's minimum is at most u32::MAX and at most every weight. It stays (u32::MAX, 0) when no tour is lighter; otherwise it is the lightest tour with the rank of its first occurrence |
| Worker.ScanMax | src/main.rs:177-208 | the worker's maximum is at least every weight. It stays (0, 0) when every tour weighs 0; otherwise it is the heaviest tour with the rank of its first occurrence |
| Worker.ScanSent | src/main.rs:198-208 | every message sent carries the weight of a tour the worker weighed, with that tour's rank |
| Worker.ScanOrderly | src/main.rs:198-208 | every message lies between the final minimum and maximum. Each is strictly lighter than all earlier messages, or strictly heavier than all of them except a copy of itself |
| Worker.WorkerCovered | src/main.rs:198-208 | in a worker's own stream, every positive weight is matched by a message at least as heavy that a collector starting from (u32::MAX, 0) would count towards the maximum |
| Driver.ThreadCount | src/main.rs:28-35 | the thread count is the one requested when it is between 1 and the available parallelism, and the available parallelism otherwise; it never exceeds the available parallelism, and is at least 1 whenever that is |
| Driver.ShareShortfall | src/main.rs:48 | threads times the share (n-1)!/threads falls short of (n-1)! by (n-1)! mod threads, which is below threads |
| Driver.AsWrittenShape | src/main.rs:48-54 | the ranges as written are contiguous, each of length (n-1)!/threads, from 0 up to threads*q = (n-1)! - ((n-1)! mod threads); with more threads than (n-1)!, q is 0 |
| Driver.AsWrittenOwner | src/main.rs:48-54 | as written, every rank below threads*q lies in the range of some thread |
| Driver.AsWrittenWithin | src/main.rs:48-54 | as written, every range runs upwards and ends at or below threads*q, which is at most (n-1)! |
| Driver.AsWrittenCoverage | src/main.rs:48-54 | a rank lies in a range as written exactly when it is below threads*q, and in at most one of them |
| Driver.AsWrittenSkipsTours | src/main.rs:48-54 | with 4 vertices and 4 threads, q = 6/4 = 1, and ranks 4 and 5, two tours starting at vertex 0, lie in no range |
| Driver.RangesPartition | src/main.rs:48-54 | corrected split, in which the last thread runs to (n-1)!: a rank lies in some range exactly when it is below (n-1)!, and in at most one |
| Driver.RangesWithin | src/main.rs:48-54 | with the corrected split (`Driver.Ranges`), every range runs upwards and ends at or below (n-1)! |
| Driver.OwnerHolds | src/main.rs:52-54 | with the corrected split (`Driver.Ranges`), every rank below (n-1)! has an owning thread whose range holds it |
| Driver.Spawn | src/main.rs:48-64 | one worker per thread i walks the i-th range of the corrected split; the streams returned are exactly those workers' messages |
| Driver.StreamMessage | src/main.rs:198-208 | every message of a worker carries a rank of its own range and the weight of the tour of that rank |
| Driver.InterleavingCovered | src/main.rs:49-79 | if each worker's stream is covered, so is any interleaving of the streams the channel delivers |
| Driver.Receive | src/main.rs:70-78 | one message received: the minimum never rises, the maximum never falls, at most one of them changes, and a changed one becomes the message |
| Driver.Collect | src/main.rs:69-79 | starting from (u32::MAX, 0) and (0, 0), the receiving loop ends with Reduce of the messages in arrival order |
| Driver.ReduceMin | src/main.rs:69-73 | the collected minimum is at most u32::MAX and at most every weight received, and it is a message received unless it is still (u32::MAX, 0) |
| Driver.ReduceGrows | src/main.rs:69-79 | receiving more messages never raises the minimum and never lowers the maximum |
| Driver.ReduceMax | src/main.rs:74-78 | the collected maximum is (0, 0) or a message received, and in a covered stream it is at least every weight received |
| Driver.ReceivedIsTour | src/main.rs:69-79 | when every range ends at or below a bound, every message received carries a rank below that bound and the weight of the tour of that rank |
| Driver.LightestOfRanges | src/main.rs:48-79 | for any ranges ending at or below a bound and whatever the interleaving, main's minimum is at most u32::MAX and at most the weight of every tour whose rank lies in a range. When below u32::MAX, its rank is below the bound and it is the weight of the tour of that rank |
| Driver.HeaviestOfRanges | src/main.rs:48-79 | for any ranges ending at or below a bound and whatever the interleaving, main's maximum is at least the weight of every tour whose rank lies in a range. When positive, its rank is below the bound and it is the weight of the tour of that rank |
| Driver.FindsLightest | src/main.rs:20-86 | with the corrected split (`Driver.Ranges`), whatever the interleaving, main's minimum is at most u32::MAX and at most the weight of every tour of the n vertices. When below u32::MAX it is the weight of the tour at its reported rank, which is below (n-1)! |
| Driver.FindsHeaviest | src/main.rs:20-88 | with the corrected split (`Driver.Ranges`), whatever the interleaving, main's maximum is at least the weight of every tour of the n vertices. When positive it is the weight of the tour at its reported rank, which is below (n-1)! |
| Driver.FindsLightestAsWritten | src/main.rs:20-86 | with the split as written, whatever the interleaving, main's minimum is at most the weight of every tour of a rank below threads*q, which is at most (n-1)!. When below u32::MAX it is the weight of the tour at its reported rank, which is below threads*q |
| Driver.FindsHeaviestAsWritten | src/main.rs:20-88 | with the split as written, whatever the interleaving, main's maximum is at least the weight of every tour of a rank below threads*q. When positive it is the weight of the tour at its reported rank, which is below threads*q |
| Driver.AsWrittenWeighsNothing | src/main.rs:48-79 | with the split as written and more threads than (n-1)!, no message is sent and main ends with (u32::MAX, 0) and (0, 0) |

## Left out

- `ler_arquivo` (src/main.rs:113-142), which reads and parses the CSV file, is not modelled. The matrix is a parameter `seq<seq<nat>>` and must be square (`Tour.Square`). The source reads only `grafo[i][j]` with i and j below n = `grafo.len()`. A row shorter than n makes it panic on indexing, and the entries of a longer row past the first n are never read. So `Square` excludes only matrices on which the source panics, or which it treats exactly as their n×n part.
- Command-line parsing with clap (src/main.rs:8-18, 22) is not modelled. The requested thread count is a parameter of `Driver.ThreadCount`.
- `available_parallelism` (src/main.rs:29) is a parameter. It is at least 1, as the standard library guarantees, so the driver lemmas take at least one thread.
- Real threads are not modelled, and neither are the mpsc channel, the cloning of the graph, `drop(tx)` or the end of `recv`. `Driver.Spawn` runs the workers one after another and returns their streams. The arrival order is any `Driver.Interleaving` of those streams: every message arrives once, and each stream arrives in its own order.
- Driver.OwnerHolds: stated for the corrected split (`Driver.Ranges`). As written, only ranks below threads*q have an owner (`Driver.AsWrittenCoverage`, `Driver.AsWrittenOwner`).
- Driver.FindsLightest: stated for the corrected split (`Driver.Ranges`). For the split as written, `Driver.FindsLightestAsWritten` covers only the tours of rank below threads*q, and `Driver.AsWrittenWeighsNothing` the case q = 0.
- Driver.FindsHeaviest: stated for the corrected split (`Driver.Ranges`). For the split as written, `Driver.FindsHeaviestAsWritten` covers only the tours of rank below threads*q, and `Driver.AsWrittenWeighsNothing` the case q = 0.
- `Driver.Spawn` walks the corrected ranges of `Driver.Ranges`, not the truncated ones of the code (see Findings). The ranges as written are modelled by `Driver.AsWrittenRanges`.
- The `((min, indice_min), (max, indice_max))` that `tsp_forca_bruta` returns is modelled by `Worker.BruteForce`, but `main` discards it, as the source does.
- Printing and timing are not modelled: src/main.rs:44, 47, 73, 77 and 81-96, the `println!` of src/main.rs:110, and `imprime_grafo` (src/main.rs:99-103).
- Factorial.CalculateFactorial: does not model `usize` overflow of the running product (beyond 20! on a 64-bit target), because numbers are unbounded in the model.
- Tour.TourWeight: does not model `u32` overflow of the summed weight (a panic in debug builds, wrap-around in release builds), because weights are unbounded naturals.
- Unranking.NthLexOrder: does not model the `try_into().unwrap()` conversions between `u64` and `usize`, nor overflow of `fatorial * vetor.len()`.
- An empty matrix is excluded: the driver lemmas require at least one vertex. For it, `grafo.len() - 1` at src/main.rs:48 underflows. That panics in a debug build. In a release build it wraps to `usize::MAX`, and `calcula_fatorial` (src/main.rs:262-272) in practice never finishes.
- Worker.BruteForce: ranks are unbounded naturals rather than `u64`.
- `Successor.NextLexOrder` follows the code on any contents, repeated values included. The ordering lemmas about its result (greater, immediate successor) assume distinct elements, which a tour always has.
- The code does not reject matrices with fewer than 2 vertices, and the model follows the code: one vertex gives the single tour `[0]`.

## Findings

| source | as written | input that shows it | evidently intended | confidence | as-written member | corrected member |
|---|---|---|---|---|---|---|
| src/main.rs:48-54 | thread i walks ranks i*q to (i+1)*q - 1 with q = (n-1)! / threads (integer division), so the last (n-1)! mod threads ranks, all tours starting at vertex 0, are never weighed | 4 vertices and 4 threads: q = 6 / 4 = 1, the ranges cover ranks 0..3, and ranks 4 and 5 (tours [0,3,1,2] and [0,3,2,1]) are never weighed; with 3 vertices and 4 threads q = 0 and no tour is weighed at all | every rank below (n-1)! belongs to exactly one thread, for example by letting the last thread run to (n-1)! | high; not executed | Driver.AsWrittenSkipsTours | Driver.RangesPartition |
