# Collective communication from point-to-point messages, in Dafny

Two MPI programs estimate pi by Monte Carlo sampling. `pi.c` does it with
plain sends and receives written inline in `main`. `pi2.c` builds two
collectives out of sends and receives:

- a binomial-tree broadcast with root 0;
- a flat-tree reduction, where every rank sends straight to the root.

Both programs split the trial indices 1 .. n round-robin over the ranks. This
project models the rank-indexed schedules and the work split as sequential
simulations of the whole group. It then proves the properties the programs
rely on.

- `group.dfy` (`Group`): `Pow2` is the `1 << d` of the broadcast. `Rounds`
  is the number of rounds, ceil(log2(size)).
- `messages.dfy` (`Messages`): each rank keeps a log of `Sent`/`Received`
  events. `Matched` says the logs of a group fit together. For every ordered
  pair of ranks, what one sends to the other is what the other receives from
  it, value by value and in order.
- `binomial_bcast.dfy` (`BinomialBcast`): the broadcast of pi2.c. It runs
  over an `array<int>` that holds each rank's copy of the value. A round
  copies each sender's value into its receiver's slot.
- `flat_tree.dfy` (`FlatTree`): pi2.c's flat-tree reduce. It also holds
  pi.c's inline collection at rank 0 and pi.c's flat distribution of n from
  rank 0.
- `stride_partition.dfy` (`StridePartition`): the stride loop of each rank,
  with the count of hits it accumulates. `Owned` is a reference definition of
  each rank's share of [1, n]. It also models the 32-bit loop index (see
  Findings).
- `driver.dfy` (`Driver`): the two `main` functions. Each one distributes n,
  exits on n == 0, samples, and collects the counts at rank 0.

The random hit test (two `rand()` draws and `sqrt(x*x + y*y) <= 1.0`) is
modelled as an oracle `hit: int -> bool` on the trial index. Under any such
oracle, the root's total is the number of hits over [1, n]. That total does
not depend on the group size.

## Model

| member | source | states |
|---|---|---|
| Group.Rounds | pi2.c:12 | the broadcast loop runs k rounds, where k is the least number with size <= 2^k; it runs zero rounds exactly when size == 1 |
| BinomialBcast.RoundAction | pi2.c:13-21 | in round d a rank sends exactly when it is below 2^d and rank + 2^d exists, and then to rank + 2^d; it receives exactly when it lies in [2^d, 2^(d+1)), and then from rank - 2^d, which is below 2^d |
| BinomialBcast.RoundPairing | pi2.c:13-20 | in round d, rank a sends to b exactly when b receives from a: every receive has one matching send and every send has one matching receive |
| BinomialBcast.RoundMatched | pi2.c:12-21 | within a round, the logs of all ranks are Matched: each receiver gets, once, the value its partner sends |
| BinomialBcast.RoundTouchesOnlyReceivers | pi2.c:13-21 | in round d only ranks in [2^d, 2^(d+1)) can change value; senders and ranks at or above 2^(d+1) are unchanged |
| BinomialBcast.RoundDoubles | pi2.c:13-20 | if every rank below 2^d holds v before round d, every rank below 2^(d+1) holds v after it |
| BinomialBcast.AfterRoundsInformed | pi2.c:12-22 | after k rounds, every rank below min(2^k, size) holds the root's value |
| BinomialBcast.AfterRoundsUninformed | pi2.c:12-22 | after k rounds, every rank at or above 2^k still has its own original value |
| BinomialBcast.BcastComplete | pi2.c:12-22 | after Rounds(size) rounds, every rank holds the root's value |
| BinomialBcast.BcastRound | pi2.c:13-21 | one round, simulated rank by rank, gives the state RoundStep prescribes |
| BinomialBcast.BinomialBcast | pi2.c:7-23 | the loop runs exactly Rounds(size) rounds; the final array is the state after those rounds, and every rank holds the root's original value |
| FlatTree.SumExceptAddsBack | pi2.c:33-41 | the root's own value plus the values of all other ranks is the sum over all ranks |
| FlatTree.RootLogOrder | pi2.c:36-41 | the root receives from every other rank exactly once, in ascending rank order; entry j comes from rank j below the root and from rank j+1 above it |
| FlatTree.RootLogSendsNothing | pi2.c:36-41 | the root only receives during the reduce: its log sends nothing to any rank |
| FlatTree.RootLogPeers | pi.c:56-59 | the root sends nothing during collection; from each other rank it receives exactly one value, that rank's own |
| FlatTree.ReducePair | pi2.c:32-47 | for any two ranks a and b, the values a sends to b during the reduce are exactly the values b receives from a |
| FlatTree.ReduceMatched | pi2.c:32-47 | the logs of a reduce are Matched: each non-root's single send is the root's single receive from that rank |
| FlatTree.FlatTreeReduce | pi2.c:26-48 | at the root the result is the sum of all ranks' values, and the log lists one receive per other rank in ascending order; at any other rank the result is 0 after one send of its value to the root |
| FlatTree.CollectCounts | pi.c:52-66 | at rank 0 the total is the sum of all counts, received once from each of ranks 1..size-1 in order; any other rank sends its count to rank 0 once and has no total |
| FlatTree.FlatSendsOrder | pi.c:23-25 | rank 0 makes size-1 sends, the j-th one to rank j+1: once to each of ranks 1..size-1, in ascending order |
| FlatTree.FlatSendsPeers | pi.c:23-25 | rank 0 sends n exactly once to each of ranks 1..size-1, to no other rank, and receives nothing |
| FlatTree.DistributePair | pi.c:19-29 | for any two ranks a and b, the values a sends to b while n is distributed are exactly the values b receives from a |
| FlatTree.DistributeMatched | pi.c:19-29 | the logs of the distribution are Matched: each non-root rank receives exactly once, from rank 0, the single send addressed to it |
| FlatTree.FlatDistribute | pi.c:19-29 | rank 0's log is its sends to ranks 1..size-1 in order, and afterwards every rank holds rank 0's n |
| StridePartition.Hits | pi.c:47-48 | the number of hits is at most the number of trials |
| StridePartition.OwnedMembers | pi2.c:79 | rank r's indices are exactly the i in [1, n] with i - 1 = r (mod size); there are none when n <= 0 |
| StridePartition.OwnedAscending | pi.c:40 | a rank's indices are strictly ascending, so no index is handled twice by one rank |
| StridePartition.PartitionDisjoint | pi.c:40 | no index belongs to two different ranks |
| StridePartition.PartitionCovers | pi2.c:79 | every index in [1, n] belongs to rank (i-1) mod size, which exists, and to no other rank |
| StridePartition.OwnedStride | pi2.c:79 | one step i += size from an owned index i adds exactly i to the rank's share, and the next index is owned too |
| StridePartition.OwnedStrideEnd | pi2.c:79 | when the loop stops at i > n, it has run every index the rank owns up to n |
| StridePartition.LocalCount | pi2.c:79-88 | the loop runs once per owned index, and count is the number of hits among them, so 0 <= count <= trials |
| StridePartition.RankTotalStep | pi.c:40-49 | raising n by one adds index n to the share of its owner and of no other rank |
| StridePartition.ScalingInvariance | pi2.c:79-91 | whatever the group size, the hits summed over all ranks' shares equal the hits over [1, n] |
| StridePartition.StrideIndexWraps | pi.c:40 | with a 32-bit loop index and n = 3000000000, the step after 2147483647 gives -2147483648; that index is outside [1, n] but still passes i <= n, and so does every 32-bit value, so the loop never exits |
| Driver.SumOfRankCounts | pi2.c:91 | if each rank's count is its hits, the sum of the counts is the hits summed over the ranks |
| Driver.TrialsCover | pi2.c:79 | the stride loops of all ranks together run n trials when n > 0 (and none otherwise), one per index of [1, n] |
| Driver.SamplePhase | pi2.c:71-88 | when the shared n is 0, every rank leaves and no trial runs; otherwise no rank leaves, each rank's count is its hits, and n trials run in all |
| Driver.Pi2Main | pi2.c:50-102 | the broadcast always runs its Rounds(size) rounds; input 0 makes every rank leave with no trials, no reduce call and nothing received at the root; any other input has no rank leave, every rank call the reduce, the root receive each other rank's hit count once in rank order, and the root total equal the hits over [1, n] for any group size, with 0 <= total <= trials and a non-zero divisor |
| Driver.PiMain | pi.c:6-71 | rank 0 always sends n once to each other rank; input 0 makes every rank leave with no trials and no collection; any other input gives the same root total and trial count as Pi2Main, with every rank taking part in the collection and rank 0 receiving each other rank's count once in rank order |

## Left out

- The MPI runtime (`MPI_Init`, `MPI_Finalize`, `MPI_Comm_rank`, `MPI_Comm_size`)
  and real message delivery are not modelled. The group is simulated
  sequentially: a transfer copies the sender's value into the receiver's
  slot. Concurrency, blocking and deadlock are outside the model.
- `rand()`, `sqrt` and all `double` arithmetic are left out. The hit test is
  an oracle on the global trial index. In the programs, a trial's outcome
  depends on how far the rank has read in its own `rand()` stream. The pi
  estimate `4 * total / n` and its error against `PI25DT` are floating point.
  The model ends with the total and the non-zero divisor.
- `scanf` and `printf` are left out. The root's input is a parameter of the
  driver methods.
- The `root` parameter of `mpi_binomial_bcast_long_long` is unused in the
  source and is fixed at 0 here. The flat-tree reduce does use its `root`,
  and so does `FlatTree.FlatTreeReduce`.
- BinomialBcast.BinomialBcast: does not model overflow of `1 << d` in a
  32-bit `int`. Group sizes are unbounded integers, so the model is exact only
  for sizes of at most 2^30.
- Driver.Pi2Main: counts and totals are unbounded integers, so overflow of
  `long long` is not modelled. The 32-bit loop index is modelled only in the
  Findings row.
- Non-root ranks' copies of n before the distribution are uninitialised in
  the source. Here they are arbitrary array contents.
- The binomial broadcast records a log per round (`BinomialBcast.RoundLog`),
  but not one log for the whole broadcast.
- Both programs run i = rank+1, rank+1+size, ... while i <= n, so the trial
  indices are [1, n]; the model uses this convention for every rank. A
  non-root call of the reduce returns 0, as pi2.c does.

## Findings

| source | as written | input that shows it | evidently intended | confidence | as-written member | corrected member |
|---|---|---|---|---|---|---|
| pi.c:40 | the stride loop index `i` is a 32-bit `int`, compared with the 64-bit `long long n` (pi2.c:79 has the same loop) | n = 3000000000 with one rank: after i = 2147483647 the step `i += size` wraps to -2147483648, which still passes `i <= n`, so trials run for indices outside [1, n] and the loop never ends | the index has the width of n, so that rank r runs exactly its indices of [1, n] and stops | not executed; signed overflow is undefined in C, and wrap-around is assumed | StridePartition.StrideIndexWraps | StridePartition.LocalCount |
