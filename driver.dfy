/** The `main` functions of pi2.c and pi.c, simulated for the whole group at
    once: rank 0's input n is spread to every rank, every rank stops when its
    n is 0, otherwise every rank counts hits over its stride share and the
    counts are collected at rank 0. The estimate 4 * total / n is floating
    point and is not computed here; the model ends with the total and the
    divisor the root would use. */
module Driver {
  import BinomialBcast
  import FlatTree
  import opened Group
  import opened Messages
  import opened StridePartition

  /** How a run ends at the root. `Quit`: every rank left right after learning
      n. `Estimated`: the root divides `totalCount` by `n`. */
  datatype Outcome = Quit | Estimated(totalCount: int, n: int)

  /** Per-rank counts that are each rank's hits add up to RankTotal. */
  lemma {:induction false} SumOfRankCounts(c: seq<int>, size: nat, n: int, hit: int -> bool, k: nat)
    requires size >= 1 && k <= |c|
    requires forall r :: 0 <= r < k ==> c[r] == Hits(Owned(r, size, n), hit)
    ensures FlatTree.Sum(c[..k]) == RankTotal(size, n, hit, k)
  {
    if k > 0 {
      SumOfRankCounts(c, size, n, hit, k - 1);
      assert c[..k][..k - 1] == c[..k - 1];
    }
  }

  /** The number of trials run by ranks 0 .. k-1 together. It equals
      RankTotal(size, n, AllTrials, k) (TrialTotalCounts), but is kept as its
      own sum of share sizes so that the sampling loop's invariant does not
      mention the hit oracle. */
  function TrialTotal(size: nat, n: int, k: nat): nat
    requires size >= 1
  {
    if k == 0 then 0 else TrialTotal(size, n, k - 1) + |Owned(k - 1, size, n)|
  }

  /** Every index of [1, n] is run once by exactly one rank: the trials of
      all ranks together number n. */
  lemma TrialsCover(size: nat, n: int)
    requires size >= 1
    ensures TrialTotal(size, n, size) == |Range(n)|
  {
    TrialTotalCounts(size, n, size);
    ScalingInvariance(size, n, AllTrials);
    HitsAllTrials(Range(n));
  }

  /** Counting trials is counting hits under the oracle that always hits. */
  lemma {:induction false} TrialTotalCounts(size: nat, n: int, k: nat)
    requires size >= 1
    ensures TrialTotal(size, n, k) == RankTotal(size, n, AllTrials, k)
  {
    if k > 0 {
      TrialTotalCounts(size, n, k - 1);
      HitsAllTrials(Owned(k - 1, size, n));
    }
  }

  /** The part both programs share after n is known (pi2.c:71-88, pi.c:31-49):
      each rank tests its own copy of n, leaves when it is 0 and otherwise runs
      its stride loop. `ns` holds every rank's copy, all equal after the
      distribution; `exited` is the number of ranks that left, `trials` the
      number of trials run by all ranks together. */
  method SamplePhase(ns: array<int>, hit: int -> bool) returns (counts: array<int>, exited: nat, trials: nat)
    requires ns.Length >= 1
    requires forall r :: 0 <= r < ns.Length ==> ns[r] == ns[0]
    ensures fresh(counts) && counts.Length == ns.Length
    ensures exited == if ns[0] == 0 then ns.Length else 0
    ensures ns[0] == 0 ==> trials == 0
    ensures ns[0] != 0 ==> trials == |Range(ns[0])|
    ensures ns[0] != 0 ==> forall r :: 0 <= r < counts.Length ==> counts[r] == Hits(Owned(r, ns.Length, ns[0]), hit)
  {
    var size, n := ns.Length, ns[0];
    counts := new int[size];
    exited, trials := 0, 0;
    var r := 0;
    while r < size
      invariant 0 <= r <= size
      invariant exited == if n == 0 then r else 0
      invariant n == 0 ==> trials == 0
      invariant n != 0 ==> trials == TrialTotal(size, n, r)
      invariant n != 0 ==> forall k :: 0 <= k < r ==> counts[k] == Hits(Owned(k, size, n), hit)
    {
      if ns[r] == 0 {
        exited := exited + 1;
      } else {
        var c, t := LocalCount(r, size, ns[r], hit);
        counts[r] := c;
        trials := trials + t;
      }
      r := r + 1;
    }
    if n != 0 {
      TrialsCover(size, n);
    }
  }

  /** Every rank's hit count over its own share of [1, n], indexed by rank. */
  function RankCounts(size: nat, n: int, hit: int -> bool): (c: seq<int>)
    requires size >= 1
    ensures |c| == size
  {
    seq(size, r requires 0 <= r < size => Hits(Owned(r, size, n), hit))
  }

  /** pi2.c's `main`: binomial broadcast of the input, exit on n == 0 before
      any sampling, reduce or division, otherwise stride sampling and the
      flat-tree reduce at root 0. The root's total is the number of hits over
      [1, n], whatever the group size, and never exceeds the trials run.
      `rounds` is the number of broadcast rounds, `exited` the number of ranks
      that left on n == 0, `reduces` the number of ranks that called the
      reduce and `rootLog` what the root received during it. */
  method Pi2Main(input: int, size: nat, hit: int -> bool)
    returns (outcome: Outcome, trials: nat, rounds: nat, exited: nat, reduces: nat, rootLog: seq<Event>)
    requires size >= 1
    ensures rounds == Rounds(size)
    ensures exited == if input == 0 then size else 0
    ensures input == 0 ==> outcome == Quit && trials == 0 && reduces == 0 && rootLog == []
    ensures input != 0 ==> outcome == Estimated(Hits(Range(input), hit), input)
    ensures input != 0 ==> trials == |Range(input)|
    ensures input != 0 ==> reduces == size && rootLog == FlatTree.ReduceLog(RankCounts(size, input, hit), 0, 0)
    ensures outcome.Estimated? ==> outcome.n != 0 && 0 <= outcome.totalCount <= trials
  {
    var ns := new int[size];
    ns[0] := input;
    rounds := BinomialBcast.BinomialBcast(ns);
    assert ns[0] == input;
    var counts;
    counts, exited, trials := SamplePhase(ns, hit);
    var n := ns[0];
    if exited == size {
      return Quit, trials, rounds, exited, 0, [];
    }
    ghost var cs := counts[..];
    assert cs == RankCounts(size, input, hit);
    assert cs[..size] == cs;
    SumOfRankCounts(cs, size, input, hit, size);
    ScalingInvariance(size, input, hit);
    // Every rank calls the reduce; only the root's result is used.
    var total := 0;
    reduces, rootLog := 0, [];
    for r := 0 to size
      invariant reduces == r
      invariant r > 0 ==> total == FlatTree.Sum(cs) && rootLog == FlatTree.ReduceLog(cs, 0, 0)
      invariant counts[..] == cs
    {
      var t, log := FlatTree.FlatTreeReduce(counts, r, 0);
      reduces := reduces + 1;
      if r == 0 {
        total, rootLog := t, log;
      }
    }
    outcome := Estimated(total, n);
  }

  /** pi.c's `main`: the same run with the flat distribution of n from rank 0
      and the collection at rank 0 written inline. `sendLog` is what rank 0
      sent while distributing n, `collects` the number of ranks that took part
      in the collection and `rootLog` what rank 0 received during it. */
  method PiMain(input: int, size: nat, hit: int -> bool)
    returns (outcome: Outcome, trials: nat, sendLog: seq<Event>, exited: nat, collects: nat, rootLog: seq<Event>)
    requires size >= 1
    ensures sendLog == FlatTree.DistributeLog(input, 0, size)
    ensures exited == if input == 0 then size else 0
    ensures input == 0 ==> outcome == Quit && trials == 0 && collects == 0 && rootLog == []
    ensures input != 0 ==> outcome == Estimated(Hits(Range(input), hit), input)
    ensures input != 0 ==> trials == |Range(input)|
    ensures input != 0 ==> collects == size && rootLog == FlatTree.ReduceLog(RankCounts(size, input, hit), 0, 0)
    ensures outcome.Estimated? ==> outcome.n != 0 && 0 <= outcome.totalCount <= trials
  {
    var ns := new int[size];
    ns[0] := input;
    sendLog := FlatTree.FlatDistribute(ns);
    assert ns[0] == input;
    var counts;
    counts, exited, trials := SamplePhase(ns, hit);
    var n := ns[0];
    if exited == size {
      return Quit, trials, sendLog, exited, 0, [];
    }
    ghost var cs := counts[..];
    assert cs == RankCounts(size, input, hit);
    assert cs[..size] == cs;
    SumOfRankCounts(cs, size, input, hit, size);
    ScalingInvariance(size, input, hit);
    var total: FlatTree.Option<int> := FlatTree.None;
    collects, rootLog := 0, [];
    for r := 0 to size
      invariant collects == r
      invariant r > 0 ==> total == FlatTree.Some(FlatTree.Sum(cs)) && rootLog == FlatTree.ReduceLog(cs, 0, 0)
      invariant counts[..] == cs
    {
      var t, log := FlatTree.CollectCounts(counts, r);
      collects := collects + 1;
      if r == 0 {
        total, rootLog := t, log;
      }
    }
    outcome := Estimated(total.value, n);
  }
}
