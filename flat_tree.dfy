/** Flat-tree collectives: every non-root rank talks only to the root.
    - `FlatTreeReduce`: the reduce of pi2.c, with its own `root` parameter.
    - `CollectCounts`: the same collection written inline in pi.c, root 0.
    - `FlatDistribute`: pi.c's distribution of n from rank 0 to all others.
    The value a rank receives from rank i is rank i's local value: the
    transport is reliable and delivers each message to its addressee. */
module FlatTree {
  import opened Messages

  datatype Option<T> = None | Some(value: T)

  /** The sum of all per-rank values. */
  function Sum(s: seq<int>): int
  {
    if s == [] then 0 else Sum(s[..|s| - 1]) + s[|s| - 1]
  }

  /** The sum of s[0 .. k) leaving out index `skip`. */
  function SumExcept(s: seq<int>, skip: nat, k: nat): int
    requires k <= |s|
  {
    if k == 0 then 0 else SumExcept(s, skip, k - 1) + (if k - 1 == skip then 0 else s[k - 1])
  }

  /** Adding the left-out value back gives the full sum. */
  lemma {:induction false} SumExceptAddsBack(s: seq<int>, skip: nat, k: nat)
    requires k <= |s|
    ensures SumExcept(s, skip, k) + (if skip < k then s[skip] else 0) == Sum(s[..k])
  {
    if k > 0 {
      SumExceptAddsBack(s, skip, k - 1);
      assert s[..k][..k - 1] == s[..k - 1];
    }
  }

  /** The root's receives from ranks [0, k), in ascending rank order, skipping itself. */
  function RootLog(s: seq<int>, root: nat, k: nat): seq<Event>
    requires k <= |s|
  {
    if k == 0 then []
    else if k - 1 == root then RootLog(s, root, k - 1)
    else RootLog(s, root, k - 1) + [Received(k - 1, s[k - 1])]
  }

  /** What rank `rank` records during the reduce: the root receives from every
      other rank, every other rank sends its value to the root once. */
  function ReduceLog(s: seq<int>, rank: nat, root: nat): seq<Event>
    requires rank < |s|
  {
    if rank == root then RootLog(s, root, |s|) else [Sent(root, s[rank])]
  }

  /** The root's log lists every other rank exactly once, in ascending order:
      entry j comes from rank j below the root and from rank j + 1 above it. */
  lemma {:induction false} RootLogOrder(s: seq<int>, root: nat, k: nat)
    requires k <= |s|
    ensures |RootLog(s, root, k)| == if root < k then k - 1 else k
    ensures forall j :: 0 <= j < |RootLog(s, root, k)| ==>
      var p := if j < root then j else j + 1;
      p < k && RootLog(s, root, k)[j] == Received(p, s[p])
  {
    if k > 0 {
      RootLogOrder(s, root, k - 1);
    }
  }

  /** Rank k-1's turn in the root's loop: nothing when it is the root itself,
      otherwise one receive of its value from it. */
  lemma RootLogTurn(s: seq<int>, root: nat, k: nat, peer: nat)
    requires 0 < k <= |s|
    ensures SentTo(RootLog(s, root, k), peer) == SentTo(RootLog(s, root, k - 1), peer)
    ensures k - 1 == root || peer != k - 1 ==>
      ReceivedFrom(RootLog(s, root, k), peer) == ReceivedFrom(RootLog(s, root, k - 1), peer)
    ensures k - 1 != root && peer == k - 1 ==>
      ReceivedFrom(RootLog(s, root, k), peer) == ReceivedFrom(RootLog(s, root, k - 1), peer) + [s[k - 1]]
  {
    if k - 1 != root {
      var prev := RootLog(s, root, k - 1);
      assert (prev + [Received(k - 1, s[k - 1])])[..|prev|] == prev;
    }
  }

  /** The root sends nothing during the reduce. */
  lemma {:induction false} RootLogSendsNothing(s: seq<int>, root: nat, k: nat, peer: nat)
    requires k <= |s|
    ensures SentTo(RootLog(s, root, k), peer) == []
  {
    if k > 0 {
      RootLogSendsNothing(s, root, k - 1, peer);
      RootLogTurn(s, root, k, peer);
    }
  }

  /** The root receives exactly one value from each rank other than itself,
      that rank's own value, and nothing from itself or from outside [0, k). */
  lemma {:induction false} RootLogPeers(s: seq<int>, root: nat, k: nat, peer: nat)
    requires k <= |s|
    ensures SentTo(RootLog(s, root, k), peer) == []
    ensures ReceivedFrom(RootLog(s, root, k), peer) == if peer < k && peer != root then [s[peer]] else []
  {
    RootLogSendsNothing(s, root, k, peer);
    if k > 0 {
      RootLogPeers(s, root, k - 1, peer);
      RootLogTurn(s, root, k, peer);
      if k - 1 != root && peer == k - 1 {
        assert [] + [s[peer]] == [s[peer]];
      }
    }
  }

  /** For one ordered pair of ranks: what a sends to b during the reduce is
      what b receives from a. */
  lemma ReducePair(s: seq<int>, root: nat, a: nat, b: nat)
    requires root < |s| && a < |s| && b < |s|
    ensures SentTo(ReduceLog(s, a, root), b) == ReceivedFrom(ReduceLog(s, b, root), a)
  {
    if a == root {
      RootLogPeers(s, root, |s|, b);
    } else {
      SingleEvent(Sent(root, s[a]), b);
    }
    if b == root {
      RootLogPeers(s, root, |s|, a);
    } else {
      SingleEvent(Sent(root, s[b]), a);
    }
  }

  /** The logs of the whole group during a reduce fit together: each non-root
      rank's single send is the root's single receive from it. */
  lemma ReduceMatched(s: seq<int>, root: nat)
    requires root < |s|
    ensures Matched(seq(|s|, r requires 0 <= r < |s| => ReduceLog(s, r, root)))
  {
    var logs := seq(|s|, r requires 0 <= r < |s| => ReduceLog(s, r, root));
    forall a, b | 0 <= a < |logs| && 0 <= b < |logs|
      ensures SentTo(logs[a], b) == ReceivedFrom(logs[b], a)
    {
      ReducePair(s, root, a, b);
    }
  }

  /** `mpi_flattree_reduce_long_long` at rank `rank`: the root starts from its
      own value and adds one value from every other rank in ascending order;
      any other rank sends its value once and gets 0 back. */
  method FlatTreeReduce(locals: array<int>, rank: nat, root: nat) returns (total: int, log: seq<Event>)
    requires rank < locals.Length && root < locals.Length
    ensures log == ReduceLog(locals[..], rank, root)
    ensures rank == root ==> total == Sum(locals[..])
    ensures rank != root ==> total == 0
  {
    if rank == root {
      total := locals[rank];
      log := [];
      var i := 0;
      while i < locals.Length
        invariant 0 <= i <= locals.Length
        invariant total == locals[root] + SumExcept(locals[..], root, i)
        invariant log == RootLog(locals[..], root, i)
      {
        if i != root {
          log := log + [Received(i, locals[i])];
          total := total + locals[i];
        }
        i := i + 1;
      }
      SumExceptAddsBack(locals[..], root, locals.Length);
      assert locals[..][..locals.Length] == locals[..];
    } else {
      log := [Sent(root, locals[rank])];
      total := 0;
    }
  }

  /** pi.c's collection of partial counts at rank `rank`: rank 0 starts from
      its own count and adds the count of ranks 1 .. size-1 in order; any other
      rank sends its count to rank 0 once and has no total. */
  method CollectCounts(counts: array<int>, rank: nat) returns (total: Option<int>, log: seq<Event>)
    requires rank < counts.Length
    ensures log == ReduceLog(counts[..], rank, 0)
    ensures total == if rank == 0 then Some(Sum(counts[..])) else None
  {
    if rank == 0 {
      var totalCount := counts[0];
      log := [];
      var src := 1;
      while src < counts.Length
        invariant 1 <= src <= counts.Length
        invariant totalCount == counts[0] + SumExcept(counts[..], 0, src)
        invariant log == RootLog(counts[..], 0, src)
      {
        log := log + [Received(src, counts[src])];
        totalCount := totalCount + counts[src];
        src := src + 1;
      }
      SumExceptAddsBack(counts[..], 0, counts.Length);
      assert counts[..][..counts.Length] == counts[..];
      total := Some(totalCount);
    } else {
      log := [Sent(0, counts[rank])];
      total := None;
    }
  }

  /** Rank 0's sends of n to ranks 1 .. k-1, in ascending order. */
  function FlatSends(n: int, k: nat): seq<Event>
  {
    if k <= 1 then [] else FlatSends(n, k - 1) + [Sent(k - 1, n)]
  }

  /** What rank `rank` records during pi.c's distribution of n. */
  function DistributeLog(n: int, rank: nat, size: nat): seq<Event>
  {
    if rank == 0 then FlatSends(n, size) else [Received(0, n)]
  }

  /** Rank 0 sends exactly once to each of ranks 1 .. k-1, in ascending order. */
  lemma {:induction false} FlatSendsOrder(n: int, k: nat)
    ensures |FlatSends(n, k)| == if k == 0 then 0 else k - 1
    ensures forall j :: 0 <= j < |FlatSends(n, k)| ==> FlatSends(n, k)[j] == Sent(j + 1, n)
  {
    if k > 1 {
      FlatSendsOrder(n, k - 1);
    }
  }

  lemma {:induction false} FlatSendsPeers(n: int, k: nat, peer: nat)
    ensures SentTo(FlatSends(n, k), peer) == if 1 <= peer < k then [n] else []
    ensures ReceivedFrom(FlatSends(n, k), peer) == []
  {
    if k > 1 {
      FlatSendsPeers(n, k - 1, peer);
      SentToAppend(FlatSends(n, k - 1), [Sent(k - 1, n)], peer);
      ReceivedFromAppend(FlatSends(n, k - 1), [Sent(k - 1, n)], peer);
      SingleEvent(Sent(k - 1, n), peer);
    }
  }

  /** For one ordered pair of ranks: what a sends to b during the distribution
      is what b receives from a. */
  lemma DistributePair(n: int, size: nat, a: nat, b: nat)
    requires a < size && b < size
    ensures SentTo(DistributeLog(n, a, size), b) == ReceivedFrom(DistributeLog(n, b, size), a)
  {
    if a == 0 {
      FlatSendsPeers(n, size, b);
    } else {
      SingleEvent(Received(0, n), b);
    }
    if b == 0 {
      FlatSendsPeers(n, size, a);
    } else {
      SingleEvent(Received(0, n), a);
    }
  }

  /** The logs of the distribution fit together: each rank other than 0
      receives exactly once, from rank 0, the one send addressed to it. */
  lemma DistributeMatched(n: int, size: nat)
    ensures Matched(seq(size, r requires 0 <= r < size => DistributeLog(n, r, size)))
  {
    var logs := seq(size, r requires 0 <= r < size => DistributeLog(n, r, size));
    forall a, b | 0 <= a < size && 0 <= b < size
      ensures SentTo(logs[a], b) == ReceivedFrom(logs[b], a)
    {
      DistributePair(n, size, a, b);
    }
  }

  /** pi.c's distribution for the whole group: rank 0 sends its n to ranks
      1 .. size-1 in order and each of them stores it. */
  method FlatDistribute(ns: array<int>) returns (rootLog: seq<Event>)
    requires ns.Length >= 1
    modifies ns
    ensures rootLog == DistributeLog(old(ns[0]), 0, ns.Length)
    ensures forall r :: 0 <= r < ns.Length ==> ns[r] == old(ns[0])
  {
    var n := ns[0];
    rootLog := [];
    var dest := 1;
    while dest < ns.Length
      invariant 1 <= dest <= ns.Length
      invariant ns[0] == n
      invariant rootLog == FlatSends(n, dest)
      invariant forall r :: 0 <= r < dest ==> ns[r] == n
    {
      rootLog := rootLog + [Sent(dest, n)];
      ns[dest] := n;
      dest := dest + 1;
    }
  }
}
