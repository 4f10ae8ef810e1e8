/** The round-robin split of trial indices 1 .. n over the ranks, and the local
    count of hits each rank accumulates over its share (the stride loops of
    pi2.c and pi.c). The random hit test of a trial is the oracle `hit`,
    applied to the trial's index. */
module StridePartition {

  /** The remainder of a modulo m, by repeated subtraction (equal to a % m,
      see ModIsRemainder). */
  function Mod(a: nat, m: nat): (r: nat)
    requires m >= 1
    ensures r < m
    decreases a
  {
    if a < m then a else Mod(a - m, m)
  }

  /** The rank that owns trial index i: rank r runs i = r+1, r+1+size, ... */
  function Owner(i: int, size: nat): nat
    requires size >= 1 && i >= 1
  {
    Mod(i - 1, size)
  }

  /** Reference definition: the indices in [1, n] owned by rank r, ascending. */
  function Owned(r: nat, size: nat, n: int): seq<int>
    requires size >= 1
    decreases if n > 0 then n else 0
  {
    if n <= 0 then []
    else if Owner(n, size) == r then Owned(r, size, n - 1) + [n]
    else Owned(r, size, n - 1)
  }

  /** The whole range [1, n], as one process alone would scan it. */
  function Range(n: int): (s: seq<int>)
    ensures |s| == if n > 0 then n else 0
    decreases if n > 0 then n else 0
  {
    if n <= 0 then [] else Range(n - 1) + [n]
  }

  /** The number of indices of s whose trial is a hit. */
  function Hits(s: seq<int>, hit: int -> bool): (h: nat)
    ensures h <= |s|
  {
    if s == [] then 0 else Hits(s[..|s| - 1], hit) + (if hit(s[|s| - 1]) then 1 else 0)
  }

  /** The oracle under which every trial counts: Hits then counts trials. */
  function AllTrials(i: int): bool
  {
    true
  }

  lemma {:induction false} HitsAllTrials(s: seq<int>)
    ensures Hits(s, AllTrials) == |s|
  {
    if s != [] {
      HitsAllTrials(s[..|s| - 1]);
    }
  }

  lemma HitsSnoc(s: seq<int>, x: int, hit: int -> bool)
    ensures Hits(s + [x], hit) == Hits(s, hit) + (if hit(x) then 1 else 0)
  {
    assert (s + [x])[..|s|] == s;
  }

  /** Rank r runs exactly the indices i of [1, n] with i - 1 = r (mod size),
      i.e. i = r + 1 (mod size); there are none when n <= 0. */
  lemma {:induction false} OwnedMembers(r: nat, size: nat, n: int, x: int)
    requires size >= 1
    ensures x in Owned(r, size, n) <==> 1 <= x <= n && (x - 1) % size == r
    decreases if n > 0 then n else 0
  {
    if n > 0 {
      OwnedMembers(r, size, n - 1, x);
      if x == n {
        ModIsRemainder(n - 1, size);
      }
    }
  }

  /** A rank's indices come in strictly ascending order, so none repeats. */
  lemma {:induction false} OwnedAscending(r: nat, size: nat, n: int)
    requires size >= 1
    ensures forall i, j :: 0 <= i < j < |Owned(r, size, n)| ==> Owned(r, size, n)[i] < Owned(r, size, n)[j]
    decreases if n > 0 then n else 0
  {
    if n > 0 {
      var prev := Owned(r, size, n - 1);
      OwnedAscending(r, size, n - 1);
      if Owner(n, size) == r {
        var s := Owned(r, size, n);
        assert s == prev + [n];
        forall i, j | 0 <= i < j < |s| ensures s[i] < s[j] {
          if j == |prev| {
            OwnedMembers(r, size, n - 1, s[i]);
          }
        }
      } else {
        assert Owned(r, size, n) == prev + [];
      }
    }
  }

  /** Disjointness: no index belongs to two ranks. */
  lemma PartitionDisjoint(r1: nat, r2: nat, size: nat, n: int, x: int)
    requires size >= 1 && r1 != r2
    ensures !(x in Owned(r1, size, n) && x in Owned(r2, size, n))
  {
    OwnedMembers(r1, size, n, x);
    OwnedMembers(r2, size, n, x);
  }

  /** Exhaustiveness: every index of [1, n] belongs to a rank of the group,
      namely Owner(x, size), and to no other. */
  lemma PartitionCovers(size: nat, n: int, x: int)
    requires size >= 1 && 1 <= x <= n
    ensures Owner(x, size) < size && x in Owned(Owner(x, size), size, n)
    ensures forall r: nat :: r != Owner(x, size) ==> x !in Owned(r, size, n)
  {
    OwnedMembers(Owner(x, size), size, n, x);
    forall r: nat | r != Owner(x, size) ensures x !in Owned(r, size, n) {
      OwnedMembers(r, size, n, x);
    }
  }

  lemma {:induction false} MulAtLeast(k: int, m: int)
    requires k >= 1 && m > 0
    ensures k * m >= m
    decreases k
  {
    if k > 1 {
      MulAtLeast(k - 1, m);
      assert k * m == (k - 1) * m + m;
    }
  }

  /** Adding a multiple of m does not change the remainder modulo m. */
  lemma ModPlusMultiple(a: int, m: int, k: int)
    requires m > 0
    ensures (a + k * m) % m == a % m
  {
    var b := a + k * m;
    var d := b / m - a / m - k;
    assert a == (a / m) * m + a % m;
    assert b == (b / m) * m + b % m;
    assert d * m == a % m - b % m;
    if d > 0 {
      MulAtLeast(d, m);
    } else if d < 0 {
      MulAtLeast(-d, m);
    }
  }

  lemma {:induction false} ModIsRemainder(a: nat, m: nat)
    requires m >= 1
    ensures Mod(a, m) == a % m
    decreases a
  {
    if a >= m {
      ModIsRemainder(a - m, m);
      ModPlusMultiple(a - m, m, 1);
    }
  }

  /** Two numbers less than m apart leave different remainders modulo m. */
  lemma {:induction false} ModDistinct(a: nat, b: nat, m: nat)
    requires m >= 1 && a < b < a + m
    ensures Mod(a, m) != Mod(b, m)
    decreases a
  {
    if a >= m {
      ModDistinct(a - m, b - m, m);
    } else if b >= m {
      assert Mod(b, m) == Mod(b - m, m) == b - m;
    }
  }

  /** Indices in (lo, hi] that rank r does not own leave its list unchanged. */
  lemma {:induction false} OwnedGap(r: nat, size: nat, lo: int, hi: int)
    requires size >= 1 && lo <= hi
    requires forall x :: lo < x <= hi && x >= 1 ==> Owner(x, size) != r
    ensures Owned(r, size, hi) == Owned(r, size, lo)
    decreases hi - lo
  {
    if lo < hi {
      OwnedGap(r, size, lo, hi - 1);
      if hi > 0 {
        assert Owned(r, size, hi) == Owned(r, size, hi - 1) + [];
      }
    }
  }

  /** One step of the stride loop: from the owned index i, the next size-1
      indices belong to other ranks. */
  lemma OwnedStride(r: nat, size: nat, i: int)
    requires size >= 1 && i >= 1 && Owner(i, size) == r
    ensures Owned(r, size, i + size - 1) == Owned(r, size, i - 1) + [i]
    ensures Owner(i + size, size) == r
  {
    forall x | i < x <= i + size - 1 && x >= 1 ensures Owner(x, size) != r {
      ModDistinct(i - 1, x - 1, size);
    }
    OwnedGap(r, size, i, i + size - 1);
  }

  /** Below its first index r + 1 a rank owns nothing. */
  lemma OwnedBelowStart(r: nat, size: nat, m: int)
    requires r < size && m <= r
    ensures Owned(r, size, m) == []
  {
    if m > 0 {
      OwnedGap(r, size, 0, m);
    }
  }

  /** When the stride loop stops at i > n, the indices it ran are all of the
      rank's indices up to n. */
  lemma OwnedStrideEnd(r: nat, size: nat, n: int, i: int)
    requires r < size && i >= r + 1 && Owner(i, size) == r
    requires n < i && (i == r + 1 || i - size <= n)
    ensures Owned(r, size, i - 1) == Owned(r, size, n)
  {
    if i == r + 1 {
      OwnedBelowStart(r, size, n);
      OwnedBelowStart(r, size, r);
    } else {
      forall x | n < x <= i - 1 && x >= 1 ensures Owner(x, size) != r {
        ModDistinct(x - 1, i - 1, size);
      }
      OwnedGap(r, size, n, i - 1);
    }
  }

  /** The stride loop of rank `rank`: trial i runs for i = rank+1, rank+1+size,
      ... while i <= n, and `count` goes up by one on each hit. `trials` is the
      number of loop iterations. */
  method LocalCount(rank: nat, size: nat, n: int, hit: int -> bool) returns (count: int, trials: nat)
    requires rank < size
    ensures trials == |Owned(rank, size, n)|
    ensures count == Hits(Owned(rank, size, n), hit)
    ensures 0 <= count <= trials
  {
    count, trials := 0, 0;
    var i := rank + 1;
    ghost var done: seq<int> := [];
    OwnedBelowStart(rank, size, rank);
    while i <= n
      invariant i >= rank + 1 && Owner(i, size) == rank
      invariant i == rank + 1 || i - size <= n
      invariant done == Owned(rank, size, i - 1)
      invariant trials == |done| && count == Hits(done, hit)
      decreases n - i
    {
      if hit(i) {
        count := count + 1;
      }
      trials := trials + 1;
      HitsSnoc(done, i, hit);
      OwnedStride(rank, size, i);
      done := done + [i];
      i := i + size;
    }
    OwnedStrideEnd(rank, size, n, i);
  }

  /** The sum, over ranks 0 .. k-1, of each rank's hits on its own indices. */
  function RankTotal(size: nat, n: int, hit: int -> bool, k: nat): int
    requires size >= 1
  {
    if k == 0 then 0 else RankTotal(size, n, hit, k - 1) + Hits(Owned(k - 1, size, n), hit)
  }

  /** Raising n by one adds a hit for rank r exactly when r owns n and n hits. */
  lemma HitsOwnedStep(r: nat, size: nat, n: int, hit: int -> bool)
    requires size >= 1 && n >= 1
    ensures Hits(Owned(r, size, n), hit)
         == Hits(Owned(r, size, n - 1), hit) + (if Owner(n, size) == r && hit(n) then 1 else 0)
  {
    var before := Owned(r, size, n - 1);
    if Owner(n, size) == r {
      assert Owned(r, size, n) == before + [n];
      HitsSnoc(before, n, hit);
    } else {
      assert before + [] == before;
      assert Owned(r, size, n) == before;
    }
  }

  /** Raising n by one adds index n to its owner's list and to no other. */
  lemma {:induction false} RankTotalStep(size: nat, n: int, hit: int -> bool, k: nat)
    requires size >= 1 && n >= 1
    ensures RankTotal(size, n, hit, k)
         == RankTotal(size, n - 1, hit, k) + (if Owner(n, size) < k && hit(n) then 1 else 0)
  {
    if k > 0 {
      var r := k - 1;
      RankTotalStep(size, n, hit, r);
      HitsOwnedStep(r, size, n, hit);
      var owner := Owner(n, size);
      var gainK := if owner < k && hit(n) then 1 else 0;
      var gainR := if owner < r && hit(n) then 1 else 0;
      var gainOwn := if owner == r && hit(n) then 1 else 0;
      assert gainK == gainR + gainOwn;
    }
  }

  /** Partition and local counts together reconstruct the single-process scan:
      the hits of all ranks add up to the hits over [1, n], whatever the group
      size. */
  lemma {:induction false} ScalingInvariance(size: nat, n: int, hit: int -> bool)
    requires size >= 1
    ensures RankTotal(size, n, hit, size) == Hits(Range(n), hit)
    decreases if n > 0 then n else 0
  {
    if n <= 0 {
      RankTotalEmpty(size, n, hit, size);
    } else {
      ScalingInvariance(size, n - 1, hit);
      RankTotalStep(size, n, hit, size);
      HitsSnoc(Range(n - 1), n, hit);
    }
  }

  lemma {:induction false} RankTotalEmpty(size: nat, n: int, hit: int -> bool, k: nat)
    requires size >= 1 && n <= 0
    ensures RankTotal(size, n, hit, k) == 0
  {
    if k > 0 {
      RankTotalEmpty(size, n, hit, k - 1);
    }
  }

  /** The loop index of the stride loop is a 32-bit `int` while n is a 64-bit
      `long long`. Its step `i += size` as written, with two's-complement
      wrap-around (signed overflow is undefined in C; wrap-around is what
      common compilers produce). */
  const Int32Min: int := -0x8000_0000
  const Int32Max: int := 0x7FFF_FFFF

  function Wrap32(x: int): (w: int)
    ensures Int32Min <= w <= Int32Max
    ensures (w - x) % 0x1_0000_0000 == 0
  {
    (x - Int32Min) % 0x1_0000_0000 + Int32Min
  }

  function NextIndex32(i: int, size: int): int
  {
    Wrap32(i + size)
  }

  /** With n = 3000000000 and one rank, the index after 2147483647 wraps to
      -2147483648: the guard `i <= n` still holds, so the loop runs a trial for
      an index outside [1, n], and since every 32-bit value is <= n the loop
      never stops. */
  lemma StrideIndexWraps()
    ensures NextIndex32(Int32Max, 1) == Int32Min
    ensures NextIndex32(Int32Max, 1) <= 3_000_000_000 && NextIndex32(Int32Max, 1) < 1
    ensures forall i :: Int32Min <= i <= Int32Max ==> NextIndex32(i, 1) <= 3_000_000_000
  {
  }
}
