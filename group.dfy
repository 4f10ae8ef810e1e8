/** Arithmetic of the process group shared by the collective operations: the
    doubling distance of the binomial tree and the number of rounds it needs.
    Group sizes and shifts are unbounded integers here (see README). */
module Group {

  /** 2^d, written `1 << d` in pi2.c. */
  function Pow2(d: nat): (p: nat)
    ensures p >= 1
  {
    if d == 0 then 1 else 2 * Pow2(d - 1)
  }

  lemma {:induction false} Pow2Monotone(i: nat, j: nat)
    requires i <= j
    ensures Pow2(i) <= Pow2(j)
    decreases j - i
  {
    if i < j {
      Pow2Monotone(i, j - 1);
    }
  }

  /** The number of rounds of the binomial broadcast for `size` ranks:
      the least k with size <= 2^k, i.e. ceil(log2(size)). */
  function Rounds(size: nat): (k: nat)
    requires size >= 1
    ensures size <= Pow2(k)
    ensures k == 0 || Pow2(k - 1) < size
    ensures k == 0 <==> size == 1
    decreases size
  {
    if size == 1 then 0 else 1 + Rounds((size + 1) / 2)
  }

  /** The two bounds of Rounds pin it down: any k meeting them is Rounds(size). */
  lemma RoundsUnique(size: nat, k: nat)
    requires size >= 1
    requires size <= Pow2(k)
    requires k == 0 || Pow2(k - 1) < size
    ensures k == Rounds(size)
  {
    var m := Rounds(size);
    if k < m {
      Pow2Monotone(k, m - 1);
    } else if m < k {
      Pow2Monotone(m, k - 1);
    }
  }
}
