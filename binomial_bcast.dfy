/** The binomial-tree broadcast of pi2.c, root fixed at rank 0.

    The whole group is simulated at once: `vals[r]` is the broadcast variable
    of rank r. In round d a rank below 2^d sends to rank + 2^d when that rank
    exists, and a rank in [2^d, 2^(d+1)) receives from rank - 2^d; a transfer
    is a copy of the sender's value into the receiver's slot. */
module BinomialBcast {
  import opened Group
  import opened Messages

  /** What one rank does in one round. */
  datatype Action = Send(dest: nat) | Recv(source: nat) | Idle

  /** The branch rank `rank` takes in round d of the loop. */
  function RoundAction(rank: nat, d: nat, size: nat): (a: Action)
    requires rank < size
    ensures a.Send? <==> rank < Pow2(d) && rank + Pow2(d) < size
    ensures a.Send? ==> a.dest == rank + Pow2(d) && rank < a.dest < size
    ensures a.Recv? <==> Pow2(d) <= rank < Pow2(d + 1)
    ensures a.Recv? ==> a.source == rank - Pow2(d) && a.source < Pow2(d) <= rank
  {
    if rank < Pow2(d) then
      if rank + Pow2(d) < size then Send(rank + Pow2(d)) else Idle
    else if rank < Pow2(d + 1) then Recv(rank - Pow2(d))
    else Idle
  }

  /** Sends and receives of a round pair up one to one: rank a sends to b in
      round d exactly when b receives from a in round d. */
  lemma RoundPairing(d: nat, size: nat, a: nat, b: nat)
    requires a < size && b < size
    ensures RoundAction(a, d, size) == Send(b) <==> RoundAction(b, d, size) == Recv(a)
  {
    assert Pow2(d + 1) == 2 * Pow2(d);
  }

  /** The value rank r holds after round d, given the values `s` before it. */
  function RankAfterRound(s: seq<int>, d: nat, r: nat): int
    requires r < |s|
  {
    match RoundAction(r, d, |s|)
    case Recv(source) => s[source]
    case _ => s[r]
  }

  /** The values of all ranks after round d. */
  function RoundStep(s: seq<int>, d: nat): (t: seq<int>)
    ensures |t| == |s|
  {
    seq(|s|, r requires 0 <= r < |s| => RankAfterRound(s, d, r))
  }

  /** Only the receivers of round d, the ranks in [2^d, 2^(d+1)), can change
      value; senders and ranks at or above 2^(d+1) keep theirs. */
  lemma RoundTouchesOnlyReceivers(s: seq<int>, d: nat, r: nat)
    requires r < |s|
    ensures RoundStep(s, d)[r] != s[r] ==> Pow2(d) <= r < Pow2(d + 1)
  {
  }

  /** The doubling step: if every rank below 2^d holds v before round d, then
      every rank below 2^(d+1) holds v after it. */
  lemma RoundDoubles(s: seq<int>, d: nat, v: int)
    requires forall r :: 0 <= r < |s| && r < Pow2(d) ==> s[r] == v
    ensures forall r :: 0 <= r < |s| && r < Pow2(d + 1) ==> RoundStep(s, d)[r] == v
  {
    assert Pow2(d + 1) == 2 * Pow2(d);
  }

  /** The values of all ranks after rounds 0 .. k-1. */
  function AfterRounds(s: seq<int>, k: nat): (t: seq<int>)
    ensures |t| == |s|
  {
    if k == 0 then s else RoundStep(AfterRounds(s, k - 1), k - 1)
  }

  /** After k rounds every rank below min(2^k, size) holds the root's value. */
  lemma {:induction false} AfterRoundsInformed(s: seq<int>, k: nat)
    requires |s| >= 1
    ensures forall r :: 0 <= r < |s| && r < Pow2(k) ==> AfterRounds(s, k)[r] == s[0]
  {
    if k > 0 {
      AfterRoundsInformed(s, k - 1);
      RoundDoubles(AfterRounds(s, k - 1), k - 1, s[0]);
    }
  }

  /** After k rounds no rank at or above 2^k has been reached yet. */
  lemma {:induction false} AfterRoundsUninformed(s: seq<int>, k: nat)
    ensures forall r :: Pow2(k) <= r < |s| ==> AfterRounds(s, k)[r] == s[r]
  {
    if k > 0 {
      AfterRoundsUninformed(s, k - 1);
      var t := AfterRounds(s, k - 1);
      forall r | Pow2(k) <= r < |s|
        ensures AfterRounds(s, k)[r] == s[r]
      {
        Pow2Monotone(k - 1, k);
        RoundTouchesOnlyReceivers(t, k - 1, r);
      }
    }
  }

  /** After Rounds(size) rounds every rank holds the root's value. */
  lemma BcastComplete(s: seq<int>)
    requires |s| >= 1
    ensures forall r :: 0 <= r < |s| ==> AfterRounds(s, Rounds(|s|))[r] == s[0]
  {
    AfterRoundsInformed(s, Rounds(|s|));
  }

  /** What rank r records in round d: one send, one receive, or nothing. */
  function RoundLog(s: seq<int>, d: nat, r: nat): seq<Event>
    requires r < |s|
  {
    match RoundAction(r, d, |s|)
    case Send(dest) => [Sent(dest, s[r])]
    case Recv(source) => [Received(source, s[source])]
    case Idle => []
  }

  /** Within a round, the records of all ranks fit together: every receive has
      exactly one matching send carrying the value it gets, and vice versa. */
  lemma RoundMatched(s: seq<int>, d: nat)
    ensures Matched(seq(|s|, r requires 0 <= r < |s| => RoundLog(s, d, r)))
  {
    var logs := seq(|s|, r requires 0 <= r < |s| => RoundLog(s, d, r));
    forall a, b | 0 <= a < |logs| && 0 <= b < |logs|
      ensures SentTo(logs[a], b) == ReceivedFrom(logs[b], a)
    {
      RoundPairing(d, |s|, a, b);
      var la, lb := RoundLog(s, d, a), RoundLog(s, d, b);
      assert la == [] || la[..0] == [];
      assert lb == [] || lb[..0] == [];
    }
  }

  /** One round, simulated rank by rank. Receivers copy from ranks below 2^d,
      which do not receive in the same round, so the order of the simulation
      does not matter. */
  method BcastRound(vals: array<int>, d: nat)
    modifies vals
    ensures vals[..] == RoundStep(old(vals[..]), d)
  {
    ghost var before := vals[..];
    var r := 0;
    while r < vals.Length
      invariant 0 <= r <= vals.Length
      invariant forall k :: 0 <= k < r ==> vals[k] == RoundStep(before, d)[k]
      invariant forall k :: r <= k < vals.Length ==> vals[k] == before[k]
    {
      match RoundAction(r, d, vals.Length) {
        case Recv(source) =>
          vals[r] := vals[source];
        case _ =>
      }
      r := r + 1;
    }
  }

  /** `mpi_binomial_bcast_long_long` for the whole group: rounds run while
      2^d < size, and on exit every rank holds the root's original value. */
  method BinomialBcast(vals: array<int>) returns (rounds: nat)
    requires vals.Length >= 1
    modifies vals
    ensures rounds == Rounds(vals.Length)
    ensures vals[..] == AfterRounds(old(vals[..]), rounds)
    ensures forall r :: 0 <= r < vals.Length ==> vals[r] == old(vals[0])
  {
    var d := 0;
    while Pow2(d) < vals.Length
      invariant vals[..] == AfterRounds(old(vals[..]), d)
      invariant d == 0 || Pow2(d - 1) < vals.Length
      decreases vals.Length - Pow2(d)
    {
      BcastRound(vals, d);
      d := d + 1;
    }
    RoundsUnique(vals.Length, d);
    BcastComplete(old(vals[..]));
    rounds := d;
  }
}
