/** Point-to-point transfers as each rank records them, and what it means for
    the records of a whole group to fit together. Delivery itself is the
    transport's business; a record only says what a rank sent or received. */
module Messages {

  /** One transfer seen from one end; `peer` is the rank at the other end. */
  datatype Event = Sent(peer: nat, value: int) | Received(peer: nat, value: int)

  /** The values that `log` sends to rank `dest`, in the order they are sent. */
  function SentTo(log: seq<Event>, dest: nat): seq<int>
  {
    if log == [] then []
    else if log[|log| - 1].Sent? && log[|log| - 1].peer == dest then
      SentTo(log[..|log| - 1], dest) + [log[|log| - 1].value]
    else
      SentTo(log[..|log| - 1], dest)
  }

  /** The values that `log` receives from rank `source`, in the order received. */
  function ReceivedFrom(log: seq<Event>, source: nat): seq<int>
  {
    if log == [] then []
    else if log[|log| - 1].Received? && log[|log| - 1].peer == source then
      ReceivedFrom(log[..|log| - 1], source) + [log[|log| - 1].value]
    else
      ReceivedFrom(log[..|log| - 1], source)
  }

  /** The logs of a group fit together: for every ordered pair of ranks, what
      `a` sends to `b` is, value for value and in order, what `b` receives from
      `a`. Every receive then has exactly one matching send, and every send
      exactly one matching receive. */
  predicate Matched(logs: seq<seq<Event>>)
  {
    forall a, b :: 0 <= a < |logs| && 0 <= b < |logs| ==> SentTo(logs[a], b) == ReceivedFrom(logs[b], a)
  }

  /** A log of one event sends or receives at most that one value. */
  lemma SingleEvent(e: Event, peer: nat)
    ensures SentTo([e], peer) == if e.Sent? && e.peer == peer then [e.value] else []
    ensures ReceivedFrom([e], peer) == if e.Received? && e.peer == peer then [e.value] else []
  {
    assert [e][..0] == [];
  }

  /** Appending one event adds at most that event's value. */
  lemma EventSnoc(log: seq<Event>, e: Event, peer: nat)
    ensures SentTo(log + [e], peer) == SentTo(log, peer) + (if e.Sent? && e.peer == peer then [e.value] else [])
    ensures ReceivedFrom(log + [e], peer) == ReceivedFrom(log, peer) + (if e.Received? && e.peer == peer then [e.value] else [])
  {
    assert (log + [e])[..|log|] == log;
  }

  lemma {:induction false} SentToAppend(log: seq<Event>, more: seq<Event>, dest: nat)
    ensures SentTo(log + more, dest) == SentTo(log, dest) + SentTo(more, dest)
    decreases |more|
  {
    if more != [] {
      var front := more[..|more| - 1];
      SentToAppend(log, front, dest);
      assert (log + more)[..|log + more| - 1] == log + front;
    } else {
      assert log + more == log;
    }
  }

  lemma {:induction false} ReceivedFromAppend(log: seq<Event>, more: seq<Event>, source: nat)
    ensures ReceivedFrom(log + more, source) == ReceivedFrom(log, source) + ReceivedFrom(more, source)
    decreases |more|
  {
    if more != [] {
      var front := more[..|more| - 1];
      ReceivedFromAppend(log, front, source);
      assert (log + more)[..|log + more| - 1] == log + front;
    } else {
      assert log + more == log;
    }
  }
}
