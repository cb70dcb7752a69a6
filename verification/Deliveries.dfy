/**
  What a mailbox or message queue owes its users, told by the history of its events alone: the
  order in which messages come out, and that none is lost, repeated or made up.
 */
module Deliveries {
  datatype Event<T> =
    | Put(value: T)         // linked at the end
    | PutFirst(value: T)    // linked at the head, as urgent
    | Got(value: T)         // taken by a receiver
    | Cleared               // reset

  type History<T> = seq<Event<T>>

  /** What an event makes of the messages that wait. */
  function Step<T>(q: seq<T>, e: Event<T>): seq<T> {
    match e
    case Put(v) => q + [v]
    case PutFirst(v) => [v] + q
    case Got(_) => if q == [] then [] else q[1..]
    case Cleared => []
  }

  /** The messages that are still to be delivered, in the order of delivery. */
  function Pending<T>(h: History<T>): seq<T> {
    if h == [] then [] else Step(Pending(h[..|h| - 1]), h[|h| - 1])
  }

  /** Every message taken was the one due at that moment. */
  ghost predicate InOrder<T(!new)>(h: History<T>) {
    forall i {:trigger Due(h, i)} :: 0 <= i < |h| && h[i].Got? ==> Due(h, i)
  }

  ghost predicate Due<T(!new)>(h: History<T>, i: nat)
    requires i < |h| && h[i].Got?
  {
    Pending(h[..i]) != [] && Pending(h[..i])[0] == h[i].value
  }

  function Taken<T>(h: History<T>): seq<T> {
    if h == [] then [] else
      Taken(h[..|h| - 1]) + (if h[|h| - 1].Got? then [h[|h| - 1].value] else [])
  }

  /** The messages linked, in the order of linking. */
  function Linked<T>(h: History<T>): seq<T> {
    if h == [] then [] else
      Linked(h[..|h| - 1]) + (if h[|h| - 1].Put? || h[|h| - 1].PutFirst? then [h[|h| - 1].value] else [])
  }

  lemma Append<T(!new)>(h: History<T>, e: Event<T>)
    requires InOrder(h) && (e.Got? ==> Pending(h) != [] && Pending(h)[0] == e.value)
    ensures InOrder(h + [e])
    ensures Pending(h + [e]) == Step(Pending(h), e)
  {
    var h' := h + [e];
    assert h'[..|h|] == h;
    forall i | 0 <= i < |h'| && h'[i].Got? ensures Due(h', i) {
      if i < |h| {
        assert Due(h, i);
        assert h'[..i] == h[..i];
      }
    }
  }

  lemma InOrderPrefix<T(!new)>(h: History<T>)
    requires InOrder(h) && h != []
    ensures InOrder(h[..|h| - 1])
  {
    var p := h[..|h| - 1];
    forall i | 0 <= i < |p| && p[i].Got? ensures Due(p, i) {
      assert Due(h, i);
      assert p[..i] == h[..i];
    }
  }

  /** First in, first out: as long as nothing was urgent and nothing reset, the messages taken,
      followed by those still there, are the messages linked, in that order. */
  lemma {:induction false} FirstInFirstOut<T(!new)>(h: History<T>)
    requires InOrder(h) && forall i :: 0 <= i < |h| ==> h[i].Put? || h[i].Got?
    ensures Taken(h) + Pending(h) == Linked(h)
  {
    if h != [] {
      var p, e := h[..|h| - 1], h[|h| - 1];
      InOrderPrefix(h);
      FirstInFirstOut(p);
      if e.Got? {
        assert Due(h, |h| - 1);
        assert Pending(p) == [e.value] + Pending(p)[1..];
      }
    }
  }

  /** Nothing is lost, repeated or made up, urgent messages included. */
  lemma {:induction false} NothingLost<T(!new)>(h: History<T>)
    requires InOrder(h) && forall i :: 0 <= i < |h| ==> !h[i].Cleared?
    ensures multiset(Taken(h)) + multiset(Pending(h)) == multiset(Linked(h))
  {
    if h != [] {
      var p, e := h[..|h| - 1], h[|h| - 1];
      InOrderPrefix(h);
      NothingLost(p);
      if e.Got? {
        assert Due(h, |h| - 1);
        assert Pending(p) == [e.value] + Pending(p)[1..];
      }
    }
  }

  /** An urgent message is the next one taken, unless another urgent one or a reset comes in between. */
  lemma {:induction false} UrgentIsNext<T(!new)>(h: History<T>, i: nat, j: nat)
    requires InOrder(h) && i < j < |h| && h[i].PutFirst? && h[j].Got?
    requires forall k :: i < k < j ==> h[k].Put?
    ensures h[j].value == h[i].value
  {
    UrgentIsFirst(h, i, j);
    assert Due(h, j);
  }

  lemma {:induction false} UrgentIsFirst<T(!new)>(h: History<T>, i: nat, j: nat)
    requires i < j <= |h| && h[i].PutFirst?
    requires forall k :: i < k < j ==> h[k].Put?
    ensures Pending(h[..j]) != [] && Pending(h[..j])[0] == h[i].value
    decreases j
  {
    assert h[..j][..j - 1] == h[..j - 1];
    if j > i + 1 {
      UrgentIsFirst(h, i, j - 1);
    }
  }
}
