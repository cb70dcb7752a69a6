/**
  The nodes of a message queue's pool: singly linked chains through the `next` pointers, and the
  one place where each node is.
 */
module MessageNodes {
  import opened Wrappers
  import opened KernelLists

  type Link = Option<nat>    // a pointer to a node, or RT_NULL

  /** Where a node is: on the free list, on the message list, or with the thread that is between
      two critical sections with it. */
  datatype Place = Free | Queued | With(thread: nat)

  function First(l: seq<nat>): Link { if l == [] then None else Some(l[0]) }

  function Last(l: seq<nat>): Link { if l == [] then None else Some(l[|l| - 1]) }

  ghost predicate LinksOn(next: seq<Link>, l: seq<nat>, i: nat)
    requires i < |l|
  {
    l[i] < |next| && next[l[i]] == if i + 1 < |l| then Some(l[i + 1]) else None
  }

  /** `l` is the chain of nodes that begins at `first`. */
  ghost predicate Chain(next: seq<Link>, first: Link, l: seq<nat>) {
    first == First(l) && forall i {:trigger LinksOn(next, l, i)} :: 0 <= i < |l| ==> LinksOn(next, l, i)
  }

  /** A chain is determined by its first pointer. */
  lemma {:induction false} ChainIsUnique(next: seq<Link>, first: Link, l: seq<nat>, l': seq<nat>)
    requires Chain(next, first, l) && Chain(next, first, l')
    requires Distinct(l) && Distinct(l')
    ensures l == l'
    decreases |l|
  {
    if l != [] && l' != [] {
      assert LinksOn(next, l, 0) && LinksOn(next, l', 0);
      ChainTail(next, first, l);
      ChainTail(next, first, l');
      assert Distinct(l[1..]) && Distinct(l'[1..]);
      ChainIsUnique(next, next[l[0]], l[1..], l'[1..]);
      assert l == [l[0]] + l[1..] && l' == [l'[0]] + l'[1..];
    }
  }

  lemma ChainTail(next: seq<Link>, first: Link, l: seq<nat>)
    requires Chain(next, first, l) && l != []
    ensures l[0] < |next| && Chain(next, next[l[0]], l[1..])
  {
    assert LinksOn(next, l, 0);
    forall i | 0 <= i < |l[1..]| ensures LinksOn(next, l[1..], i) {
      assert LinksOn(next, l, i + 1);
    }
  }

  /** Writing the pointer of a node that is not on a chain does not change the chain. */
  lemma ChainKept(next: seq<Link>, first: Link, l: seq<nat>, n: nat, x: Link)
    requires Chain(next, first, l) && n < |next| && n !in l
    ensures Chain(next[n := x], first, l)
  {
    var next' := next[n := x];
    forall i | 0 <= i < |l| ensures LinksOn(next', l, i) {
      assert LinksOn(next, l, i) && l[i] in l;
    }
  }

  lemma ChainPush(next: seq<Link>, first: Link, l: seq<nat>, n: nat)
    requires Chain(next, first, l) && n < |next| && n !in l
    ensures Chain(next[n := first], Some(n), [n] + l)
  {
    ChainKept(next, first, l, n, first);
    var l', next' := [n] + l, next[n := first];
    forall i | 0 <= i < |l'| ensures LinksOn(next', l', i) {
      if i > 0 { assert LinksOn(next', l, i - 1); }
    }
  }

  lemma ChainAppend(next: seq<Link>, first: Link, l: seq<nat>, n: nat)
    requires Chain(next, first, l) && Distinct(l) && l != [] && n < |next| && n !in l && next[n] == None
    ensures l[|l| - 1] < |next| && Chain(next[l[|l| - 1] := Some(n)], first, l + [n])
  {
    assert LinksOn(next, l, |l| - 1);
    var next' := next[l[|l| - 1] := Some(n)];
    var l' := l + [n];
    forall i | 0 <= i < |l'| ensures LinksOn(next', l', i) {
      if i < |l| { assert LinksOn(next, l, i); }
    }
  }

  // ---------- places ----------

  lemma PlaceMoved(place: seq<Place>, q: seq<nat>, p: Place, n: nat, p': Place)
    requires Marked(place, q, p) && n < |place| && place[n] != p && p' != p
    ensures Marked(place[n := p'], q, p)
  {
  }

  /** The first node of a list goes somewhere else. */
  lemma PlaceTaken(place: seq<Place>, q: seq<nat>, p: Place, p': Place)
    requires Marked(place, q, p) && q != [] && p' != p
    ensures q[0] < |place| && Marked(place[q[0] := p'], q[1..], p)
  {
    assert q[0] in q;
    WithoutKeepsDistinct(q, q[0]);
    assert Without(q, q[0]) == q[1..];
  }

  lemma PlaceAdded(place: seq<Place>, q: seq<nat>, p: Place, n: nat, at: nat)
    requires Marked(place, q, p) && n < |place| && place[n] != p && at <= |q|
    ensures Marked(place[n := p], LinkAt(q, n, at), p)
  {
    LinkAtMembers(q, n, at);
  }

  /** The nodes of both lists and those held by threads are all the nodes there are. */
  lemma AllNodes(place: seq<Place>, free: seq<nat>, queued: seq<nat>, held: seq<nat>)
    requires Marked(place, free, Free) && Marked(place, queued, Queued) && Distinct(held)
    requires forall n: nat :: n in held <==> n < |place| && place[n].With?
    ensures |free| + |queued| + |held| == |place|
  {
    var q := free + queued + held;
    assert forall i :: 0 <= i < |free| ==> free[i] in free;
    assert forall i :: 0 <= i < |queued| ==> queued[i] in queued;
    assert forall i :: 0 <= i < |held| ==> held[i] in held;
    assert Distinct(q);
    assert forall n: nat :: n < |place| ==> n in q;
    Pigeonhole(q, |place|);
    Covering(q, |place|);
  }
}
