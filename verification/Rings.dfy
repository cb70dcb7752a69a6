/**
  Circular doubly linked lists through two pointer fields: the lists of rt-thread/include/rtservice.h,
  and those that rt-thread/src/memheap.c writes out by hand. A field is the sequence of its values in
  all nodes; a ring is the sequence of its nodes, from any one of them on.
 */
module Rings {
  import opened KernelLists

  /** The node behind node `i` of the ring. */
  function After(l: seq<nat>, i: nat): nat
    requires i < |l|
  {
    if i + 1 < |l| then l[i + 1] else l[0]
  }

  ghost predicate LinkedAt(next: seq<nat>, prev: seq<nat>, l: seq<nat>, i: nat)
    requires i < |l|
  {
    l[i] < |next| && next[l[i]] == After(l, i) && After(l, i) < |prev| && prev[After(l, i)] == l[i]
  }

  ghost predicate Ring(next: seq<nat>, prev: seq<nat>, l: seq<nat>) {
    l != [] && Distinct(l)
    && forall i {:trigger LinkedAt(next, prev, l, i)} :: 0 <= i < |l| ==> LinkedAt(next, prev, l, i)
  }

  /** `rt_list_insert_after`: node `x` behind node `i`. */
  lemma InsertKeepsRing(next: seq<nat>, prev: seq<nat>, l: seq<nat>, i: nat, x: nat)
    requires Ring(next, prev, l) && i < |l| && x < |next| == |prev| && x !in l
    ensures l[i] < |next| && After(l, i) < |next|
    ensures Ring(next[x := After(l, i)][l[i] := x], prev[x := l[i]][After(l, i) := x], LinkAt(l, x, i + 1))
  {
    assert LinkedAt(next, prev, l, i);
    var n, p, r := next[x := After(l, i)][l[i] := x], prev[x := l[i]][After(l, i) := x], LinkAt(l, x, i + 1);
    LinkAtMembers(l, x, i + 1);
    forall j | 0 <= j < |r| ensures LinkedAt(n, p, r, j) {
      if j < i {
        assert LinkedAt(next, prev, l, j);
        assert After(r, j) == After(l, j);
      } else if j > i + 1 {
        assert LinkedAt(next, prev, l, j - 1);
        assert r[j] == l[j - 1];
      }
    }
  }

  /** Node `i`, which is not the only one, is unlinked; its own pointers are left as they are. */
  lemma RemoveKeepsRing(next: seq<nat>, prev: seq<nat>, l: seq<nat>, i: nat)
    requires Ring(next, prev, l) && 0 < i < |l| && |next| == |prev|
    ensures l[i] < |next| && next[l[i]] < |next| && prev[l[i]] == l[i - 1] < |next| && next[l[i]] == After(l, i)
    ensures Ring(next[prev[l[i]] := next[l[i]]], prev[next[l[i]] := prev[l[i]]], l[..i] + l[i + 1..])
  {
    assert LinkedAt(next, prev, l, i) && LinkedAt(next, prev, l, i - 1);
    var n, p, r := next[prev[l[i]] := next[l[i]]], prev[next[l[i]] := prev[l[i]]], l[..i] + l[i + 1..];
    forall j | 0 <= j < |r| ensures LinkedAt(n, p, r, j) {
      var k := if j < i then j else j + 1;
      assert r[j] == l[k];
      assert LinkedAt(next, prev, l, k);
    }
  }

  /** A node that is not on the ring may be written to. */
  lemma RingKept(next: seq<nat>, prev: seq<nat>, l: seq<nat>, x: nat, v: nat, w: nat)
    requires Ring(next, prev, l) && x < |next| == |prev| && x !in l
    ensures Ring(next[x := v], prev[x := w], l)
  {
    var n, p := next[x := v], prev[x := w];
    forall j | 0 <= j < |l| ensures LinkedAt(n, p, l, j) {
      assert LinkedAt(next, prev, l, j);
    }
  }

  /** `rt_list_remove` of node `i`, which then is a ring of its own. */
  lemma RemoveLeavesTwoRings(next: seq<nat>, prev: seq<nat>, l: seq<nat>, i: nat, x: nat)
    requires Ring(next, prev, l) && 0 < i < |l| && |next| == |prev| && x == l[i]
    ensures x < |next| && next[x] < |next| && prev[x] < |next|
    ensures
      var n, p := next[prev[x] := next[x]][x := x], prev[next[x] := prev[x]][x := x];
      Ring(n, p, l[..i] + l[i + 1..]) && Ring(n, p, [x])
  {
    RemoveKeepsRing(next, prev, l, i);
    var n, p := next[prev[x] := next[x]], prev[next[x] := prev[x]];
    RingKept(n, p, l[..i] + l[i + 1..], x, x, x);
    assert LinkedAt(n[x := x], p[x := x], [x], 0);
  }
}
