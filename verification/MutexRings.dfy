/**
  Threads that wait for each other in a ring: the equations of exact inheritance have another
  solution there, in which all of the ring run at priority 0, whoever is blocked on them.
 */
module MutexRings {
  import opened Wrappers
  import opened KernelLists
  import opened MutexState
  import opened MutexWalk
  import opened MutexChains

  /** The members of `w` that are, or are not, in `ring`, in their order. */
  function Part(w: seq<Tid>, ring: set<Tid>, inside: bool): seq<Tid> {
    if w == [] then []
    else (if (w[0] in ring) == inside then [w[0]] else []) + Part(w[1..], ring, inside)
  }

  lemma {:induction false} PartMembers(w: seq<Tid>, ring: set<Tid>, inside: bool)
    ensures forall x :: x in Part(w, ring, inside) <==> x in w && (x in ring) == inside
    ensures Distinct(w) ==> Distinct(Part(w, ring, inside))
  {
    if w != [] {
      PartMembers(w[1..], ring, inside);
      var rest := Part(w[1..], ring, inside);
      assert w == [w[0]] + w[1..];
      if Distinct(w) {
        assert w[0] !in w[1..];
        assert Distinct(w[1..]);
      }
    }
  }

  lemma {:induction false} PartsAreAll(w: seq<Tid>, ring: set<Tid>)
    ensures multiset(Part(w, ring, true)) + multiset(Part(w, ring, false)) == multiset(w)
  {
    if w != [] {
      PartsAreAll(w[1..], ring);
      assert w == [w[0]] + w[1..];
    }
  }

  lemma {:induction false} PartSorted(w: seq<Tid>, ring: set<Tid>, cur: seq<nat>)
    requires Below(w, |cur|) && Sorted(w, cur)
    ensures Below(Part(w, ring, false), |cur|) && Sorted(Part(w, ring, false), cur)
  {
    PartMembers(w, ring, false);
    var r := Part(w, ring, false);
    forall i | 0 <= i < |r| ensures r[i] < |cur| { assert r[i] in r && r[i] in w; }
    if w != [] {
      assert Sorted(w[1..], cur);
      PartSorted(w[1..], ring, cur);
      PartMembers(w[1..], ring, false);
      var rest := Part(w[1..], ring, false);
      forall i | 0 <= i < |rest| ensures cur[w[0]] <= cur[rest[i]] {
        assert rest[i] in rest && rest[i] in w[1..];
        var j :| 0 <= j < |w[1..]| && w[1..][j] == rest[i];
        assert w[1 + j] == rest[i];
      }
    }
  }

  /** All threads of `ring` at priority 0, in front of their queues, and their mutexes too. */
  function Lowered(s: State, ring: set<Tid>): State
    requires |s.cur| == |s.init| && |s.prio| == |s.owner| == |s.waiters|
  {
    s.(cur := seq(|s.cur|, t requires 0 <= t < |s.cur| => if t in ring then 0 else s.cur[t]),
       prio := seq(|s.prio|, m requires 0 <= m < |s.prio| =>
         if Part(s.waiters[m], ring, true) != [] then 0 else s.prio[m]),
       waiters := seq(|s.waiters|, m requires 0 <= m < |s.waiters| =>
         Part(s.waiters[m], ring, true) + Part(s.waiters[m], ring, false)))
  }

  /** Every thread of `ring` waits for one of `ring`, and one of `ring` waits for it. */
  ghost predicate IsRing(s: State, ring: set<Tid>)
    requires WellSized(s)
  {
    forall t {:trigger Linked(s, ring, t)} :: t in ring ==> Linked(s, ring, t)
  }

  ghost predicate Linked(s: State, ring: set<Tid>, t: Tid)
    requires WellSized(s)
  {
    t < |s.init| && (exists u :: u in ring && WaitsFor(s, t, u)) && (exists u :: u in ring && WaitsFor(s, u, t))
  }

  lemma LoweredStructure(s: State, ring: set<Tid>)
    requires Structure(s)
    ensures Structure(Lowered(s, ring))
    ensures forall m :: 0 <= m < |s.owner| ==> multiset(Lowered(s, ring).waiters[m]) == multiset(s.waiters[m])
  {
    var s1 := Lowered(s, ring);
    forall m | 0 <= m < |s.owner| ensures multiset(s1.waiters[m]) == multiset(s.waiters[m]) && Distinct(s1.waiters[m]) {
      PartsAreAll(s.waiters[m], ring);
      PartMembers(s.waiters[m], ring, true);
      PartMembers(s.waiters[m], ring, false);
      var a, b := Part(s.waiters[m], ring, true), Part(s.waiters[m], ring, false);
      forall i, j | 0 <= i < j < |a + b| ensures (a + b)[i] != (a + b)[j] {
        if i < |a| <= j { assert a[i] in a && b[j - |a|] in b; }
      }
    }
    ReorderedStructure(s, s1.waiters, s1.prio);
    var s2 := s.(waiters := s1.waiters, prio := s1.prio);
    assert s1 == s2.(cur := s1.cur);
    assert forall x, y :: 0 <= x < |s.init| && 0 <= y < |s.owner| ==> (BlockedOn(s1, x, y) <==> BlockedOn(s2, x, y));
    assert WellSized(s1);
    assert Ownership(s1);
  }

  /** The parts of a queue, seen with the new priorities. */
  lemma LoweredParts(s: State, ring: set<Tid>, m: Mid)
    requires WellSized(s) && m < |s.owner| && Sorted(s.waiters[m], s.cur)
    ensures
      var a, b, cur := Part(s.waiters[m], ring, true), Part(s.waiters[m], ring, false), Lowered(s, ring).cur;
      && Below(a, |s.cur|) && Below(b, |s.cur|) && |cur| == |s.cur|
      && (forall i :: 0 <= i < |a| ==> cur[a[i]] == 0)
      && (forall i :: 0 <= i < |b| ==> cur[b[i]] == s.cur[b[i]]) && Sorted(b, cur)
  {
    var w := s.waiters[m];
    var a, b := Part(w, ring, true), Part(w, ring, false);
    PartMembers(w, ring, true);
    PartMembers(w, ring, false);
    PartSorted(w, ring, s.cur);
    forall i | 0 <= i < |a| ensures a[i] < |s.cur| && a[i] in ring { assert a[i] in a && a[i] in w; }
    forall i | 0 <= i < |b| ensures b[i] !in ring { assert b[i] in b; }
  }

  /** What a mutex gets: 0 if one of the ring waits for it, which then is its first waiter. */
  lemma LoweredMutex(s: State, ring: set<Tid>, m: Mid)
    requires Valid(s) && m < |s.owner| && WellSized(Lowered(s, ring))
    ensures QueueInOrder(Lowered(s, ring), m)
    ensures ExactMutex(s, m) ==> ExactMutex(Lowered(s, ring), m)
  {
    assert QueueInOrder(s, m);
    LoweredParts(s, ring, m);
    var s1 := Lowered(s, ring);
    var a, b := Part(s.waiters[m], ring, true), Part(s.waiters[m], ring, false);
    if a == [] {
      NoneInside(s.waiters[m], ring);
      assert s1.waiters[m] == b;
    } else {
      ZerosFirst(a, b, s1.cur);
    }
  }

  lemma ZerosFirst(a: seq<Tid>, b: seq<Tid>, cur: seq<nat>)
    requires Below(a, |cur|) && Below(b, |cur|) && a != [] && Sorted(b, cur)
    requires forall i :: 0 <= i < |a| ==> cur[a[i]] == 0
    ensures Below(a + b, |cur|) && Sorted(a + b, cur) && Head(a + b, cur) == 0
  {
  }

  lemma {:induction false} NoneInside(w: seq<Tid>, ring: set<Tid>)
    requires Part(w, ring, true) == []
    ensures Part(w, ring, false) == w
  {
    if w != [] {
      NoneInside(w[1..], ring);
    }
  }

  /** A mutex of a thread of the ring has priority 0, if one of the ring waits for it. */
  lemma LoweredLends(s: State, ring: set<Tid>, t: Tid) returns (m: Mid)
    requires Valid(s) && IsRing(s, ring) && t in ring
    ensures t < |s.taken| && m in s.taken[t] && m < |s.owner| && Lowered(s, ring).prio[m] == 0
  {
    assert Linked(s, ring, t);
    var u :| u in ring && WaitsFor(s, u, t);
    m := s.pending[u].value;
    assert BlockedOn(s, u, m) && u in s.waiters[m];
    PartMembers(s.waiters[m], ring, true);
    assert u in Part(s.waiters[m], ring, true);
  }

  /** A mutex that one of the ring waits for belongs to one of the ring. */
  lemma OwnedByRing(s: State, ring: set<Tid>, u: Tid, m: Mid)
    requires Valid(s) && IsRing(s, ring) && u in ring && m < |s.owner| && u in s.waiters[m]
    ensures s.owner[m].Some? && s.owner[m].value in ring
  {
    assert Linked(s, ring, u);
    assert BlockedOn(s, u, m);
  }

  /** The mutexes of all other threads keep their priorities. */
  lemma OthersLendAsBefore(s: State, ring: set<Tid>, t: Tid, m: Mid)
    requires Valid(s) && IsRing(s, ring) && t !in ring && m < |s.owner| && s.owner[m] == Some(t)
    ensures Lowered(s, ring).prio[m] == s.prio[m]
  {
    PartMembers(s.waiters[m], ring, true);
    var a := Part(s.waiters[m], ring, true);
    if a != [] {
      assert a[0] in a;
      OwnedByRing(s, ring, a[0], m);
    }
  }

  lemma RingInherits(s: State, ring: set<Tid>, t: Tid)
    requires Valid(s) && NoCeilings(s) && IsRing(s, ring) && t in ring && t < |s.init| && WellSized(Lowered(s, ring))
    ensures OwnerUrgent(Lowered(s, ring), t) && ExactThread(Lowered(s, ring), t)
  {
    var s1 := Lowered(s, ring);
    var m := LoweredLends(s, ring, t);
    assert Lent(m, s1.prio, s1.ceiling) == 0;
    MinLentUnique(s1.init[t], s1.taken[t], s1.prio, s1.ceiling, 0);
  }

  lemma OthersInherit(s: State, ring: set<Tid>, t: Tid)
    requires Valid(s) && IsRing(s, ring) && t !in ring && t < |s.init| && WellSized(Lowered(s, ring))
    ensures OwnerUrgent(Lowered(s, ring), t)
    ensures ExactThread(s, t) ==> ExactThread(Lowered(s, ring), t)
  {
    var s1 := Lowered(s, ring);
    assert OwnerUrgent(s, t);
    forall m | 0 <= m < |s.owner| && s.owner[m] == Some(t) ensures s1.prio[m] == s.prio[m] {
      OthersLendAsBefore(s, ring, t, m);
    }
    MinLentFrame(s.init[t], s.taken[t], s1.taken[t], s.prio, s.ceiling, s1.prio);
  }

  /** The lowered state satisfies all that the calls maintain. */
  lemma LoweredIsExact(s: State, ring: set<Tid>)
    requires Valid(s) && Exact(s) && NoCeilings(s) && IsRing(s, ring)
    ensures Valid(Lowered(s, ring)) && Exact(Lowered(s, ring))
  {
    var s1 := Lowered(s, ring);
    LoweredStructure(s, ring);
    forall m | 0 <= m < |s1.owner| ensures QueueInOrder(s1, m) && ExactMutex(s1, m) {
      assert ExactMutex(s, m);
      LoweredMutex(s, ring, m);
    }
    forall t | 0 <= t < |s1.init| ensures OwnerUrgent(s1, t) && ExactThread(s1, t) {
      assert ExactThread(s, t);
      if t in ring { RingInherits(s, ring, t); } else { OthersInherit(s, ring, t); }
    }
  }

  /** The threads of a chain from `t` to `t` are a ring. */
  lemma RingOf(s: State, t: Tid) returns (ring: set<Tid>)
    requires WellSized(s) && OnRing(s, t)
    ensures IsRing(s, ring) && t in ring
  {
    var c :| ChainTo(s, c, t) && |c| > 1 && c[0] == t;
    ring := set x | x in c;
    forall x | x in ring ensures Linked(s, ring, x) {
      var i :| 0 <= i < |c| && c[i] == x;
      var j := if i == |c| - 1 then 0 else i;
      assert c[j] == x && WaitsFor(s, c[j], c[j + 1]) && c[j + 1] in ring;
      var k := if i == 0 then |c| - 1 else i;
      assert c[k] == x && WaitsFor(s, c[k - 1], c[k - 1 + 1]) && c[k - 1] in ring;
    }
  }

  /** On a ring the equations that the calls maintain do not determine the priority: unless a thread of
      priority 0 is blocked on `t`, they have a solution that is more urgent than all that are. */
  lemma RingAdmitsStale(s: State, t: Tid) returns (s1: State)
    requires Valid(s) && Exact(s) && NoCeilings(s) && OnRing(s, t)
    requires forall c :: ChainTo(s, c, t) ==> s.init[c[0]] > 0
    ensures Valid(s1) && Exact(s1) && NoCeilings(s1) && t < |s1.init| && !IsChainMinimum(s1, t)
    ensures s1 == s.(cur := s1.cur, prio := s1.prio, waiters := s1.waiters) && |s1.waiters| == |s.waiters|
    ensures forall m :: 0 <= m < |s.waiters| ==> multiset(s1.waiters[m]) == multiset(s.waiters[m])
  {
    var ring := RingOf(s, t);
    s1 := Lowered(s, ring);
    LoweredIsExact(s, ring);
    LoweredStructure(s, ring);
    assert Linked(s, ring, t) && s1.cur[t] == 0;
    forall c | ChainTo(s1, c, t) ensures s1.init[c[0]] > 0 { LoweredKeepsChains(s, ring, c, t); }
  }

  lemma LoweredKeepsChains(s: State, ring: set<Tid>, c: seq<Tid>, t: Tid)
    requires WellSized(s) && WellSized(Lowered(s, ring)) && ChainTo(Lowered(s, ring), c, t)
    ensures ChainTo(s, c, t)
  {
    forall i | 0 <= i < |c| - 1 ensures WaitsFor(s, c[i], c[i + 1]) {
      assert WaitsFor(Lowered(s, ring), c[i], c[i + 1]);
    }
  }
}
