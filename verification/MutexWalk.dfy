/**
  One round of the chain walk of `_thread_update_priority` (rt-thread/src/ipc.c:794-845) as a
  function of the state, what it keeps, and why the walk ends.

  A walk carries the thread whose priority was last changed and the priority it had before.
  Seen with that thread at its former priority, all wait queues are still in order; putting the
  thread back into its queue repairs the queue and may disturb one further thread, the owner.
 */
module MutexWalk {
  import opened Wrappers
  import opened KernelLists
  import opened MutexState

  /** The state with thread `th` still at its former priority. */
  function Before(s: State, th: Tid, was: nat): State
    requires th < |s.cur|
  {
    s.(cur := s.cur[th := was])
  }

  ghost predicate Walking(s: State, th: Tid, was: nat) {
    && Structure(s) && th < |s.init|
    && (forall t :: 0 <= t < |s.init| ==> OwnerUrgent(s, t))
    && (forall m :: 0 <= m < |s.owner| ==> QueueInOrder(Before(s, th, was), m))
  }

  /** `th` unlinked from the queue of `m` and linked again at position `k`, and the priority of `m` read anew. */
  function Requeued(s: State, th: Tid, m: Mid, k: nat): State
    requires WellSized(s) && m < |s.owner| && th < |s.init| && k <= |Without(s.waiters[m], th)|
  {
    var w := LinkAt(Without(s.waiters[m], th), th, k);
    LinkAtMembers(Without(s.waiters[m], th), th, k);
    assert forall i :: 0 <= i < |w| ==> w[i] in w;
    s.(waiters := s.waiters[m := w], prio := s.prio[m := Head(w, s.cur)])
  }

  /** A thread on no queue leaves nothing to repair. */
  lemma WalkEnds(s: State, th: Tid, was: nat)
    requires Walking(s, th, was)
    requires !s.suspended[th] || s.pending[th].None?
    ensures Valid(s)
    ensures forall m :: 0 <= m < |s.owner| && ExactMutex(Before(s, th, was), m) ==> ExactMutex(s, m)
  {
    forall m | 0 <= m < |s.owner|
      ensures QueueInOrder(s, m)
      ensures ExactMutex(Before(s, th, was), m) ==> ExactMutex(s, m)
    {
      assert QueueInOrder(Before(s, th, was), m);
      assert th !in s.waiters[m];
    }
  }

  lemma {:induction false} WithoutMultiset(w: seq<Tid>, t: Tid)
    requires t in w
    ensures multiset(Without(w, t)) + multiset{t} == multiset(w)
  {
    assert w == [w[0]] + w[1..];
    if w[0] != t {
      WithoutMultiset(w[1..], t);
    }
  }

  lemma LinkMultiset(w: seq<Tid>, t: Tid, k: nat)
    requires k <= |w|
    ensures multiset(LinkAt(w, t, k)) == multiset(w) + multiset{t}
  {
    assert w == w[..k] + w[k..];
  }

  /** Reordering the queues and changing mutex priorities does not touch who owns or waits for what. */
  lemma ReorderedStructure(s: State, waiters: seq<seq<Tid>>, prio: seq<nat>)
    requires Structure(s) && |waiters| == |prio| == |s.owner|
    requires forall x :: 0 <= x < |waiters| ==> multiset(waiters[x]) == multiset(s.waiters[x])
    requires forall x :: 0 <= x < |waiters| ==> Distinct(waiters[x]) && prio[x] <= NO_PRIORITY
    ensures Structure(s.(waiters := waiters, prio := prio))
  {
    var s1 := s.(waiters := waiters, prio := prio);
    forall x | 0 <= x < |waiters|
      ensures forall t :: t in waiters[x] <==> t in s.waiters[x]
      ensures Below(waiters[x], |s.init|)
      ensures waiters[x] == [] <==> s.waiters[x] == []
    {
      SameMembers(waiters[x], s.waiters[x]);
    }
    assert WellSized(s1);
    assert forall t, m :: 0 <= t < |s1.init| && 0 <= m < |s1.owner| ==>
        (BlockedOn(s1, t, m) <==> BlockedOn(s, t, m));
    assert Ownership(s1);
  }

  lemma SameMembers(a: seq<nat>, b: seq<nat>)
    requires multiset(a) == multiset(b)
    ensures forall t :: t in a <==> t in b
    ensures a == [] <==> b == []
    ensures forall n: nat :: Below(b, n) ==> Below(a, n)
  {
    assert forall t :: t in a <==> t in multiset(a);
    assert forall t :: t in b <==> t in multiset(b);
    assert |multiset(a)| == |a| && |multiset(b)| == |b|;
    forall n: nat | Below(b, n) ensures Below(a, n) {
      forall i | 0 <= i < |a| ensures a[i] < n { assert a[i] in b; }
    }
  }

  lemma RequeueStructure(s: State, th: Tid, m: Mid, k: nat)
    requires Structure(s) && m < |s.owner| && th < |s.init| && BlockedOn(s, th, m)
    requires forall t :: 0 <= t < |s.init| ==> s.cur[t] <= s.init[t]
    requires k <= |Without(s.waiters[m], th)|
    ensures Structure(Requeued(s, th, m, k))
    ensures s.owner[m].Some? && s.owner[m].value != th
    ensures forall x :: 0 <= x < |s.owner| ==> multiset(Requeued(s, th, m, k).waiters[x]) == multiset(s.waiters[x])
  {
    var s1 := Requeued(s, th, m, k);
    var w := s.waiters[m];
    assert th in w;
    WithoutKeepsDistinct(w, th);
    WithoutMultiset(w, th);
    LinkMultiset(Without(w, th), th, k);
    LinkAtMembers(Without(w, th), th, k);
    assert s1.waiters[m][0] < |s.init|;
    ReorderedStructure(s, s1.waiters, s1.prio);
  }

  /** Everything but the bound on the owner of `m` holds after the queue of `m` is repaired. */
  lemma RequeueRepairs(s: State, th: Tid, was: nat, m: Mid, k: nat)
    requires Walking(s, th, was) && m < |s.owner| && BlockedOn(s, th, m)
    requires Below(Without(s.waiters[m], th), |s.cur|) && IsSlot(Without(s.waiters[m], th), s.cur, s.cur[th], k)
    ensures var s1 := Requeued(s, th, m, k);
      && Structure(s1) && ExactMutex(s1, m) && s1.owner[m].Some? && s1.owner[m].value != th
      && (forall x :: 0 <= x < |s.owner| ==> QueueInOrder(s1, x))
      && (forall x :: 0 <= x < |s.owner| ==> multiset(s1.waiters[x]) == multiset(s.waiters[x]))
      && (forall t :: 0 <= t < |s.init| && s.owner[m] != Some(t) ==> OwnerUrgent(s1, t))
      && (s.cur[th] <= was ==> s1.prio[m] <= Head(s.waiters[m], Before(s, th, was).cur))
      && (s.cur[th] >= was ==> s1.prio[m] >= Head(s.waiters[m], Before(s, th, was).cur))
  {
    forall t | 0 <= t < |s.init| ensures s.cur[t] <= s.init[t] { assert OwnerUrgent(s, t); }
    RequeueStructure(s, th, m, k);
    RequeueOrders(s, th, was, m, k);
    var s1 := Requeued(s, th, m, k);
    forall t | 0 <= t < |s.init| && s.owner[m] != Some(t) ensures OwnerUrgent(s1, t) {
      assert OwnerUrgent(s, t);
    }
  }

  lemma RequeueOrders(s: State, th: Tid, was: nat, m: Mid, k: nat)
    requires Walking(s, th, was) && m < |s.owner| && BlockedOn(s, th, m)
    requires Below(Without(s.waiters[m], th), |s.cur|) && IsSlot(Without(s.waiters[m], th), s.cur, s.cur[th], k)
    requires WellSized(Requeued(s, th, m, k))
    ensures var s1 := Requeued(s, th, m, k);
      && (forall x :: 0 <= x < |s.owner| ==> QueueInOrder(s1, x))
      && (s.cur[th] <= was ==> s1.prio[m] <= Head(s.waiters[m], Before(s, th, was).cur))
      && (s.cur[th] >= was ==> s1.prio[m] >= Head(s.waiters[m], Before(s, th, was).cur))
  {
    var s1 := Requeued(s, th, m, k);
    assert QueueInOrder(Before(s, th, was), m);
    assert th in s.waiters[m];
    RelinkSorts(s.waiters[m], s.cur, th, was, k);
    forall x | 0 <= x < |s.owner| && x != m ensures QueueInOrder(s1, x) {
      assert QueueInOrder(Before(s, th, was), x);
      assert th !in s.waiters[x];
    }
  }

  /** Threads that do not own `m` compute the same inherited priority after `m` was refreshed;
      what they and the other queues had exact stays exact. */
  lemma RequeueKeepsExact(s: State, th: Tid, was: nat, m: Mid, k: nat)
    requires Walking(s, th, was) && m < |s.owner| && BlockedOn(s, th, m)
    requires k <= |Without(s.waiters[m], th)|
    requires WellSized(Requeued(s, th, m, k))
    ensures var s1 := Requeued(s, th, m, k);
      && (forall t :: 0 <= t < |s.init| && s.owner[m] != Some(t) ==> (ExactThread(s, t) <==> ExactThread(s1, t)))
      && (forall x :: 0 <= x < |s.owner| && x != m ==> (ExactMutex(Before(s, th, was), x) <==> ExactMutex(s1, x)))
  {
    var s1 := Requeued(s, th, m, k);
    forall t | 0 <= t < |s.init| && s.owner[m] != Some(t)
      ensures ExactThread(s, t) <==> ExactThread(s1, t)
    {
      assert m !in s.taken[t];
      MinLentFrame(s.init[t], s.taken[t], s1.taken[t], s.prio, s.ceiling, s1.prio);
    }
    forall x | 0 <= x < |s.owner| && x != m
      ensures ExactMutex(Before(s, th, was), x) <==> ExactMutex(s1, x)
    {
      assert th !in s.waiters[x];
    }
  }

  /** If the owner of `m` inherited exactly before, its priority moves the way the head of `m` moved. */
  lemma OwnerFollows(s: State, th: Tid, was: nat, m: Mid, k: nat)
    requires Walking(s, th, was) && m < |s.owner| && BlockedOn(s, th, m)
    requires Below(Without(s.waiters[m], th), |s.cur|) && IsSlot(Without(s.waiters[m], th), s.cur, s.cur[th], k)
    requires Structure(Requeued(s, th, m, k)) && s.owner[m].Some?
    requires ExactMutex(Before(s, th, was), m) && ExactThread(s, s.owner[m].value)
    ensures var s1 := Requeued(s, th, m, k); var o := s.owner[m].value;
      && (s.cur[th] <= was ==> Inherited(s1, o) <= s.cur[o])
      && (s.cur[th] >= was ==> Inherited(s1, o) >= s.cur[o])
  {
    RequeueRepairs(s, th, was, m, k);
    var s1 := Requeued(s, th, m, k);
    var o := s.owner[m].value;
    assert s.prio[m] == Head(s.waiters[m], Before(s, th, was).cur);
    assert forall x :: x in s.taken[o] && x != m ==> Lent(x, s.prio, s.ceiling) == Lent(x, s1.prio, s1.ceiling);
    if s.cur[th] <= was {
      assert Lent(m, s1.prio, s1.ceiling) <= Lent(m, s.prio, s.ceiling);
    }
    if s.cur[th] >= was {
      assert Lent(m, s1.prio, s1.ceiling) >= Lent(m, s.prio, s.ceiling);
    }
  }

  /** The owner already has the priority it inherits: the walk stops in a valid state. */
  lemma WalkStops(s1: State, o: Tid)
    requires Structure(s1) && o < |s1.init| && s1.cur[o] == Inherited(s1, o)
    requires forall x :: 0 <= x < |s1.owner| ==> QueueInOrder(s1, x)
    requires forall t :: 0 <= t < |s1.init| && t != o ==> OwnerUrgent(s1, t)
    ensures Valid(s1)
  {
    assert forall m :: 0 <= m < |s1.owner| && s1.owner[m] == Some(o) ==> m in s1.taken[o];
    assert OwnerUrgent(s1, o);
  }

  /** Otherwise the owner takes the inherited priority and the walk goes on from it. */
  lemma WalkContinues(s1: State, o: Tid)
    requires Structure(s1) && o < |s1.init|
    requires forall x :: 0 <= x < |s1.owner| ==> QueueInOrder(s1, x)
    requires forall t :: 0 <= t < |s1.init| && t != o ==> OwnerUrgent(s1, t)
    ensures var s2 := s1.(cur := s1.cur[o := Inherited(s1, o)]);
      && Walking(s2, o, s1.cur[o]) && Before(s2, o, s1.cur[o]) == s1 && ExactThread(s2, o)
      && (forall t :: 0 <= t < |s1.init| && t != o ==> (ExactThread(s1, t) <==> ExactThread(s2, t)))
  {
    var s2 := s1.(cur := s1.cur[o := Inherited(s1, o)]);
    assert Before(s2, o, s1.cur[o]) == s1;
    assert forall m :: 0 <= m < |s1.owner| && s1.owner[m] == Some(o) ==> m in s1.taken[o];
    forall t | 0 <= t < |s2.init| ensures OwnerUrgent(s2, t) {
      if t != o { assert OwnerUrgent(s1, t); }
    }
  }

  // ---------- termination ----------

  /** Threads and mutexes whose priority is not the one their queue or their mutexes demand. */
  ghost function InexactThreads(s: State): set<Tid>
    requires WellSized(s)
  {
    set t | 0 <= t < |s.init| && !ExactThread(s, t)
  }

  ghost function InexactMutexes(s: State): set<Mid>
    requires WellSized(s)
  {
    set m | 0 <= m < |s.owner| && !ExactMutex(s, m)
  }

  ghost function Inexact(s: State, th: Tid, was: nat): nat
    requires WellSized(s) && th < |s.cur|
  {
    |InexactThreads(s)| + |InexactMutexes(Before(s, th, was))|
  }

  function Sum(p: seq<nat>): nat {
    if p == [] then 0 else p[0] + Sum(p[1..])
  }

  lemma {:induction false} SumUpdate(p: seq<nat>, i: nat, v: nat)
    requires i < |p|
    ensures Sum(p[i := v]) == Sum(p) - p[i] + v
  {
    if i > 0 {
      SumUpdate(p[1..], i - 1, v);
      assert p[i := v][1..] == p[1..][i - 1 := v];
    }
  }

  lemma {:induction false} SumBound(p: seq<nat>, b: nat)
    requires forall i :: 0 <= i < |p| ==> p[i] <= b
    ensures Sum(p) <= b * |p|
  {
    if p != [] {
      SumBound(p[1..], b);
    }
  }

  /** Room left in the direction the walk moves: down to 0, or up to the largest priority. */
  ghost function Room(cur: seq<nat>, urging: bool): int {
    if urging then Sum(cur) else PRIORITIES * |cur| - Sum(cur)
  }

  lemma RoomIsBounded(s: State, urging: bool)
    requires Structure(s) && forall t :: 0 <= t < |s.init| ==> OwnerUrgent(s, t)
    ensures Room(s.cur, urging) >= 0
  {
    forall t | 0 <= t < |s.cur| ensures s.cur[t] <= PRIORITIES { assert OwnerUrgent(s, t); }
    SumBound(s.cur, PRIORITIES);
  }

  lemma SubsetSize<T>(a: set<T>, b: set<T>)
    requires a <= b
    ensures |a| <= |b|
    ensures a != b ==> |a| < |b|
  {
    assert b == a + (b - a);
  }

  /** When nothing on the way was stale, the owner moves on in the direction of the walk. */
  lemma RoomShrinks(s: State, th: Tid, was: nat, m: Mid, k: nat)
    requires Walking(s, th, was) && m < |s.owner| && BlockedOn(s, th, m) && s.cur[th] != was
    requires Below(Without(s.waiters[m], th), |s.cur|) && IsSlot(Without(s.waiters[m], th), s.cur, s.cur[th], k)
    requires Structure(Requeued(s, th, m, k)) && s.owner[m].Some?
    requires ExactMutex(Before(s, th, was), m) && ExactThread(s, s.owner[m].value)
    requires Inherited(Requeued(s, th, m, k), s.owner[m].value) != s.cur[s.owner[m].value]
    ensures var o := s.owner[m].value; var q := Inherited(Requeued(s, th, m, k), o);
      && (s.cur[th] < was <==> q < s.cur[o])
      && Room(s.cur[o := q], s.cur[th] < was) < Room(s.cur, s.cur[th] < was)
  {
    OwnerFollows(s, th, was, m, k);
    var o := s.owner[m].value;
    SumUpdate(s.cur, o, Inherited(Requeued(s, th, m, k), o));
  }

  /** The owner and the mutex leave the set of stale priorities, nothing enters it. */
  lemma InexactShrinks(s: State, th: Tid, was: nat, s1: State, m: Mid, s2: State, o: Tid)
    requires WellSized(s) && WellSized(s1) && WellSized(s2) && |s1.init| == |s2.init| == |s.init|
    requires |s1.owner| == |s.owner|
    requires th < |s.init| && o < |s.init| && m < |s.owner| && WellSized(Before(s, th, was))
    requires forall t :: 0 <= t < |s.init| && t != o ==> (ExactThread(s, t) <==> ExactThread(s2, t))
    requires forall x :: 0 <= x < |s.owner| && x != m ==> (ExactMutex(Before(s, th, was), x) <==> ExactMutex(s1, x))
    requires ExactThread(s2, o) && ExactMutex(s1, m)
    ensures |InexactThreads(s2)| + |InexactMutexes(s1)| <= Inexact(s, th, was)
    ensures !ExactThread(s, o) || !ExactMutex(Before(s, th, was), m) ==>
      |InexactThreads(s2)| + |InexactMutexes(s1)| < Inexact(s, th, was)
  {
    assert InexactThreads(s2) == InexactThreads(s) - {o};
    assert InexactMutexes(s1) == InexactMutexes(Before(s, th, was)) - {m};
    SubsetSize(InexactThreads(s2), InexactThreads(s));
    SubsetSize(InexactMutexes(s1), InexactMutexes(Before(s, th, was)));
  }

  // ---------- a whole walk ----------

  /** What a walk that started by giving thread `t0` of state `s0` the priority `p` has kept so far. */
  ghost predicate Kept(s0: State, t0: Tid, p: nat, s: State)
    requires WellSized(s0) && WellSized(s) && t0 < |s0.init|
  {
    && s == s0.(cur := s.cur, prio := s.prio, waiters := s.waiters)
    && (forall m :: 0 <= m < |s.waiters| ==> multiset(s.waiters[m]) == multiset(s0.waiters[m]))
    && (forall t :: 0 <= t < |s.init| && t != t0 && ExactThread(s0, t) ==> ExactThread(s, t))
    && (p == Inherited(s0, t0) ==> ExactThread(s, t0))
  }

  ghost predicate OnTheWay(s0: State, t0: Tid, p: nat, s: State, th: Tid, was: nat)
    requires WellSized(s0) && t0 < |s0.init|
  {
    && Walking(s, th, was) && s.cur[th] != was && Kept(s0, t0, p, s)
    && (forall m :: 0 <= m < |s.owner| && ExactMutex(s0, m) ==> ExactMutex(Before(s, th, was), m))
  }

  ghost predicate Arrived(s0: State, t0: Tid, p: nat, s: State)
    requires WellSized(s0) && t0 < |s0.init|
  {
    && Valid(s) && Kept(s0, t0, p, s)
    && (forall m :: 0 <= m < |s.owner| && ExactMutex(s0, m) ==> ExactMutex(s, m))
  }

  lemma WalkBegins(s0: State, t0: Tid, p: nat)
    requires Structure(s0) && t0 < |s0.init| && p != s0.cur[t0] && p <= s0.init[t0]
    requires forall m :: 0 <= m < |s0.owner| ==> QueueInOrder(s0, m)
    requires forall t :: 0 <= t < |s0.init| && t != t0 ==> OwnerUrgent(s0, t)
    requires forall m :: 0 <= m < |s0.owner| && s0.owner[m] == Some(t0) ==> p <= s0.prio[m]
    ensures OnTheWay(s0, t0, p, s0.(cur := s0.cur[t0 := p]), t0, s0.cur[t0])
  {
    var s := s0.(cur := s0.cur[t0 := p]);
    assert Before(s, t0, s0.cur[t0]) == s0;
    forall t | 0 <= t < |s.init| ensures OwnerUrgent(s, t) {
      if t != t0 { assert OwnerUrgent(s0, t); }
    }
  }

  lemma WalkFinishes(s0: State, t0: Tid, p: nat, s: State, th: Tid, was: nat)
    requires WellSized(s0) && t0 < |s0.init| && OnTheWay(s0, t0, p, s, th, was)
    requires !s.suspended[th] || s.pending[th].None?
    ensures Arrived(s0, t0, p, s)
  {
    WalkEnds(s, th, was);
  }

  lemma KeptRequeue(s0: State, t0: Tid, p: nat, s: State, th: Tid, was: nat, m: Mid, k: nat, s2: State, o: Tid)
    requires WellSized(s0) && t0 < |s0.init| && Walking(s, th, was) && Kept(s0, t0, p, s)
    requires m < |s.owner| && k <= |Without(s.waiters[m], th)|
    requires WellSized(Requeued(s, th, m, k)) && WellSized(s2)
    requires s2 == Requeued(s, th, m, k).(cur := s2.cur) && o < |s.init| && ExactThread(s2, o)
    requires forall x :: 0 <= x < |s.owner| ==> multiset(s2.waiters[x]) == multiset(s.waiters[x])
    requires forall t :: 0 <= t < |s.init| && t != o ==> (ExactThread(s, t) <==> ExactThread(s2, t))
    ensures Kept(s0, t0, p, s2)
  {
    forall t | 0 <= t < |s.init| && t != t0 && ExactThread(s0, t) ensures ExactThread(s2, t) {
      assert ExactThread(s, t);
    }
  }

  /** The round after which the owner already has its inherited priority ends the walk. */
  lemma LastRound(s0: State, t0: Tid, p: nat, s: State, th: Tid, was: nat, m: Mid, k: nat)
    requires WellSized(s0) && t0 < |s0.init| && OnTheWay(s0, t0, p, s, th, was)
    requires m < |s.owner| && BlockedOn(s, th, m)
    requires Below(Without(s.waiters[m], th), |s.cur|) && IsSlot(Without(s.waiters[m], th), s.cur, s.cur[th], k)
    requires s.owner[m].Some? && WellSized(Requeued(s, th, m, k))
    requires Inherited(Requeued(s, th, m, k), s.owner[m].value) == s.cur[s.owner[m].value]
    ensures Arrived(s0, t0, p, Requeued(s, th, m, k))
  {
    var s1 := Requeued(s, th, m, k);
    RequeueRepairs(s, th, was, m, k);
    RequeueKeepsExact(s, th, was, m, k);
    WalkStops(s1, s.owner[m].value);
    KeptRequeue(s0, t0, p, s, th, was, m, k, s1, s.owner[m].value);
    forall x | 0 <= x < |s1.owner| && ExactMutex(s0, x) ensures ExactMutex(s1, x) {
      assert ExactMutex(Before(s, th, was), x);
    }
  }

  /** After any other round the walk goes on from the owner. */
  lemma NextRound(s0: State, t0: Tid, p: nat, s: State, th: Tid, was: nat, m: Mid, k: nat)
    requires WellSized(s0) && t0 < |s0.init| && OnTheWay(s0, t0, p, s, th, was)
    requires m < |s.owner| && BlockedOn(s, th, m)
    requires Below(Without(s.waiters[m], th), |s.cur|) && IsSlot(Without(s.waiters[m], th), s.cur, s.cur[th], k)
    requires s.owner[m].Some? && WellSized(Requeued(s, th, m, k))
    requires Inherited(Requeued(s, th, m, k), s.owner[m].value) != s.cur[s.owner[m].value]
    ensures var s1 := Requeued(s, th, m, k); var o := s.owner[m].value; var q := Inherited(s1, o);
      OnTheWay(s0, t0, p, s1.(cur := s1.cur[o := q]), o, s.cur[o])
  {
    var s1 := Requeued(s, th, m, k);
    var o := s.owner[m].value;
    var s2 := s1.(cur := s1.cur[o := Inherited(s1, o)]);
    RequeueRepairs(s, th, was, m, k);
    RequeueKeepsExact(s, th, was, m, k);
    WalkContinues(s1, o);
    KeptRequeue(s0, t0, p, s, th, was, m, k, s2, o);
    forall x | 0 <= x < |s1.owner| && ExactMutex(s0, x) ensures ExactMutex(s1, x) {
      assert ExactMutex(Before(s, th, was), x);
    }
  }

  /** Every round that goes on either makes some stale priority exact, or leaves the number of
      stale priorities alone and moves one more thread in the direction of the walk. This holds
      on cyclic wait-for graphs too, so the walk ends even when threads are deadlocked. */
  lemma WalkProgress(s: State, th: Tid, was: nat, m: Mid, k: nat)
    requires Walking(s, th, was) && s.cur[th] != was && m < |s.owner| && BlockedOn(s, th, m)
    requires Below(Without(s.waiters[m], th), |s.cur|) && IsSlot(Without(s.waiters[m], th), s.cur, s.cur[th], k)
    requires s.owner[m].Some? && WellSized(Requeued(s, th, m, k))
    requires Inherited(Requeued(s, th, m, k), s.owner[m].value) != s.cur[s.owner[m].value]
    ensures var s1 := Requeued(s, th, m, k); var o := s.owner[m].value; var q := Inherited(s1, o);
      var s2 := s1.(cur := s1.cur[o := q]);
      && WellSized(s2)
      && (|| Inexact(s2, o, s.cur[o]) < Inexact(s, th, was)
          || (&& Inexact(s2, o, s.cur[o]) == Inexact(s, th, was)
              && (s.cur[th] < was <==> q < s.cur[o])
              && Room(s2.cur, s.cur[th] < was) < Room(s.cur, s.cur[th] < was)))
  {
    var s1 := Requeued(s, th, m, k);
    var o := s.owner[m].value;
    StaleOrNot(s, th, was, m, k, s1, o, s1.(cur := s1.cur[o := Inherited(s1, o)]));
    if ExactThread(s, o) && ExactMutex(Before(s, th, was), m) {
      RequeueRepairs(s, th, was, m, k);
      RoomShrinks(s, th, was, m, k);
    }
  }

  /** No more stale priorities after a round, and fewer if the owner or the mutex had one. */
  lemma StaleOrNot(s: State, th: Tid, was: nat, m: Mid, k: nat, s1: State, o: Tid, s2: State)
    requires Walking(s, th, was) && s.cur[th] != was && m < |s.owner| && BlockedOn(s, th, m)
    requires Below(Without(s.waiters[m], th), |s.cur|) && IsSlot(Without(s.waiters[m], th), s.cur, s.cur[th], k)
    requires s.owner[m] == Some(o) && s1 == Requeued(s, th, m, k) && WellSized(s1)
    requires s2 == s1.(cur := s1.cur[o := Inherited(s1, o)])
    ensures WellSized(s2) && Inexact(s2, o, s.cur[o]) <= Inexact(s, th, was)
    ensures !ExactThread(s, o) || !ExactMutex(Before(s, th, was), m) ==> Inexact(s2, o, s.cur[o]) < Inexact(s, th, was)
  {
    RequeueRepairs(s, th, was, m, k);
    RequeueKeepsExact(s, th, was, m, k);
    WalkContinues(s1, o);
    InexactShrinks(s, th, was, s1, m, s2, o);
  }
}
