/**
  The value-level view of the mutex part of the kernel (rt-thread/src/ipc.c): one snapshot
  of the thread and mutex fields that priority inheritance reads or writes, the invariants
  the code is meant to keep, and the lemmas about them.

  Threads and mutexes are identified by index; each C structure field is one sequence.
  Priorities follow the kernel: a smaller number is more urgent.
 */
module MutexState {
  import opened KernelLists
  import opened Wrappers

  type Tid = nat
  type Mid = nat

  const NO_PRIORITY: nat := 0xff   // "no priority": the value of an idle mutex or an unset ceiling
  const HOLD_MAX: nat := 0xff      // RT_MUTEX_HOLD_MAX

  datatype State = State(
    init: seq<nat>,              // rt_thread.init_priority
    cur: seq<nat>,               // rt_thread.current_priority
    suspended: seq<bool>,        // rt_thread.stat has the suspend mask
    pending: seq<Option<Mid>>,   // rt_thread.pending_object
    taken: seq<seq<Mid>>,        // rt_thread.taken_object_list
    owner: seq<Option<Tid>>,     // rt_mutex.owner
    prio: seq<nat>,              // rt_mutex.priority
    ceiling: seq<nat>,           // rt_mutex.ceiling_priority
    hold: seq<nat>,              // rt_mutex.hold
    waiters: seq<seq<Tid>>)      // rt_mutex.parent.suspend_thread

  // ---------- wait queues ----------

  ghost predicate Sorted(w: seq<Tid>, cur: seq<nat>)
    requires Below(w, |cur|)
  {
    forall i, j :: 0 <= i < j < |w| ==> cur[w[i]] <= cur[w[j]]
  }

  /** Priority of the first waiter, 0xff for an empty queue. */
  function Head(w: seq<Tid>, cur: seq<nat>): nat
    requires Below(w, |cur|)
  {
    if w == [] then NO_PRIORITY else cur[w[0]]
  }

  /** Where the source links a thread of priority `p` into a priority queue: behind every
      waiter that is at least as urgent, in front of the first one that is less urgent. */
  ghost predicate IsSlot(w: seq<Tid>, cur: seq<nat>, p: nat, k: nat)
    requires Below(w, |cur|)
  {
    && k <= |w|
    && (forall i :: 0 <= i < k ==> cur[w[i]] <= p)
    && (k < |w| ==> p < cur[w[k]])
  }

  /** That position, which is unique. */
  function Slot(w: seq<Tid>, cur: seq<nat>, p: nat): (k: nat)
    requires Below(w, |cur|)
    ensures IsSlot(w, cur, p, k)
  {
    if w == [] || p < cur[w[0]] then 0 else 1 + Slot(w[1..], cur, p)
  }

  lemma SlotIs(w: seq<Tid>, cur: seq<nat>, p: nat, k: nat)
    requires Below(w, |cur|) && IsSlot(w, cur, p, k)
    ensures k == Slot(w, cur, p)
  {
  }

  /** Linking thread `t` at its slot keeps the queue sorted and leaves the smallest priority in front. */
  lemma LinkKeepsSorted(w: seq<Tid>, cur: seq<nat>, t: Tid, k: nat)
    requires Below(w, |cur|) && t < |cur| && Sorted(w, cur)
    requires IsSlot(w, cur, cur[t], k)
    ensures var r := LinkAt(w, t, k);
      && Below(r, |cur|) && Sorted(r, cur)
      && Head(r, cur) == (if w == [] || cur[t] < Head(w, cur) then cur[t] else Head(w, cur))
  {
    var r := LinkAt(w, t, k);
    forall i, j | 0 <= i < j < |r| ensures cur[r[i]] <= cur[r[j]] {
      if k < i {
      } else if i < k < j {
        assert cur[w[i]] <= cur[w[j - 1]];
      } else if i == k {
        assert cur[w[k]] <= cur[w[j - 1]];
      }
    }
  }

  lemma UnlinkKeepsSorted(w: seq<Tid>, cur: seq<nat>, t: Tid)
    requires Below(w, |cur|) && Sorted(w, cur) && Distinct(w)
    ensures var r := Without(w, t);
      && Below(r, |cur|) && Sorted(r, cur)
      && (r != [] ==> Head(w, cur) <= Head(r, cur))
  {
    if t in w {
      var i := WithoutSplits(w, t);
    }
  }

  /** A queue sorted for the priorities `cur` with thread `th` at its old priority `was`, from
      which `th` is unlinked and linked again at its slot, is sorted for `cur`; its head moves
      in the direction in which the priority of `th` moved. */
  lemma RelinkSorts(w: seq<Tid>, cur: seq<nat>, th: Tid, was: nat, k: nat)
    requires Below(w, |cur|) && Distinct(w) && th in w
    requires Sorted(w, cur[th := was])
    requires Below(Without(w, th), |cur|) && IsSlot(Without(w, th), cur, cur[th], k)
    ensures var w' := LinkAt(Without(w, th), th, k);
      && Below(w', |cur|) && Distinct(w') && Sorted(w', cur)
      && (forall x :: x in w' <==> x in w)
      && (cur[th] <= was ==> Head(w', cur) <= Head(w, cur[th := was]))
      && (cur[th] >= was ==> Head(w', cur) >= Head(w, cur[th := was]))
  {
    var r := Without(w, th);
    var was' := cur[th := was];
    WithoutKeepsDistinct(w, th);
    UnlinkKeepsSorted(w, was', th);
    assert Sorted(r, cur) by {
      forall i, j | 0 <= i < j < |r| ensures cur[r[i]] <= cur[r[j]] {
        assert r[i] in r && r[j] in r;
        assert was'[r[i]] <= was'[r[j]];
      }
    }
    LinkKeepsSorted(r, cur, th, k);
    LinkAtMembers(r, th, k);
    HeadWithout(w, cur, th, was);
  }

  /** The first waiter, seen from the queue without `th`. */
  lemma HeadWithout(w: seq<Tid>, cur: seq<nat>, th: Tid, was: nat)
    requires Below(w, |cur|) && Distinct(w) && th in w && Sorted(w, cur[th := was])
    ensures var r := Without(w, th);
      && Below(r, |cur|)
      && Head(w, cur[th := was]) == (if r == [] || was < Head(r, cur) then was else Head(r, cur))
  {
    var was' := cur[th := was];
    var r := Without(w, th);
    WithoutKeepsDistinct(w, th);
    var i := WithoutSplits(w, th);
    assert Head(w, was') <= was'[w[i]] by { assert i > 0 ==> was'[w[0]] <= was'[w[i]]; }
    if r != [] {
      assert r[0] in r;
      if i == 0 { assert r[0] == w[1]; } else { assert r[0] == w[0]; }
    }
  }

  // ---------- inherited priority ----------

  function Min(a: nat, b: nat): nat { if a < b then a else b }

  /** The urgency mutex `m` lends its owner: its priority, at least its ceiling. */
  function Lent(m: Mid, prio: seq<nat>, ceiling: seq<nat>): nat
    requires m < |prio| == |ceiling|
  {
    if prio[m] < ceiling[m] then prio[m] else ceiling[m]
  }

  /** The most urgent of `base` and everything lent by the mutexes in `ms`. */
  function MinLent(base: nat, ms: seq<Mid>, prio: seq<nat>, ceiling: seq<nat>): (r: nat)
    requires |prio| == |ceiling| && Below(ms, |prio|)
    ensures r <= base
    ensures forall m :: m in ms ==> r <= Lent(m, prio, ceiling)
    ensures r == base || exists m :: m in ms && r == Lent(m, prio, ceiling)
  {
    if ms == [] then base
    else
      var rest := MinLent(base, ms[..|ms| - 1], prio, ceiling);
      var last := Lent(ms[|ms| - 1], prio, ceiling);
      assert ms == ms[..|ms| - 1] + [ms[|ms| - 1]];
      if rest > last then last else rest
  }

  /** Only the set of mutexes and what each of them lends matters. */
  lemma MinLentUnique(base: nat, ms: seq<Mid>, prio: seq<nat>, ceiling: seq<nat>, r: nat)
    requires |prio| == |ceiling| && Below(ms, |prio|)
    requires r <= base && (forall m :: m in ms ==> r <= Lent(m, prio, ceiling))
    requires r == base || exists m :: m in ms && r == Lent(m, prio, ceiling)
    ensures r == MinLent(base, ms, prio, ceiling)
  {
  }

  lemma MinLentFrame(base: nat, ms: seq<Mid>, ms': seq<Mid>, prio: seq<nat>, ceiling: seq<nat>, prio': seq<nat>)
    requires |prio| == |ceiling| == |prio'| && Below(ms, |prio|) && Below(ms', |prio|)
    requires forall m :: m in ms <==> m in ms'
    requires forall m :: m in ms ==> prio[m] == prio'[m]
    ensures MinLent(base, ms, prio, ceiling) == MinLent(base, ms', prio', ceiling)
  {
    var r := MinLent(base, ms, prio, ceiling);
    assert forall m :: m in ms' ==> Lent(m, prio, ceiling) == Lent(m, prio', ceiling);
    MinLentUnique(base, ms', prio', ceiling, r);
  }

  // ---------- invariants ----------

  ghost predicate WellSized(s: State) {
    && |s.cur| == |s.suspended| == |s.pending| == |s.taken| == |s.init|
    && |s.prio| == |s.ceiling| == |s.hold| == |s.waiters| == |s.owner|
    && (forall t :: 0 <= t < |s.taken| ==> Below(s.taken[t], |s.owner|))
    && (forall m :: 0 <= m < |s.waiters| ==> Below(s.waiters[m], |s.init|))
    && (forall m :: 0 <= m < |s.owner| && s.owner[m].Some? ==> s.owner[m].value < |s.init|)
    && (forall t :: 0 <= t < |s.pending| && s.pending[t].Some? ==> s.pending[t].value < |s.owner|)
  }

  /** Thread `t` is blocked on mutex `m`. */
  predicate BlockedOn(s: State, t: Tid, m: Mid)
    requires t < |s.suspended| == |s.pending|
  {
    s.suspended[t] && s.pending[t] == Some(m)
  }

  /** Who owns, holds and waits for what. */
  ghost predicate Ownership(s: State)
    requires WellSized(s)
  {
    && (forall m :: 0 <= m < |s.owner| ==> (s.owner[m].Some? <==> s.hold[m] > 0) && s.hold[m] <= HOLD_MAX)
    && (forall t, m :: 0 <= t < |s.init| && 0 <= m < |s.owner| ==> (m in s.taken[t] <==> s.owner[m] == Some(t)))
    && (forall t :: 0 <= t < |s.taken| ==> Distinct(s.taken[t]))
    && (forall m :: 0 <= m < |s.waiters| ==> Distinct(s.waiters[m]))
    && (forall t, m :: 0 <= t < |s.init| && 0 <= m < |s.owner| ==> (t in s.waiters[m] <==> BlockedOn(s, t, m)))
    && (forall m :: 0 <= m < |s.owner| && s.waiters[m] != [] ==> s.owner[m].Some?)
    && (forall m :: 0 <= m < |s.owner| && s.owner[m].Some? ==> s.owner[m].value !in s.waiters[m])
  }

  /** The priority the source computes for thread `t`: its own and whatever its mutexes lend. */
  function Inherited(s: State, t: Tid): nat
    requires t < |s.init| == |s.taken| && |s.prio| == |s.ceiling| && Below(s.taken[t], |s.prio|)
  {
    MinLent(s.init[t], s.taken[t], s.prio, s.ceiling)
  }

  ghost predicate ExactThread(s: State, t: Tid)
    requires WellSized(s) && t < |s.init|
  {
    s.cur[t] == Inherited(s, t)
  }

  ghost predicate ExactMutex(s: State, m: Mid)
    requires WellSized(s) && m < |s.owner|
  {
    s.prio[m] == Head(s.waiters[m], s.cur)
  }

  /** The queue of `m` is sorted and the priority of `m` is no less urgent than its first waiter. */
  ghost predicate QueueInOrder(s: State, m: Mid)
    requires WellSized(s) && m < |s.owner|
  {
    Sorted(s.waiters[m], s.cur) && s.prio[m] <= Head(s.waiters[m], s.cur)
  }

  /** Thread `t` is at least as urgent as it is by itself and as every mutex it owns. */
  ghost predicate OwnerUrgent(s: State, t: Tid)
    requires WellSized(s) && t < |s.init|
  {
    s.cur[t] <= s.init[t] && (forall m :: 0 <= m < |s.owner| && s.owner[m] == Some(t) ==> s.cur[t] <= s.prio[m])
  }

  ghost predicate Structure(s: State) {
    && WellSized(s) && Ownership(s)
    && (forall t :: 0 <= t < |s.init| ==> s.init[t] < PRIORITIES)
    && (forall m :: 0 <= m < |s.owner| ==> s.prio[m] <= NO_PRIORITY && s.ceiling[m] <= NO_PRIORITY)
  }

  /** The invariant of every run, timeouts and ceilings included. */
  ghost predicate Valid(s: State) {
    && Structure(s)
    && (forall t :: 0 <= t < |s.init| ==> OwnerUrgent(s, t))
    && (forall m :: 0 <= m < |s.owner| ==> QueueInOrder(s, m))
  }

  /** No priority inversion: an owner is never less urgent than a thread queued on its mutex. */
  ghost predicate NoInversion(s: State)
    requires WellSized(s)
  {
    forall m, t :: 0 <= m < |s.owner| && t in s.waiters[m] ==>
      s.owner[m].Some? && s.cur[s.owner[m].value] <= s.cur[t]
  }

  lemma ValidHasNoInversion(s: State)
    requires Valid(s)
    ensures NoInversion(s)
  {
    forall m, t | 0 <= m < |s.owner| && t in s.waiters[m]
      ensures s.owner[m].Some? && s.cur[s.owner[m].value] <= s.cur[t]
    {
      assert QueueInOrder(s, m);
      var o := s.owner[m].value;
      assert OwnerUrgent(s, o);
      var i :| 0 <= i < |s.waiters[m]| && s.waiters[m][i] == t;
      if i > 0 { assert s.cur[s.waiters[m][0]] <= s.cur[s.waiters[m][i]]; }
    }
  }

  /** The invariant of runs without timeouts and ceilings: every priority is exactly the inherited one. */
  ghost predicate Exact(s: State)
    requires WellSized(s)
  {
    && (forall t :: 0 <= t < |s.init| ==> ExactThread(s, t))
    && (forall m :: 0 <= m < |s.owner| ==> ExactMutex(s, m))
  }

  /** What is exact in `s` is exact in `s1`. */
  ghost predicate StaysExact(s: State, s1: State)
    requires WellSized(s) && WellSized(s1) && |s1.init| == |s.init| && |s1.owner| == |s.owner|
  {
    && (forall t :: 0 <= t < |s.init| && ExactThread(s, t) ==> ExactThread(s1, t))
    && (forall m :: 0 <= m < |s.owner| && ExactMutex(s, m) ==> ExactMutex(s1, m))
  }

  ghost predicate NoCeilings(s: State) {
    forall m :: 0 <= m < |s.ceiling| ==> s.ceiling[m] == NO_PRIORITY
  }
}
