/**
  Runs in which several failed takes wait for their clean-up at once (rt-thread/src/ipc.c:1310-1361): as long as
  every clean-up comes in time, the threads have exactly the priorities they inherit, and only mutexes
  that are still to be cleaned up have a stale one.
 */
module MutexCleanUps {
  import opened Wrappers
  import opened KernelLists
  import opened MutexState
  import opened MutexWalk
  import opened MutexSteps
  import opened MutexCalls
  import opened MutexSystem

  // ---------- where a walk ends ----------

  /** `p` may become the priority of thread `t0`: only `t0` may be too little urgent so far. */
  ghost predicate MayBegin(s0: State, t0: Tid, p: nat) {
    && Structure(s0) && t0 < |s0.init| && p != s0.cur[t0] && p <= s0.init[t0]
    && (forall m :: 0 <= m < |s0.owner| ==> QueueInOrder(s0, m))
    && (forall t :: 0 <= t < |s0.init| && t != t0 ==> OwnerUrgent(s0, t))
    && (forall m :: 0 <= m < |s0.owner| && s0.owner[m] == Some(t0) ==> p <= s0.prio[m])
  }

  lemma RoundAt(s0: State, t0: Tid, p: nat, a: Stop, was: nat)
    requires MayBegin(s0, t0, p) && OnTheWay(s0, t0, p, a.s, a.th, was) && Repairs(a)
    ensures IsLast(a) ==> Arrived(s0, t0, p, End(a))
    ensures !IsLast(a) ==> OnTheWay(s0, t0, p, Onward(a).s, Onward(a).th, a.s.cur[OwnerOf(a)])
  {
    var m, r := a.s.pending[a.th].value, Repaired(a);
    WithoutBelow(a.s.waiters[m], a.th, |a.s.init|);
    var k := Slot(Without(a.s.waiters[m], a.th), a.s.cur, a.s.cur[a.th]);
    RequeueSized(s0, t0, p, a.s, a.th, was, m, k);
    RoundLeads(s0, t0, p, a.s, a.th, was, m, k, OwnerOf(a), r, Inherited(r, OwnerOf(a)));
  }

  /** A walk that began when `t0` got the priority `p` may have come to `a`. */
  ghost predicate Reached(s0: State, t0: Tid, p: nat, a: Stop) {
    WellSized(s0) && t0 < |s0.init| && exists was :: OnTheWay(s0, t0, p, a.s, a.th, was)
  }

  lemma RoundFrom(s0: State, t0: Tid, p: nat, a: Stop, b: Stop)
    requires MayBegin(s0, t0, p) && Reached(s0, t0, p, a) && Goes(a, b)
    ensures Reached(s0, t0, p, b)
  {
    var was :| OnTheWay(s0, t0, p, a.s, a.th, was);
    RoundAt(s0, t0, p, a, was);
  }

  /** What holds at the first stop and goes on from stop to stop holds at all of them. */
  lemma {:induction false} AlongTheWalk(w: seq<Stop>, i: nat, holds: Stop -> bool)
    requires IsWalk(w) && i < |w| && holds(w[0])
    requires forall a, b :: holds(a) && Goes(a, b) ==> holds(b)
    ensures holds(w[i])
  {
    if i > 0 {
      AlongTheWalk(w, i - 1, holds);
      assert Goes(w[i - 1], w[i - 1 + 1]);
    }
  }

  /** A thread waits in the queue of its mutex, which has an owner. */
  lemma WaitingIsRepaired(a: Stop)
    requires Structure(a.s) && a.th < |a.s.init| && a.s.suspended[a.th] && a.s.pending[a.th].Some?
    ensures Repairs(a)
  {
    assert BlockedOn(a.s, a.th, a.s.pending[a.th].value);
    assert a.th in a.s.waiters[a.s.pending[a.th].value];
  }

  /** However the walk goes, it keeps what was exact. */
  lemma WalkArrives(s0: State, t0: Tid, p: nat, s1: State)
    requires MayBegin(s0, t0, p) && Walked(s0.(cur := s0.cur[t0 := p]), t0, s1)
    ensures Arrived(s0, t0, p, s1)
  {
    var w :| IsWalk(w) && w[0] == Stop(s0.(cur := s0.cur[t0 := p]), t0) && EndsIn(w[|w| - 1], s1);
    WalkBegins(s0, t0, p);
    forall a, b | Reached(s0, t0, p, a) && Goes(a, b) ensures Reached(s0, t0, p, b) { RoundFrom(s0, t0, p, a, b); }
    AlongTheWalk(w, |w| - 1, a => Reached(s0, t0, p, a));
    LastArrives(s0, t0, p, w[|w| - 1], s1);
  }

  lemma LastArrives(s0: State, t0: Tid, p: nat, a: Stop, s1: State)
    requires MayBegin(s0, t0, p) && Reached(s0, t0, p, a) && EndsIn(a, s1)
    ensures Arrived(s0, t0, p, s1)
  {
    var was :| OnTheWay(s0, t0, p, a.s, a.th, was);
    if Repairs(a) {
      RoundAt(s0, t0, p, a, was);
    } else {
      if a.s.suspended[a.th] && a.s.pending[a.th].Some? { WaitingIsRepaired(a); }
      WalkFinishes(s0, t0, p, a.s, a.th, was);
    }
  }

  lemma CorrectKeeps(s: State, o: Tid, s1: State)
    requires Valid(s) && o < |s.init| && CorrectStep(s, o, s1)
    ensures Valid(s1) && Reordered(s, s1) && |s1.cur| == |s.cur| && |s1.prio| == |s.prio| && ExactThread(s1, o)
    ensures forall x :: 0 <= x < |s.init| && x != o && ExactThread(s, x) ==> ExactThread(s1, x)
    ensures forall x :: 0 <= x < |s.owner| && ExactMutex(s, x) ==> ExactMutex(s1, x)
  {
    var p := Inherited(s, o);
    if p != s.cur[o] {
      assert forall m :: 0 <= m < |s.owner| && s.owner[m] == Some(o) ==> m in s.taken[o];
      assert OwnerUrgent(s, o);
      WalkArrives(s, o, p, s1);
    }
  }

  // ---------- what is exact while clean-ups are pending ----------

  /** A thread whose take of `m` has failed is still to clean up. */
  ghost predicate Awaited(s: State, m: Mid) {
    exists t :: 0 <= t < |s.suspended| && t < |s.pending| && !s.suspended[t] && s.pending[t] == Some(m)
  }

  /** Threads have exactly the priority they inherit, and mutexes that of their first waiter, unless
      a clean-up is pending for them. */
  ghost predicate Settling(s: State)
    requires WellSized(s)
  {
    && (forall t :: 0 <= t < |s.init| ==> ExactThread(s, t))
    && (forall m :: 0 <= m < |s.owner| ==> ExactMutex(s, m) || Awaited(s, m))
  }

  ghost predicate NoneAwaited(s: State) {
    forall m :: 0 <= m < |s.owner| ==> !Awaited(s, m)
  }

  lemma SettledIsExact(s: State)
    requires WellSized(s) && Settling(s) && NoneAwaited(s)
    ensures Exact(s)
  {
  }

  /** Whoever had a clean-up pending in `s` has it in `s1`. */
  ghost predicate StillPending(s: State, s1: State)
    requires WellSized(s) && WellSized(s1)
  {
    && |s1.init| == |s.init| && |s1.owner| == |s.owner|
    && forall t :: 0 <= t < |s.init| && !s.suspended[t] && s.pending[t].Some? ==>
      !s1.suspended[t] && s1.pending[t] == s.pending[t]
  }

  lemma StillAwaited(s: State, s1: State, m: Mid)
    requires WellSized(s) && WellSized(s1) && StillPending(s, s1) && Awaited(s, m)
    ensures Awaited(s1, m)
  {
  }

  lemma StillSettling(s: State, s1: State)
    requires WellSized(s) && WellSized(s1) && StillPending(s, s1) && Settling(s)
    requires forall m :: 0 <= m < |s.owner| && ExactMutex(s, m) ==> ExactMutex(s1, m)
    ensures Settling(s1) <==> forall t :: 0 <= t < |s1.init| ==> ExactThread(s1, t)
  {
    forall m | 0 <= m < |s1.owner| ensures ExactMutex(s1, m) || Awaited(s1, m) {
      if Awaited(s, m) { StillAwaited(s, s1, m); } else { assert ExactMutex(s, m); }
    }
  }

  // ---------- what each call does to it ----------

  lemma HoldSettles(s: State, m: Mid, h: nat)
    requires Valid(s) && Settling(s) && m < |s.owner| && s.owner[m].Some? && 0 < h <= HOLD_MAX
    ensures var s1 := s.(hold := s.hold[m := h]); WellSized(s1) && Settling(s1)
  {
    HoldKeeps(s, m, h);
    StillSettling(s, s.(hold := s.hold[m := h]));
  }

  lemma TakeSettles(s: State, t: Tid, m: Mid, timeout: int, s1: State)
    requires Valid(s) && Settling(s) && m < |s.owner| && Running(s, t) && TakeStep(s, t, m, timeout, s1)
    ensures WellSized(s1) && Settling(s1)
  {
    if s.owner[m] == Some(t) {
      if s.hold[m] < HOLD_MAX { HoldSettles(s, m, s.hold[m] + 1); }
    } else if s.owner[m] == None {
      AcquireSettles(s, t, m);
    } else if timeout != 0 {
      JoinSettles(s, t, m, s1);
    }
  }

  lemma AcquireSettles(s: State, t: Tid, m: Mid)
    requires Valid(s) && Settling(s) && m < |s.owner| && Running(s, t) && s.owner[m] == None
    ensures
      var s1 := Acquired(s, t, m).(cur := s.cur[t := Min(s.cur[t], s.ceiling[m])]);
      WellSized(s1) && Settling(s1)
  {
    AcquiredExact(s, t, m);
    StillSettling(s, Acquired(s, t, m).(cur := s.cur[t := Min(s.cur[t], s.ceiling[m])]));
  }

  lemma JoinSettles(s: State, t: Tid, m: Mid, s1: State)
    requires Valid(s) && Settling(s) && m < |s.owner| && Running(s, t) && s.owner[m].Some? && s.owner[m] != Some(t)
    requires JoinStep(s, t, m, s1)
    ensures WellSized(s1) && Settling(s1)
  {
    var k, o, p := Slot(s.waiters[m], s.cur, s.cur[t]), s.owner[m].value, s.cur[t];
    if p < s.prio[m] && p < s.cur[o] {
      JoinedAbove(s, t, m, k, o, s1);
    } else {
      JoinedBelow(s, t, m, k, o, s1);
    }
    StillSettling(s, s1);
  }

  lemma QueuedExact(s: State, t: Tid, m: Mid, k: nat, o: Tid)
    requires Valid(s) && Settling(s) && m < |s.owner| && Running(s, t) && s.owner[m] == Some(o) && o != t
    requires IsSlot(s.waiters[m], s.cur, s.cur[t], k)
    ensures var q := Queued(s, t, m, k);
      && WellSized(q) && (forall x :: 0 <= x < |s.init| && x != o ==> ExactThread(q, x))
      && Inherited(q, o) == Min(s.cur[o], q.prio[m])
      && (forall x :: 0 <= x < |s.owner| && ExactMutex(s, x) ==> ExactMutex(q, x))
  {
    QueuedKeeps(s, t, m, k);
    QueuedOwner(s, t, m, k);
    forall x | 0 <= x < |s.init| && x != o ensures ExactThread(Queued(s, t, m, k), x) { assert ExactThread(s, x); }
    assert ExactThread(s, o);
  }

  lemma JoinedBelow(s: State, t: Tid, m: Mid, k: nat, o: Tid, s1: State)
    requires Valid(s) && Settling(s) && m < |s.owner| && Running(s, t) && s.owner[m] == Some(o) && o != t
    requires IsSlot(s.waiters[m], s.cur, s.cur[t], k) && s1 == Queued(s, t, m, k)
    requires s.cur[t] < s.prio[m] ==> s.cur[o] <= s.cur[t]
    ensures WellSized(s1) && (forall x :: 0 <= x < |s.init| ==> ExactThread(s1, x))
    ensures forall x :: 0 <= x < |s.owner| && ExactMutex(s, x) ==> ExactMutex(s1, x)
  {
    QueuedExact(s, t, m, k, o);
    assert OwnerUrgent(s, o);
    assert ExactThread(s1, o);
  }

  lemma QueuedWalks(s: State, t: Tid, m: Mid, k: nat, o: Tid, s1: State)
    requires Valid(s) && m < |s.owner| && Running(s, t) && s.owner[m] == Some(o) && o != t
    requires IsSlot(s.waiters[m], s.cur, s.cur[t], k) && s.cur[t] < s.prio[m] && s.cur[t] < s.cur[o]
    requires Walked(Queued(s, t, m, k).(cur := s.cur[o := s.cur[t]]), o, s1)
    ensures WellSized(Queued(s, t, m, k)) && Arrived(Queued(s, t, m, k), o, s.cur[t], s1)
  {
    QueuedAbove(s, t, m, k);
    WalkArrives(Queued(s, t, m, k), o, s.cur[t], s1);
  }

  lemma JoinedAbove(s: State, t: Tid, m: Mid, k: nat, o: Tid, s1: State)
    requires Valid(s) && Settling(s) && m < |s.owner| && Running(s, t) && s.owner[m] == Some(o) && o != t
    requires IsSlot(s.waiters[m], s.cur, s.cur[t], k) && s.cur[t] < s.prio[m] && s.cur[t] < s.cur[o]
    requires Walked(Queued(s, t, m, k).(cur := s.cur[o := s.cur[t]]), o, s1)
    ensures WellSized(s1) && |s1.init| == |s.init| && (forall x :: 0 <= x < |s.init| ==> ExactThread(s1, x))
    ensures JoinedQueue(s, t, m, s1)
    ensures |s1.owner| == |s.owner| && forall x :: 0 <= x < |s.owner| && ExactMutex(s, x) ==> ExactMutex(s1, x)
  {
    QueuedExact(s, t, m, k, o);
    QueuedWalks(s, t, m, k, o, s1);
    RaisedOwner(s, t, m, k, s1);
    ArrivedExact(Queued(s, t, m, k), o, s.cur[t], s1);
  }

  lemma ArrivedExact(s0: State, o: Tid, p: nat, s1: State)
    requires WellSized(s0) && o < |s0.init| && Arrived(s0, o, p, s1) && p == Inherited(s0, o)
    requires forall x :: 0 <= x < |s0.init| && x != o ==> ExactThread(s0, x)
    ensures |s1.init| == |s0.init| && forall x :: 0 <= x < |s0.init| ==> ExactThread(s1, x)
  {
    forall x | 0 <= x < |s0.init| ensures ExactThread(s1, x) { assert x == o || ExactThread(s0, x); }
  }

  lemma ReleaseSettles(s: State, t: Tid, m: Mid, s1: State)
    requires Valid(s) && Settling(s) && m < |s.owner| && Running(s, t) && ReleaseStep(s, t, m, s1)
    ensures WellSized(s1)
    ensures Settling(s1) <==> !(s.owner[m] == Some(t) && s.hold[m] == 1 && HandsBelowCeiling(s, m))
  {
    if s.owner[m] == Some(t) {
      if s.hold[m] == 1 {
        ReleasedThreads(s, t, m);
        ReleasedMutexes(s, t, m);
        StillSettling(s, s1);
      } else {
        HoldSettles(s, m, s.hold[m] - 1);
      }
    }
  }

  lemma PassedThreads(s: State, t: Tid, m: Mid, next: Option<Tid>, cur: seq<nat>)
    requires Valid(s) && Running(s, t) && m < |s.owner| && s.owner[m] == Some(t) && Suits(s, t, m, cur)
    requires
      if next.Some? then Running(s, next.value) && next.value != t && s.cur[next.value] <= s.prio[m]
      else s.waiters[m] == []
    requires forall x :: 0 <= x < |s.init| && x != t ==> ExactThread(s, x)
    requires cur[t] == MinLent(s.init[t], Without(s.taken[t], m), s.prio, s.ceiling)
    ensures WellSized(Passed(s, t, m, next, cur))
    ensures (forall x :: 0 <= x < |s.init| ==> ExactThread(Passed(s, t, m, next, cur), x)) <==>
      next.None? || s.cur[next.value] <= s.ceiling[m]
  {
    PassedExact(s, t, m, next, cur);
    if next.Some? {
      assert ExactThread(Passed(s, t, m, next, cur), next.value) <==> s.cur[next.value] <= s.ceiling[m];
    }
  }

  lemma ReleasedThreads(s: State, t: Tid, m: Mid)
    requires Valid(s) && Settling(s) && m < |s.owner| && Running(s, t) && s.owner[m] == Some(t)
    ensures WellSized(Released(s, t, m))
    ensures (forall x :: 0 <= x < |s.init| ==> ExactThread(Released(s, t, m), x)) <==> !HandsBelowCeiling(s, m)
  {
    AfterGivingUpIs(s, t, m);
    assert ExactThread(s, t);
    if s.waiters[m] == [] {
      PassedThreads(s, t, m, None, AfterGivingUp(s, t, m));
    } else {
      WokenKeeps(s, m);
      SuitsWoken(s, t, m);
      PassedThreads(Woken(s, m), t, m, Some(s.waiters[m][0]), AfterGivingUp(s, t, m));
    }
  }

  lemma ReleasedMutexes(s: State, t: Tid, m: Mid)
    requires Valid(s) && m < |s.owner| && Running(s, t) && s.owner[m] == Some(t)
    ensures WellSized(Released(s, t, m)) && StillPending(s, Released(s, t, m))
    ensures forall x :: 0 <= x < |s.owner| && ExactMutex(s, x) ==> ExactMutex(Released(s, t, m), x)
  {
    AfterGivingUpIs(s, t, m);
    if s.waiters[m] == [] {
      PassedKeeps(s, t, m, None, AfterGivingUp(s, t, m));
    } else {
      HandedMutexes(s, t, m);
    }
  }

  lemma HandedMutexes(s: State, t: Tid, m: Mid)
    requires Valid(s) && m < |s.owner| && Running(s, t) && s.owner[m] == Some(t) && s.waiters[m] != []
    ensures WellSized(Released(s, t, m)) && StillPending(s, Released(s, t, m))
    ensures forall x :: 0 <= x < |s.owner| && ExactMutex(s, x) ==> ExactMutex(Released(s, t, m), x)
  {
    var w := Woken(s, m);
    WokenKeeps(s, m);
    assert StillPending(s, w) by {
      assert s.waiters[m][0] in s.waiters[m] && BlockedOn(s, s.waiters[m][0], m);
    }
    SuitsWoken(s, t, m);
    PassedKeeps(w, t, m, Some(s.waiters[m][0]), AfterGivingUp(s, t, m));
  }

  lemma ExpireSettles(s: State, t: Tid)
    requires Valid(s) && Settling(s) && t < |s.init| && s.pending[t].Some?
    ensures var l := Left(s, t, s.pending[t].value); Valid(l) && Settling(l)
  {
    var m := s.pending[t].value;
    var l := Left(s, t, m);
    LeftKeeps(s, t, m);
    forall x | 0 <= x < |s.owner| ensures ExactMutex(l, x) || Awaited(l, x) {
      if x == m {
        assert !l.suspended[t] && l.pending[t] == Some(m);
      } else if Awaited(s, x) {
        StillAwaited(s, l, x);
      } else {
        assert ExactMutex(s, x);
      }
    }
  }

  /** The clean-up of thread `t` comes in time: it corrects the owner of the mutex, or need not. */
  ghost predicate CleansUp(s: State, t: Tid)
    requires WellSized(s) && t < |s.init|
  {
    s.pending[t].Some? ==> RunsAsUrgent(s, s.pending[t].value, t) || OwnerUnmoved(s, s.pending[t].value)
  }

  lemma GiveUpSettles(s: State, t: Tid, s1: State)
    requires Valid(s) && Settling(s) && t < |s.init| && !s.suspended[t] && s.pending[t].Some? && GiveUpStep(s, t, s1)
    ensures WellSized(s1) && (Settling(s1) <==> CleansUp(s, t))
  {
    var s2 := s1.(pending := s.pending);
    RefreshSettles(s, t, s.pending[t].value, s2);
    assert s1 == s2.(pending := s2.pending[t := None]);
    ClearedKeeps(s2, t);
    forall x | 0 <= x < |s.owner| ensures ExactMutex(s1, x) || Awaited(s1, x) {
      if !ExactMutex(s2, x) { OtherAwaited(s, t, x, s1); }
    }
    assert forall x :: 0 <= x < |s.init| ==> (ExactThread(s2, x) <==> ExactThread(s1, x));
  }

  lemma OtherAwaited(s: State, t: Tid, m: Mid, s1: State)
    requires t < |s.pending| && s.pending[t] != Some(m) && Awaited(s, m)
    requires s1.pending == s.pending[t := None] && s1.suspended == s.suspended
    ensures Awaited(s1, m)
  {
    var y :| 0 <= y < |s.suspended| && y < |s.pending| && !s.suspended[y] && s.pending[y] == Some(m);
    assert s1.pending[y] == Some(m);
  }

  /** Up to the point where the thread forgets the mutex. */
  lemma RefreshSettles(s: State, t: Tid, m: Mid, s2: State)
    requires Valid(s) && Settling(s) && t < |s.init| && s.pending[t] == Some(m) && SettleStep(s, m, t, s2)
    ensures Valid(s2) && Reordered(s, s2) && |s2.prio| == |s.prio| && |s2.cur| == |s.cur|
    ensures (forall x :: 0 <= x < |s.init| ==> ExactThread(s2, x)) <==> CleansUp(s, t)
    ensures forall x :: 0 <= x < |s.owner| ==> ExactMutex(s2, x) || (x != m && Awaited(s, x))
  {
    var r := Refreshed(s, m);
    RefreshedKeeps(s, m);
    forall x | 0 <= x < |s.init| && s.owner[m] != Some(x) ensures ExactThread(r, x) { assert ExactThread(s, x); }
    if RunsAsUrgent(s, m, t) {
      CorrectKeeps(r, s.owner[m].value, s2);
    } else if s.owner[m].Some? {
      assert ExactThread(r, s.owner[m].value) <==> OwnerUnmoved(s, m);
    }
    forall x | 0 <= x < |s.owner| ensures ExactMutex(s2, x) || (x != m && Awaited(s, x)) {
      assert x == m || ExactMutex(s, x) || Awaited(s, x);
    }
  }

  lemma DetachSettles(s: State, t: Tid, s1: State)
    requires Valid(s) && Settling(s) && t < |s.init| && DetachStep(s, t, s1)
    ensures WellSized(s1)
    ensures Settling(s1) <==> s.pending[t].None? || CleansUp(Left(s, t, s.pending[t].value), t)
  {
    if s.pending[t].Some? {
      ExpireSettles(s, t);
      GiveUpSettles(Left(s, t, s.pending[t].value), t, s1);
    } else {
      ResumedKeeps(s, t, false);
      StillSettling(s, s1);
    }
  }

  lemma CeilingSettles(s: State, m: Mid, priority: nat, s1: State)
    requires Valid(s) && Settling(s) && m < |s.owner| && priority < PRIORITIES && CeilingStep(s, m, priority, s1)
    ensures WellSized(s1) && Settling(s1)
  {
    CeilingKeeps(s, m, priority);
    if s.owner[m].Some? { CorrectKeeps(s.(ceiling := s.ceiling[m := priority]), s.owner[m].value, s1); }
    forall x | 0 <= x < |s.init| ensures ExactThread(s1, x) { assert ExactThread(s, x); }
    StillSettling(s, s1);
  }

  // ---------- runs ----------

  /** A clean-up comes in time, and a mutex is not handed to a thread below its ceiling. */
  ghost predicate InTime(s: State, op: Op)
    requires WellSized(s)
  {
    match op
    case OpRelease(t, m) =>
      m < |s.owner| && Running(s, t) && s.owner[m] == Some(t) && s.hold[m] == 1 ==> !HandsBelowCeiling(s, m)
    case OpGiveUp(t) => t < |s.init| && !s.suspended[t] ==> CleansUp(s, t)
    case OpDetach(t) =>
      t < |s.init| && s.pending[t].Some? ==>
        WellSized(Left(s, t, s.pending[t].value)) && CleansUp(Left(s, t, s.pending[t].value), t)
    case _ => true
  }

  lemma StepSettles(s: State, op: Op, s1: State)
    requires Valid(s) && Settling(s) && Step(s, op, s1)
    ensures WellSized(s1) && (Settling(s1) <==> InTime(s, op))
  {
    match op
    case OpTake(t, m, timeout) => if m < |s.owner| && Running(s, t) { TakeSettles(s, t, m, timeout, s1); }
    case OpRelease(t, m) => if m < |s.owner| && Running(s, t) { ReleaseSettles(s, t, m, s1); }
    case OpExpire(t) => if t < |s.init| && s.suspended[t] && s.pending[t].Some? { ExpireSettles(s, t); }
    case OpGiveUp(t) => if t < |s.init| && !s.suspended[t] && s.pending[t].Some? { GiveUpSettles(s, t, s1); }
    case OpDetach(t) =>
      if t < |s.init| {
        if s.pending[t].Some? { LeftKeeps(s, t, s.pending[t].value); }
        DetachSettles(s, t, s1);
      }
    case OpCeiling(m, priority) =>
      if m < |s.owner| && priority < PRIORITIES { CeilingSettles(s, m, priority, s1); }
    case OpSuspend(t) => if Running(s, t) { SuspendSettles(s, t, true); }
    case OpResume(t) => if t < |s.init| && s.suspended[t] && s.pending[t].None? { SuspendSettles(s, t, false); }
  }

  lemma SuspendSettles(s: State, t: Tid, suspended: bool)
    requires Valid(s) && Settling(s) && t < |s.init| && s.pending[t].None?
    ensures var s1 := s.(suspended := s.suspended[t := suspended]); WellSized(s1) && Settling(s1)
  {
    ResumedKeeps(s, t, suspended);
    StillSettling(s, s.(suspended := s.suspended[t := suspended]));
  }

  /** Every state of the run is settling. */
  ghost predicate Settles(trace: seq<State>) {
    forall i :: 0 <= i < |trace| ==> SettlesAt(trace[i])
  }

  ghost predicate SettlesAt(s: State) {
    WellSized(s) && Settling(s)
  }

  /** Every step of the run is in time. */
  ghost predicate AllInTime(trace: seq<State>, ops: seq<Op>, n: nat)
    requires n <= |ops| && n <= |trace|
  {
    forall i :: 0 <= i < n ==> InTimeAt(trace[i], ops[i])
  }

  ghost predicate InTimeAt(s: State, op: Op) {
    WellSized(s) && InTime(s, op)
  }

  lemma RunStep(trace: seq<State>, ops: seq<Op>, n: nat, i: nat)
    requires IsRun(trace, ops, n) && IsSafe(trace, ops) && i < n
    ensures Valid(trace[i]) && Step(trace[i], ops[i], trace[i + 1])
  {
    assert StepAt(trace, ops, i) && SafeAfter(trace[i], ops, i);
  }

  lemma SettlesNext(s: State, op: Op, s1: State)
    requires Valid(s) && Step(s, op, s1) && SettlesAt(s)
    ensures SettlesAt(s1) <==> InTimeAt(s, op)
  {
    StepSettles(s, op, s1);
  }

  lemma {:induction false} InTimeSettles(trace: seq<State>, ops: seq<Op>, n: nat, i: nat)
    requires IsRun(trace, ops, n) && IsSafe(trace, ops) && SettlesAt(trace[0]) && AllInTime(trace, ops, n) && i <= n
    ensures SettlesAt(trace[i])
  {
    if i > 0 {
      InTimeSettles(trace, ops, n, i - 1);
      RunStep(trace, ops, n, i - 1);
      SettlesNext(trace[i - 1], ops[i - 1], trace[i]);
    }
  }

  /** A run is settling throughout exactly if all its clean-ups come in time, however many are pending at once. */
  lemma SettlesIff(trace: seq<State>, ops: seq<Op>, n: nat)
    requires IsRun(trace, ops, n) && IsSafe(trace, ops) && SettlesAt(trace[0])
    ensures Settles(trace) <==> AllInTime(trace, ops, n)
  {
    if Settles(trace) {
      forall i | 0 <= i < n ensures InTimeAt(trace[i], ops[i]) {
        RunStep(trace, ops, n, i);
        assert SettlesAt(trace[i]) && SettlesAt(trace[i + 1]);
        SettlesNext(trace[i], ops[i], trace[i + 1]);
      }
    }
    if AllInTime(trace, ops, n) {
      forall i | 0 <= i < |trace| ensures SettlesAt(trace[i]) { InTimeSettles(trace, ops, n, i); }
    }
  }

  /** Any run from a state in which all is exact: if all clean-ups come in time, every priority is exactly the
      inherited one in each state in which none is pending; and if one does not, some state is not even settling. */
  method RunAndSettle(system: System, ops: seq<Op>) returns (ghost trace: seq<State>)
    requires Valid(system.View()) && Exact(system.View()) && NoCeilings(system.View())
    modifies system
    ensures IsRun(trace, ops, |ops|) && trace[0] == old(system.View()) && trace[|ops|] == system.View()
    ensures Settles(trace) <==> AllInTime(trace, ops, |ops|)
    ensures AllInTime(trace, ops, |ops|) ==>
      forall i :: 0 <= i <= |ops| && NoneAwaited(trace[i]) ==> WellSized(trace[i]) && Exact(trace[i])
  {
    trace := system.Run(ops);
    SettlesIff(trace, ops, |ops|);
    if AllInTime(trace, ops, |ops|) {
      forall i | 0 <= i <= |ops| && NoneAwaited(trace[i]) ensures WellSized(trace[i]) && Exact(trace[i]) {
        assert SettlesAt(trace[i]);
        SettledIsExact(trace[i]);
      }
    }
  }
}
