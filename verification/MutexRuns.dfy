/**
  Runs on which priority inheritance goes wrong, from all threads ready and all mutexes free on.
 */
module MutexRuns {
  import opened Wrappers
  import opened KernelLists
  import opened MutexState
  import opened MutexWalk
  import opened MutexSteps
  import opened MutexCalls
  import opened MutexSystem
  import opened MutexChains

  // ---------- what single calls come to in simple cases ----------

  /** A free mutex without a more urgent ceiling is taken. */
  lemma TakesFree(trace: seq<State>, ops: seq<Op>, n: nat, i: nat, t: Tid, m: Mid, timeout: int)
    requires IsRun(trace, ops, n) && i < n && ops[i] == OpTake(t, m, timeout)
    requires WellSized(trace[i]) && m < |trace[i].owner| && Running(trace[i], t)
    requires trace[i].owner[m].None? && trace[i].cur[t] <= trace[i].ceiling[m]
    ensures trace[i + 1] == Acquired(trace[i], t, m)
  {
    assert StepAt(trace, ops, i);
    var s := trace[i];
    assert s.cur[t := Min(s.cur[t], s.ceiling[m])] == s.cur;
  }

  /** `t` is the only waiter of `m`, whose owner is now at least as urgent. */
  function FirstQueued(s: State, t: Tid, m: Mid, o: Tid): State
    requires m < |s.waiters| == |s.prio| && t < |s.suspended| == |s.pending| == |s.cur| && o < |s.cur|
  {
    s.(waiters := s.waiters[m := [t]], suspended := s.suspended[t := true], pending := s.pending[t := Some(m)],
       prio := s.prio[m := s.cur[t]], cur := s.cur[o := Min(s.cur[o], s.cur[t])])
  }

  lemma QueuesFirst(trace: seq<State>, ops: seq<Op>, n: nat, i: nat, t: Tid, m: Mid, timeout: int, o: Tid)
    requires IsRun(trace, ops, n) && i < n && ops[i] == OpTake(t, m, timeout) && timeout != 0
    requires WellSized(trace[i]) && m < |trace[i].owner| && Running(trace[i], t) && trace[i].owner[m] == Some(o)
    requires o != t
    requires !trace[i].suspended[o] || trace[i].cur[o] <= trace[i].cur[t]
    requires trace[i].waiters[m] == [] && trace[i].cur[t] < trace[i].prio[m]
    ensures trace[i + 1] == FirstQueued(trace[i], t, m, o)
  {
    assert StepAt(trace, ops, i);
    var s := trace[i];
    var q, p := Queued(s, t, m, 0), s.cur[t];
    assert LinkAt([], t, 0) == [t];
    assert q.cur[o := Min(s.cur[o], p)] == if p < s.cur[o] then q.cur[o := p] else q.cur;
    if p < s.cur[o] {
      WalkOfRunning(q.(cur := q.cur[o := p]), o);
    }
  }

  /** The only waiter of `m` leaves. */
  lemma Expires(trace: seq<State>, ops: seq<Op>, n: nat, i: nat, t: Tid, m: Mid)
    requires IsRun(trace, ops, n) && i < n && ops[i] == OpExpire(t)
    requires WellSized(trace[i]) && t < |trace[i].init| && m < |trace[i].waiters|
    requires trace[i].suspended[t] && trace[i].pending[t] == Some(m) && trace[i].waiters[m] == [t]
    ensures trace[i + 1] == trace[i].(waiters := trace[i].waiters[m := []], suspended := trace[i].suspended[t := false])
  {
    assert StepAt(trace, ops, i);
    assert Without([t], t) == [];
  }

  /** Nobody waits any more, and the owner is of another priority: only the mutex is corrected. */
  lemma GivesUpIdly(trace: seq<State>, ops: seq<Op>, n: nat, i: nat, t: Tid, m: Mid, o: Tid)
    requires IsRun(trace, ops, n) && i < n && ops[i] == OpGiveUp(t)
    requires WellSized(trace[i]) && t < |trace[i].init| && m < |trace[i].waiters|
    requires !trace[i].suspended[t] && trace[i].pending[t] == Some(m) && trace[i].waiters[m] == []
    requires trace[i].owner[m] == Some(o) && trace[i].cur[o] != trace[i].cur[t]
    ensures trace[i + 1] == trace[i].(prio := trace[i].prio[m := NO_PRIORITY], pending := trace[i].pending[t := None])
  {
    assert StepAt(trace, ops, i);
    var s, s1 := trace[i], trace[i + 1];
    assert s1 == s1.(pending := s.pending).(pending := s1.pending);
  }

  /** The last release of a mutex that nobody waits for and that is not the source of the priority. */
  lemma ReleasesIdly(trace: seq<State>, ops: seq<Op>, n: nat, i: nat, t: Tid, m: Mid)
    requires IsRun(trace, ops, n) && i < n && ops[i] == OpRelease(t, m)
    requires WellSized(trace[i]) && m < |trace[i].owner| && Running(trace[i], t)
    requires trace[i].owner[m] == Some(t) && trace[i].hold[m] == 1 && trace[i].waiters[m] == []
    requires trace[i].ceiling[m] == NO_PRIORITY && trace[i].cur[t] != trace[i].prio[m]
    ensures trace[i + 1] == Passed(trace[i], t, m, None, trace[i].cur)
  {
    assert StepAt(trace, ops, i);
  }

  // ---------- a clean-up that comes too late ----------

  /** O owns mutex 0 and T mutex 1. T waits for mutex 0 and lends O its priority; its time runs out, and
      before it cleans up U waits for mutex 1 and makes T more urgent. */
  function LateCleanUp(): seq<Op> {
    [OpTake(0, 0, -1), OpTake(1, 1, -1), OpTake(1, 0, 1), OpExpire(1), OpTake(2, 1, -1), OpGiveUp(1), OpRelease(0, 0)]
  }

  lemma BothTaken(init: seq<nat>, trace: seq<State>, ops: seq<Op>, n: nat)
    requires |init| == 3 && forall t :: 0 <= t < 3 ==> init[t] < PRIORITIES
    requires IsRun(trace, ops, n) && n > 2 && trace[0] == Idle(init, 2)
    requires ops[0] == OpTake(0, 0, -1) && ops[1] == OpTake(1, 1, -1)
    ensures WellSized(trace[2]) && trace[2].init == trace[2].cur == init && |trace[2].owner| == 2
    ensures trace[2].suspended == [false, false, false] && trace[2].pending == [None, None, None]
    ensures trace[2].owner == [Some(0), Some(1)] && trace[2].hold == [1, 1]
    ensures |trace[2].taken| == 3 && trace[2].taken[0] == [0] && trace[2].taken[1] == [1] && trace[2].taken[2] == []
    ensures trace[2].waiters == [[], []] && trace[2].prio == trace[2].ceiling == [NO_PRIORITY, NO_PRIORITY]
  {
    TakesFree(trace, ops, n, 0, 0, 0, -1);
    TakesFree(trace, ops, n, 1, 1, 1, -1);
    assert trace[2].taken[0] == [0] + [] && trace[2].taken[1] == [1] + [];
  }

  lemma LateCleanUpBegins(init: seq<nat>, trace: seq<State>)
    requires |init| == 3 && PRIORITIES > init[0] > init[1] > init[2]
    requires IsRun(trace, LateCleanUp(), 7) && trace[0] == Idle(init, 2)
    ensures WellSized(trace[4]) && |trace[4].init| == 3 && |trace[4].owner| == 2 && trace[4].init == init
    ensures trace[4].cur == [init[1], init[1], init[2]] && trace[4].suspended == [false, false, false]
    ensures trace[4].pending == [None, Some(0), None] && trace[4].owner == [Some(0), Some(1)] && trace[4].hold[0] == 1
    ensures trace[4].waiters == [[], []] && trace[4].taken[0] == [0]
    ensures trace[4].prio == [init[1], NO_PRIORITY] && trace[4].ceiling[0] == NO_PRIORITY
  {
    var ops := LateCleanUp();
    BothTaken(init, trace, ops, 7);
    QueuesFirst(trace, ops, 7, 2, 1, 0, 1, 0);
    Expires(trace, ops, 7, 3, 1, 0);
  }

  /** The clean-up of T finds that O does not run at the priority of T, and leaves O alone; and the
      release of O finds that its priority does not come from the mutex. O keeps the priority that T
      lent it although it owns nothing any more. */
  lemma LateCleanUpEnds(init: seq<nat>, trace: seq<State>)
    requires |init| == 3 && PRIORITIES > init[0] > init[1] > init[2]
    requires IsRun(trace, LateCleanUp(), 7) && trace[0] == Idle(init, 2)
    ensures
      var s := trace[7];
      && |s.cur| == |s.taken| == |s.suspended| == |s.pending| == 3 && s.init == init && Running(s, 0)
      && s.taken[0] == [] && s.cur[0] == init[1] < s.init[0]
      && s.pending == [None, None, Some(1)] && s.suspended == [false, false, true]
  {
    var ops := LateCleanUp();
    LateCleanUpBegins(init, trace);
    QueuesFirst(trace, ops, 7, 4, 2, 1, -1, 1);
    GivesUpIdly(trace, ops, 7, 5, 1, 0, 0);
    ReleasesIdly(trace, ops, 7, 6, 0, 0);
  }

  /** The run happens: it ends with a thread that owns nothing and is more urgent than by itself, and no
      clean-up is left that could correct it. */
  method RunLateCleanUp(init: seq<nat>) returns (system: System)
    requires |init| == 3 && PRIORITIES > init[0] > init[1] > init[2]
    ensures fresh(system) && Valid(system.View()) && !Exact(system.View())
    ensures |system.taken| == |system.cur| == 3 && system.taken[0] == [] && system.cur[0] == init[1] < init[0]
    ensures |system.pending| == |system.suspended|
    ensures forall t :: 0 <= t < |system.pending| && system.pending[t].Some? ==> system.suspended[t]
  {
    system := new System(init, 2);
    ghost var trace := system.Run(LateCleanUp());
    LateCleanUpEnds(init, trace);
    assert system.View() == trace[7];
    Safe(trace, LateCleanUp(), 7);
    assert !ExactThread(system.View(), 0);
  }

  lemma Safe(trace: seq<State>, ops: seq<Op>, n: nat)
    requires IsSafe(trace, ops) && n < |trace|
    ensures Valid(trace[n])
  {
    assert SafeAfter(trace[n], ops, n);
  }

  // ---------- a ceiling that is forgotten ----------

  /** A thread waits for a mutex whose ceiling is more urgent than the thread, and is handed the mutex:
      it does not get the priority of the ceiling. */
  method RunHandOver(init: seq<nat>, ceiling: nat) returns (system: System, ghost before: State)
    requires |init| == 2 && init[0] < PRIORITIES && ceiling < init[1] < PRIORITIES
    ensures Valid(before) && Exact(before) && |before.init| == 2 && |before.owner| == 1 && HandsBelowCeiling(before, 0)
    ensures fresh(system) && ReleaseStep(before, 0, 0, system.View()) && Valid(system.View()) && !Exact(system.View())
    ensures |system.owner| == |system.ceiling| == 1 && |system.cur| == 2
    ensures system.owner[0] == Some(1) && system.ceiling[0] == ceiling < system.cur[1]
  {
    system := TakeBelowCeiling(init, ceiling);
    var _ := system.Take(1, 0, -1);
    before := system.View();
    var _ := system.Release(0, 0);
  }

  method TakeBelowCeiling(init: seq<nat>, ceiling: nat) returns (system: System)
    requires |init| == 2 && init[0] < PRIORITIES && ceiling < init[1] < PRIORITIES
    ensures fresh(system) && Valid(system.View()) && Exact(system.View())
    ensures |system.View().init| == 2 && |system.owner| == 1 && Running(system.View(), 0) && Running(system.View(), 1)
    ensures system.owner[0] == Some(0) && system.hold[0] == 1 && system.waiters[0] == []
    ensures system.prio[0] == NO_PRIORITY
    ensures system.ceiling[0] == ceiling && system.cur[0] <= ceiling && system.cur[1] == init[1]
  {
    system := new System(init, 1);
    var _, _ := system.SetPrioCeiling(0, ceiling);
    var _ := system.Take(0, 0, -1);
  }

  // ---------- a deadlock that keeps a priority ----------

  /** A owns mutex 0 and B mutex 1, and each waits for the other. C waits for mutex 0 and makes both as
      urgent as itself; then its time runs out, and it cleans up at once. */
  function Ring(): seq<Op> {
    [OpTake(0, 0, -1), OpTake(1, 1, -1), OpTake(0, 1, -1), OpTake(1, 0, -1), OpTake(2, 0, 1), OpExpire(2), OpGiveUp(2)]
  }

  /** A and B wait for each other at the priority `p`; `w` are the waiters of mutex 0. */
  ghost predicate IsRingOfTwo(s: State, init: seq<nat>, p: nat, w: seq<Tid>) {
    && |init| == 3 && WellSized(s) && s.init == init && |s.owner| == 2
    && s.cur[0] == s.cur[1] == p && s.cur[2] == init[2] && s.suspended[0] && s.suspended[1]
    && s.pending[0] == Some(1) && s.pending[1] == Some(0) && s.owner[0] == Some(0) && s.owner[1] == Some(1)
    && s.taken[0] == [0] && s.taken[1] == [1] && s.taken[2] == [] && s.waiters[0] == w && s.waiters[1] == [0]
    && s.prio[0] == s.prio[1] == p && s.ceiling[0] == s.ceiling[1] == NO_PRIORITY
  }

  lemma RingCloses(init: seq<nat>, trace: seq<State>)
    requires |init| == 3 && PRIORITIES > init[1] > init[0] > init[2]
    requires IsRun(trace, Ring(), 7) && trace[0] == Idle(init, 2)
    ensures IsRingOfTwo(trace[4], init, init[0], [1]) && Running(trace[4], 2)
  {
    BothTaken(init, trace, Ring(), 7);
    QueuesFirst(trace, Ring(), 7, 2, 0, 1, -1, 1);
    QueuesFirst(trace, Ring(), 7, 3, 1, 0, -1, 0);
  }

  /** A thread with one mutex, which has no ceiling. */
  lemma InheritsOfOne(s: State, t: Tid, m: Mid)
    requires WellSized(s) && t < |s.init| && m < |s.owner| && s.taken[t] == [m] && s.ceiling[m] == NO_PRIORITY
    requires s.prio[m] <= NO_PRIORITY
    ensures Inherited(s, t) == Min(s.init[t], s.prio[m])
  {
    assert m in s.taken[t];
    MinLentUnique(s.init[t], s.taken[t], s.prio, s.ceiling, Min(s.init[t], s.prio[m]));
  }

  /** A is the only waiter of mutex 1, and hands its new priority on to B. */
  lemma RingFromA(s: State, s2: State, init: seq<nat>, p: nat, c: nat, w: seq<Tid>)
    requires WellSized(s) && |s.init| == 3 && |s.owner| == 2 && s.cur[0] == c && s.prio[0] == c
    requires IsRingOfTwo(s.(cur := s.cur[0 := p], prio := s.prio[0 := p]), init, p, w)
    requires c < p <= NO_PRIORITY && c <= init[1]
    requires s2 == s.(cur := s.cur[1 := c], prio := s.prio[1 := c])
    ensures Goes(Stop(s, 0), Stop(s2, 1))
  {
    assert Without([0], 0) == [] && LinkAt([], 0, 0) == [0];
    assert s.waiters[1 := [0]] == s.waiters;
    var r := Requeued(s, 0, 1, 0);
    assert r == s.(prio := s.prio[1 := c]);
    InheritsOfOne(r, 1, 1);
    SlotIs([], s.cur, c, 0);
    OwnerIsNext(s, 0, 1, 0, s2);
  }

  /** B stays behind C, which is as urgent, and A has the priority already. */
  lemma RingFromB(s: State, init: seq<nat>, c: nat)
    requires IsRingOfTwo(s, init, c, [2, 1]) && s.cur[2] == c && c <= init[0] && c <= NO_PRIORITY
    ensures EndsIn(Stop(s, 1), s)
  {
    assert Without([2, 1], 1) == [2] by { assert [2, 1][1..] == [1] && Without([1], 1) == []; }
    assert LinkAt([2], 1, 1) == [2, 1];
    assert s.waiters[0 := [2, 1]] == s.waiters && s.prio[0 := c] == s.prio;
    var r := Requeued(s, 1, 0, 1);
    assert r == s;
    InheritsOfOne(s, 0, 0);
    OwnerIsRight(s, 1, 0, 1);
  }

  /** The walk that the priority of C sets off goes once round the ring. */
  lemma RingWalk(s: State, init: seq<nat>, p: nat, c: nat) returns (s1: State, s2: State)
    requires IsRingOfTwo(s, init, p, [1]) && Running(s, 2) && s.cur[2] == c < p <= NO_PRIORITY && p <= init[0]
    requires c <= init[1]
    ensures var q := Queued(s, 2, 0, 0); s1 == q.(cur := q.cur[0 := c])
    ensures s2 == s1.(cur := s1.cur[1 := c], prio := s1.prio[1 := c]) && IsRingOfTwo(s2, init, c, [2, 1])
    ensures Walked(s1, 0, s2)
  {
    assert LinkAt([1], 2, 0) == [2, 1];
    var q := Queued(s, 2, 0, 0);
    s1 := q.(cur := q.cur[0 := c]);
    s2 := s1.(cur := s1.cur[1 := c], prio := s1.prio[1 := c]);
    assert s1.cur[0 := p] == s.cur && s1.prio[0 := p] == s.prio;
    RingFromA(s1, s2, init, p, c, [2, 1]);
    RingFromB(s2, init, c);
    WalkOfOne(Stop(s2, 1), s2);
    WalkFrom(Stop(s1, 0), Stop(s2, 1));
  }

  lemma RingIsRaised(init: seq<nat>, trace: seq<State>)
    requires |init| == 3 && PRIORITIES > init[1] > init[0] > init[2]
    requires IsRun(trace, Ring(), 7) && IsRingOfTwo(trace[4], init, init[0], [1]) && Running(trace[4], 2)
    ensures IsRingOfTwo(trace[5], init, init[2], [2, 1])
    ensures trace[5].suspended[2] && trace[5].pending[2] == Some(0)
  {
    assert StepAt(trace, Ring(), 4);
    RingJoins(trace[4], trace[5], init, init[0], init[2]);
  }

  lemma RingJoins(s: State, after: State, init: seq<nat>, p: nat, c: nat)
    requires IsRingOfTwo(s, init, p, [1]) && Running(s, 2) && s.cur[2] == c < p <= NO_PRIORITY && p <= init[0]
    requires c <= init[1]
    requires JoinStep(s, 2, 0, after)
    ensures IsRingOfTwo(after, init, c, [2, 1]) && after.suspended[2] && after.pending[2] == Some(0)
  {
    var s1, s2 := RingWalk(s, init, p, c);
    SlotIs(s.waiters[0], s.cur, c, 0);
    WalkIsUnique(s1, 0, s2, after);
  }

  /** C leaves at its own priority, which is that of A and B now: nothing changes for them. */
  lemma RingStays(init: seq<nat>, trace: seq<State>)
    requires |init| == 3 && PRIORITIES > init[1] > init[0] > init[2]
    requires IsRun(trace, Ring(), 7) && IsRingOfTwo(trace[5], init, init[2], [2, 1])
    requires trace[5].suspended[2] && trace[5].pending[2] == Some(0)
    ensures IsRingOfTwo(trace[7], init, init[2], [1]) && Running(trace[7], 2)
  {
    assert StepAt(trace, Ring(), 5) && StepAt(trace, Ring(), 6);
    var s := trace[6];
    assert Without([2, 1], 2) == [1];
    var r := Refreshed(s, 0);
    assert r == s by { assert s.prio[0 := init[2]] == s.prio; }
    InheritsOfOne(r, 0, 0);
    var s1 := trace[7];
    assert s1 == s1.(pending := s.pending).(pending := s1.pending);
  }

  /** Every equation holds, but no thread asks for the priority of A and B. */
  lemma RingIsExact(s: State, init: seq<nat>, c: nat)
    requires IsRingOfTwo(s, init, c, [1]) && Running(s, 2) && c == init[2] < init[0] < init[1] && c <= NO_PRIORITY
    ensures Exact(s) && NoCeilings(s) && OnRing(s, 0) && !IsChainMinimum(s, 0)
  {
    InheritsOfOne(s, 0, 0);
    InheritsOfOne(s, 1, 1);
    forall t | 0 <= t < |s.init| ensures ExactThread(s, t) { assert t == 0 || t == 1 || t == 2; }
    forall m | 0 <= m < |s.owner| ensures ExactMutex(s, m) { assert m == 0 || m == 1; }
    var ring := [0, 1, 0];
    forall i | 0 <= i < 2 ensures WaitsFor(s, ring[i], ring[i + 1]) { assert i == 0 || i == 1; }
    assert ChainTo(s, ring, 0);
    forall d | ChainTo(s, d, 0) ensures s.cur[0] != s.init[d[0]] {
      assert |d| > 1 ==> WaitsFor(s, d[0], d[1]);
    }
  }

  /** The run happens, without a clean-up that comes too late and without ceilings. */
  method RunRing(init: seq<nat>) returns (system: System)
    requires |init| == 3 && PRIORITIES > init[1] > init[0] > init[2]
    ensures fresh(system) && Valid(system.View()) && Exact(system.View()) && NoCeilings(system.View())
    ensures OnRing(system.View(), 0) && 0 < |system.View().init| && !IsChainMinimum(system.View(), 0)
  {
    system := new System(init, 2);
    ghost var trace := system.Run(Ring());
    RingCloses(init, trace);
    RingIsRaised(init, trace);
    RingStays(init, trace);
    Safe(trace, Ring(), 7);
    RingIsExact(trace[7], init, init[2]);
  }
}
