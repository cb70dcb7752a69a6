/**
  What each call makes of the state of all threads and mutexes (rt-thread/src/ipc.c:952-1543), the
  walk along the owners included, and what a run of calls is.
 */
module MutexCalls {
  import opened Wrappers
  import opened KernelLists
  import opened MutexState
  import opened MutexWalk
  import opened MutexSteps

  /** One step of a run: a call, the expiry of a thread's timer, or a thread blocking elsewhere. */
  datatype Op =
    | OpTake(t: Tid, m: Mid, timeout: int)
    | OpRelease(t: Tid, m: Mid)
    | OpExpire(t: Tid)
    | OpGiveUp(t: Tid)
    | OpDetach(t: Tid)
    | OpCeiling(m: Mid, priority: nat)
    | OpSuspend(t: Tid)
    | OpResume(t: Tid)

  // ---------- the walk along the owners ----------

  /** A walk has come to thread `th`, whose priority was just changed. */
  datatype Stop = Stop(s: State, th: Tid)

  /** The thread is queued on a mutex, so the walk has a queue to repair. */
  ghost predicate Repairs(a: Stop) {
    && WellSized(a.s) && a.th < |a.s.init| && a.s.suspended[a.th] && a.s.pending[a.th].Some?
    && a.s.owner[a.s.pending[a.th].value].Some?
  }

  /** The state after the thread is linked anew and its mutex has the priority of the first waiter. */
  function Repaired(a: Stop): State
    requires Repairs(a)
  {
    var m := a.s.pending[a.th].value;
    WithoutBelow(a.s.waiters[m], a.th, |a.s.init|);
    Requeued(a.s, a.th, m, Slot(Without(a.s.waiters[m], a.th), a.s.cur, a.s.cur[a.th]))
  }

  function OwnerOf(a: Stop): Tid
    requires Repairs(a)
  {
    a.s.owner[a.s.pending[a.th].value].value
  }

  /** The walk ends here: nothing waits for a repair, or the owner has the priority it inherits. */
  ghost predicate IsLast(a: Stop) {
    Repairs(a) ==> Inherited(Repaired(a), OwnerOf(a)) == a.s.cur[OwnerOf(a)]
  }

  ghost function End(a: Stop): State {
    if Repairs(a) then Repaired(a) else a.s
  }

  /** The next stop: the owner with the priority it inherits. */
  ghost function Onward(a: Stop): Stop
    requires !IsLast(a)
  {
    var r, o := Repaired(a), OwnerOf(a);
    Stop(r.(cur := r.cur[o := Inherited(r, o)]), o)
  }

  ghost predicate Goes(a: Stop, b: Stop) {
    !IsLast(a) && b == Onward(a)
  }

  ghost predicate IsWalk(w: seq<Stop>) {
    w != [] && forall i :: 0 <= i < |w| - 1 ==> Goes(w[i], w[i + 1])
  }

  ghost predicate EndsIn(a: Stop, s1: State) {
    IsLast(a) && s1 == End(a)
  }

  /** The walk that starts with the new priority of `th` in `s` ends with `s1`. */
  ghost predicate Walked(s: State, th: Tid, s1: State) {
    exists w :: IsWalk(w) && w[0] == Stop(s, th) && EndsIn(w[|w| - 1], s1)
  }

  lemma GoesOnce(a: Stop, b: Stop, c: Stop)
    requires Goes(a, b) && Goes(a, c)
    ensures b == c
  {
  }

  lemma LastGoesNowhere(a: Stop, s1: State)
    requires EndsIn(a, s1)
    ensures forall b :: !Goes(a, b)
  {
  }

  lemma EndsOnce(a: Stop, s1: State, s2: State)
    requires EndsIn(a, s1) && EndsIn(a, s2)
    ensures s1 == s2
  {
  }

  lemma {:induction false} SameStops(w: seq<Stop>, v: seq<Stop>, i: nat)
    requires IsWalk(w) && IsWalk(v) && w[0] == v[0] && i < |w| && i < |v|
    ensures w[i] == v[i]
  {
    if i > 0 {
      SameStops(w, v, i - 1);
      assert Goes(w[i - 1], w[i - 1 + 1]) && Goes(v[i - 1], v[i - 1 + 1]);
      GoesOnce(w[i - 1], w[i], v[i]);
    }
  }

  lemma GoesBeyond(w: seq<Stop>, v: seq<Stop>, n: nat)
    requires IsWalk(w) && IsWalk(v) && w[0] == v[0] && n < |w| && n < |v| - 1
    ensures Goes(w[n], v[n + 1])
  {
    SameStops(w, v, n);
    assert Goes(v[n], v[n + 1]);
  }

  lemma NotLonger(w: seq<Stop>, v: seq<Stop>, s1: State)
    requires IsWalk(w) && IsWalk(v) && w[0] == v[0] && EndsIn(w[|w| - 1], s1)
    ensures |v| <= |w|
  {
    var a := w[|w| - 1];
    LastGoesNowhere(a, s1);
    if |v| > |w| {
      GoesBeyond(w, v, |w| - 1);
    }
  }

  /** A walk has one end. */
  lemma WalkIsUnique(s: State, th: Tid, s1: State, s2: State)
    requires Walked(s, th, s1) && Walked(s, th, s2)
    ensures s1 == s2
  {
    var w :| IsWalk(w) && w[0] == Stop(s, th) && EndsIn(w[|w| - 1], s1);
    var v :| IsWalk(v) && v[0] == Stop(s, th) && EndsIn(v[|v| - 1], s2);
    NotLonger(w, v, s1);
    NotLonger(v, w, s2);
    SameStops(w, v, |w| - 1);
    EndsOnce(w[|w| - 1], s1, s2);
  }

  /** A walk that has come to stop `a` goes on to stop `b`. */
  lemma WalkGoesOn(w: seq<Stop>, b: Stop)
    requires IsWalk(w) && Goes(w[|w| - 1], b)
    ensures IsWalk(w + [b])
  {
    var v := w + [b];
    forall i | 0 <= i < |v| - 1 ensures Goes(v[i], v[i + 1]) {
      if i < |w| - 1 { assert Goes(w[i], w[i + 1]); }
    }
  }

  /** The owner has another priority than the one it inherits: the walk goes on to it. */
  lemma OwnerIsNext(s: State, th: Tid, m: Mid, k: nat, s2: State)
    requires WellSized(s) && th < |s.init| && s.suspended[th] && s.pending[th] == Some(m) && s.owner[m].Some?
    requires Below(Without(s.waiters[m], th), |s.cur|) && IsSlot(Without(s.waiters[m], th), s.cur, s.cur[th], k)
    requires
      var r, o := Requeued(s, th, m, k), s.owner[m].value;
      Inherited(r, o) != s.cur[o] && s2 == r.(cur := s.cur[o := Inherited(r, o)])
    ensures Goes(Stop(s, th), Stop(s2, s.owner[m].value))
  {
    SlotIs(Without(s.waiters[m], th), s.cur, s.cur[th], k);
  }

  /** The owner has that priority: the walk ends after the repair. */
  lemma OwnerIsRight(s: State, th: Tid, m: Mid, k: nat)
    requires WellSized(s) && th < |s.init| && s.suspended[th] && s.pending[th] == Some(m) && s.owner[m].Some?
    requires Below(Without(s.waiters[m], th), |s.cur|) && IsSlot(Without(s.waiters[m], th), s.cur, s.cur[th], k)
    requires Inherited(Requeued(s, th, m, k), s.owner[m].value) == s.cur[s.owner[m].value]
    ensures EndsIn(Stop(s, th), Requeued(s, th, m, k))
  {
    SlotIs(Without(s.waiters[m], th), s.cur, s.cur[th], k);
  }

  /** A round leads from `th` in `s` to `o` in `s2`, on the way of a walk that began with `t0` in `s0`. */
  ghost predicate LeadsOn(s0: State, t0: Tid, p: nat, s: State, th: Tid, was: nat, s2: State, o: Tid, was2: nat)
    requires WellSized(s0) && t0 < |s0.init| && WellSized(s) && th < |s.init|
  {
    OnTheWay(s0, t0, p, s2, o, was2) && Goes(Stop(s, th), Stop(s2, o)) && Nearer(s, th, was, s2, o, was2)
  }

  /** The measure of the walk is smaller. */
  ghost predicate Nearer(s: State, th: Tid, was: nat, s2: State, o: Tid, was2: nat)
    requires WellSized(s) && th < |s.init| && WellSized(s2) && o < |s2.init|
  {
    || Inexact(s2, o, was2) < Inexact(s, th, was)
    || (&& Inexact(s2, o, was2) == Inexact(s, th, was) && (s.cur[th] < was <==> s2.cur[o] < was2)
        && Room(s2.cur, s.cur[th] < was) < Room(s.cur, s.cur[th] < was))
  }

  /** The walk has arrived after the repair of the queue of `th`. */
  ghost predicate LeadsHome(s0: State, t0: Tid, p: nat, s: State, th: Tid, s2: State)
    requires WellSized(s0) && t0 < |s0.init|
  {
    Arrived(s0, t0, p, s2) && EndsIn(Stop(s, th), s2)
  }

  lemma RequeueSized(s0: State, t0: Tid, p: nat, s: State, th: Tid, was: nat, m: Mid, k: nat)
    requires WellSized(s0) && t0 < |s0.init| && OnTheWay(s0, t0, p, s, th, was) && m < |s.owner| && BlockedOn(s, th, m)
    requires k <= |Without(s.waiters[m], th)|
    ensures WellSized(Requeued(s, th, m, k)) && s.owner[m].Some?
  {
    forall t | 0 <= t < |s.init| ensures s.cur[t] <= s.init[t] { assert OwnerUrgent(s, t); }
    RequeueStructure(s, th, m, k);
  }

  /** The two ways in which a round can end. */
  lemma RoundLeads(s0: State, t0: Tid, p: nat, s: State, th: Tid, was: nat, m: Mid, k: nat, o: Tid, r: State, q: nat)
    requires WellSized(s0) && t0 < |s0.init| && OnTheWay(s0, t0, p, s, th, was) && m < |s.owner| && BlockedOn(s, th, m)
    requires Below(Without(s.waiters[m], th), |s.cur|) && IsSlot(Without(s.waiters[m], th), s.cur, s.cur[th], k)
    requires r == Requeued(s, th, m, k) && WellSized(r) && s.owner[m] == Some(o) && q == Inherited(r, o)
    ensures q == s.cur[o] ==> LeadsHome(s0, t0, p, s, th, r)
    ensures q != s.cur[o] ==> LeadsOn(s0, t0, p, s, th, was, r.(cur := s.cur[o := q]), o, s.cur[o])
  {
    if q == s.cur[o] {
      LastRound(s0, t0, p, s, th, was, m, k);
      OwnerIsRight(s, th, m, k);
    } else {
      NextRound(s0, t0, p, s, th, was, m, k);
      WalkProgress(s, th, was, m, k);
      OwnerIsNext(s, th, m, k, r.(cur := s.cur[o := q]));
    }
  }

  lemma NothingToRepair(s: State, th: Tid)
    requires th < |s.suspended| == |s.pending| && (!s.suspended[th] || s.pending[th].None?)
    ensures EndsIn(Stop(s, th), s)
  {
  }

  /** A walk of one stop. */
  lemma WalkOfOne(a: Stop, s1: State)
    requires EndsIn(a, s1)
    ensures Walked(a.s, a.th, s1)
  {
    var w := [a];
    assert IsWalk(w);
  }

  /** The walk from a thread that is not queued ends where it begins. */
  lemma WalkOfRunning(s: State, th: Tid)
    requires th < |s.suspended| && !s.suspended[th]
    ensures forall s1 :: Walked(s, th, s1) <==> s1 == s
  {
    WalkOfOne(Stop(s, th), s);
    forall s1 | Walked(s, th, s1) ensures s1 == s { WalkIsUnique(s, th, s, s1); }
  }

  /** A walk that began when thread `t0` of `s0` got the priority `p` has come to `th`. */
  ghost predicate Coming(s0: State, t0: Tid, p: nat, w: seq<Stop>, s: State, th: Tid, was: nat) {
    && WellSized(s0) && t0 < |s0.init| && OnTheWay(s0, t0, p, s, th, was)
    && IsWalk(w) && w[0] == Stop(s0.(cur := s0.cur[t0 := p]), t0) && w[|w| - 1] == Stop(s, th)
  }

  /** What is left of such a walk. */
  ghost function Rank(s: State, th: Tid, was: nat): nat {
    if WellSized(s) && th < |s.init| then Inexact(s, th, was) else 0
  }

  ghost function RoomLeft(s: State, urging: bool): nat {
    if Room(s.cur, urging) < 0 then 0 else Room(s.cur, urging)
  }

  lemma ComingBegins(s0: State, t0: Tid, p: nat)
    requires Structure(s0) && t0 < |s0.init| && p != s0.cur[t0] && p <= s0.init[t0]
    requires forall m :: 0 <= m < |s0.owner| ==> QueueInOrder(s0, m)
    requires forall t :: 0 <= t < |s0.init| && t != t0 ==> OwnerUrgent(s0, t)
    requires forall m :: 0 <= m < |s0.owner| && s0.owner[m] == Some(t0) ==> p <= s0.prio[m]
    ensures var s := s0.(cur := s0.cur[t0 := p]); Coming(s0, t0, p, [Stop(s, t0)], s, t0, s0.cur[t0])
  {
    WalkBegins(s0, t0, p);
  }

  lemma ComingOn(s0: State, t0: Tid, p: nat, w: seq<Stop>, s: State, th: Tid, was: nat, s2: State, o: Tid, was2: nat)
    requires Coming(s0, t0, p, w, s, th, was) && LeadsOn(s0, t0, p, s, th, was, s2, o, was2)
    ensures Coming(s0, t0, p, w + [Stop(s2, o)], s2, o, was2)
    ensures
      || Rank(s2, o, was2) < Rank(s, th, was)
      || (&& Rank(s2, o, was2) == Rank(s, th, was) && (s.cur[th] < was <==> s2.cur[o] < was2)
          && RoomLeft(s2, s2.cur[o] < was2) < RoomLeft(s, s.cur[th] < was))
  {
    WalkGoesOn(w, Stop(s2, o));
    RoomIsBounded(s, s.cur[th] < was);
    RoomIsBounded(s2, s.cur[th] < was);
  }

  lemma ComingHome(s0: State, t0: Tid, p: nat, w: seq<Stop>, s: State, th: Tid, was: nat, s2: State)
    requires Coming(s0, t0, p, w, s, th, was) && LeadsHome(s0, t0, p, s, th, s2)
    ensures Arrived(s0, t0, p, s2) && Walked(s0.(cur := s0.cur[t0 := p]), t0, s2)
  {
  }

  lemma ComingToRest(s0: State, t0: Tid, p: nat, w: seq<Stop>, s: State, th: Tid, was: nat)
    requires Coming(s0, t0, p, w, s, th, was) && (!s.suspended[th] || s.pending[th].None?)
    ensures Arrived(s0, t0, p, s) && Walked(s0.(cur := s0.cur[t0 := p]), t0, s)
  {
    WalkFinishes(s0, t0, p, s, th, was);
    NothingToRepair(s, th);
  }

  /** What follows the first stop of a walk. */
  lemma WalkFrom(a: Stop, b: Stop)
    requires Goes(a, b)
    ensures forall s1 :: Walked(b.s, b.th, s1) ==> Walked(a.s, a.th, s1)
  {
    forall s1 | Walked(b.s, b.th, s1) ensures Walked(a.s, a.th, s1) {
      var w :| IsWalk(w) && w[0] == Stop(b.s, b.th) && EndsIn(w[|w| - 1], s1);
      var v := [a] + w;
      forall i | 0 <= i < |v| - 1 ensures Goes(v[i], v[i + 1]) {
        if i > 0 { assert Goes(w[i - 1], w[i - 1 + 1]); }
      }
      assert IsWalk(v) && v[|v| - 1] == w[|w| - 1];
    }
  }

  // ---------- the calls ----------

  /** `t` is queued on `m`; a priority more urgent than that of the owner is carried along. */
  ghost predicate JoinStep(s: State, t: Tid, m: Mid, s1: State)
    requires WellSized(s) && t < |s.init| && m < |s.owner| && s.owner[m].Some?
  {
    var q, o, p := Queued(s, t, m, Slot(s.waiters[m], s.cur, s.cur[t])), s.owner[m].value, s.cur[t];
    if p < s.prio[m] && p < s.cur[o] then Walked(q.(cur := q.cur[o := p]), o, s1) else s1 == q
  }

  /** What a take makes of `s`, up to the point where the caller has its answer or is blocked. */
  ghost predicate TakeStep(s: State, t: Tid, m: Mid, timeout: int, s1: State)
    requires WellSized(s) && t < |s.init| && m < |s.owner|
  {
    if s.owner[m] == Some(t) then
      s1 == if s.hold[m] < HOLD_MAX then s.(hold := s.hold[m := s.hold[m] + 1]) else s
    else if s.owner[m] == None then
      s1 == Acquired(s, t, m).(cur := s.cur[t := Min(s.cur[t], s.ceiling[m])])
    else if timeout == 0 then s1 == s
    else JoinStep(s, t, m, s1)
  }

  ghost predicate ReleaseStep(s: State, t: Tid, m: Mid, s1: State)
    requires WellSized(s) && t < |s.init| && m < |s.owner|
  {
    if s.owner[m] != Some(t) then s1 == s
    else if s.hold[m] != 1 then s.hold[m] > 1 && s1 == s.(hold := s.hold[m := s.hold[m] - 1])
    else Ownership(s) && s1 == Released(s, t, m)
  }

  /** Priorities and queue orders may have changed, and nothing else. */
  ghost predicate Reordered(s: State, s1: State) {
    && s1 == s.(cur := s1.cur, prio := s1.prio, waiters := s1.waiters) && |s1.waiters| == |s.waiters|
    && forall x :: 0 <= x < |s.waiters| ==> multiset(s1.waiters[x]) == multiset(s.waiters[x])
  }

  /** Thread `o` gets the priority it inherits, which is carried along if it is a new one. */
  ghost predicate CorrectStep(s: State, o: Tid, s1: State)
    requires WellSized(s) && o < |s.init|
  {
    var p := Inherited(s, o);
    if p == s.cur[o] then s1 == s else Walked(s.(cur := s.cur[o := p]), o, s1)
  }

  /** The guard of the clean-up: the owner of `m` runs at the priority of thread `t`. */
  predicate RunsAsUrgent(s: State, m: Mid, t: Tid)
    requires WellSized(s) && m < |s.owner| && t < |s.init|
  {
    s.owner[m].Some? && s.cur[s.owner[m].value] == s.cur[t]
  }

  /** The clean-up after `t` left the queue of `m`. */
  ghost predicate SettleStep(s: State, m: Mid, t: Tid, s1: State)
    requires WellSized(s) && m < |s.owner| && t < |s.init|
  {
    var r := Refreshed(s, m);
    if RunsAsUrgent(s, m, t) then CorrectStep(r, s.owner[m].value, s1) else s1 == r
  }

  /** The rest of a failed take, for a thread that is on no queue any more. */
  ghost predicate GiveUpStep(s: State, t: Tid, s1: State)
    requires WellSized(s) && t < |s.init| && s.pending[t].Some?
  {
    s1.pending == s.pending[t := None] && SettleStep(s, s.pending[t].value, t, s1.(pending := s.pending))
  }

  ghost predicate DetachStep(s: State, t: Tid, s1: State)
    requires WellSized(s) && t < |s.init|
  {
    if s.pending[t].None? then s1 == s.(suspended := s.suspended[t := false])
    else
      var l := Left(s, t, s.pending[t].value);
      WellSized(l) && GiveUpStep(l, t, s1)
  }

  ghost predicate CeilingStep(s: State, m: Mid, priority: nat, s1: State)
    requires WellSized(s) && m < |s.owner|
  {
    var c := s.(ceiling := s.ceiling[m := priority]);
    if s.owner[m].None? then s1 == c else CorrectStep(c, s.owner[m].value, s1)
  }

  /** What `op` makes of `s`: nothing, where it is not possible. */
  ghost predicate Step(s: State, op: Op, s1: State) {
    WellSized(s) &&
    match op
    case OpTake(t, m, timeout) => if m < |s.owner| && Running(s, t) then TakeStep(s, t, m, timeout, s1) else s1 == s
    case OpRelease(t, m) => if m < |s.owner| && Running(s, t) then ReleaseStep(s, t, m, s1) else s1 == s
    case OpExpire(t) =>
      if t < |s.init| && s.suspended[t] && s.pending[t].Some? then s1 == Left(s, t, s.pending[t].value) else s1 == s
    case OpGiveUp(t) =>
      if t < |s.init| && !s.suspended[t] && s.pending[t].Some? then GiveUpStep(s, t, s1) else s1 == s
    case OpDetach(t) => if t < |s.init| then DetachStep(s, t, s1) else s1 == s
    case OpCeiling(m, priority) =>
      if m < |s.owner| && priority < PRIORITIES then CeilingStep(s, m, priority, s1) else s1 == s
    case OpSuspend(t) => s1 == if Running(s, t) then s.(suspended := s.suspended[t := true]) else s
    case OpResume(t) =>
      s1 == if t < |s.init| && s.suspended[t] && s.pending[t].None? then s.(suspended := s.suspended[t := false]) else s
  }

  lemma CorrectIsUnique(s: State, o: Tid, s1: State, s2: State)
    requires WellSized(s) && o < |s.init| && CorrectStep(s, o, s1) && CorrectStep(s, o, s2)
    ensures s1 == s2
  {
    if Inherited(s, o) != s.cur[o] { WalkIsUnique(s.(cur := s.cur[o := Inherited(s, o)]), o, s1, s2); }
  }

  lemma GiveUpIsUnique(s: State, t: Tid, s1: State, s2: State)
    requires WellSized(s) && t < |s.init| && s.pending[t].Some? && GiveUpStep(s, t, s1) && GiveUpStep(s, t, s2)
    ensures s1 == s2
  {
    var m := s.pending[t].value;
    if RunsAsUrgent(s, m, t) {
      CorrectIsUnique(Refreshed(s, m), s.owner[m].value, s1.(pending := s.pending), s2.(pending := s.pending));
    }
    assert s1 == s1.(pending := s.pending).(pending := s1.pending);
  }

  /** Each call has one effect, down to every priority and every place in a queue. */
  lemma StepIsUnique(s: State, op: Op, s1: State, s2: State)
    requires Step(s, op, s1) && Step(s, op, s2)
    ensures s1 == s2
  {
    match op
    case OpTake(t, m, timeout) =>
      if m < |s.owner| && Running(s, t) && s.owner[m].Some? && s.owner[m] != Some(t) && timeout != 0 {
        JoinIsUnique(s, t, m, s1, s2);
      }
    case OpGiveUp(t) =>
      if t < |s.init| && !s.suspended[t] && s.pending[t].Some? { GiveUpIsUnique(s, t, s1, s2); }
    case OpDetach(t) =>
      if t < |s.init| && s.pending[t].Some? { GiveUpIsUnique(Left(s, t, s.pending[t].value), t, s1, s2); }
    case OpCeiling(m, priority) =>
      if m < |s.owner| && priority < PRIORITIES && s.owner[m].Some? {
        CorrectIsUnique(s.(ceiling := s.ceiling[m := priority]), s.owner[m].value, s1, s2);
      }
    case _ =>
  }

  lemma JoinIsUnique(s: State, t: Tid, m: Mid, s1: State, s2: State)
    requires WellSized(s) && t < |s.init| && m < |s.owner| && s.owner[m].Some?
    requires JoinStep(s, t, m, s1) && JoinStep(s, t, m, s2)
    ensures s1 == s2
  {
    var q, o, p := Queued(s, t, m, Slot(s.waiters[m], s.cur, s.cur[t])), s.owner[m].value, s.cur[t];
    if p < s.prio[m] && p < s.cur[o] { WalkIsUnique(q.(cur := q.cur[o := p]), o, s1, s2); }
  }

  // ---------- runs ----------

  /** Threads of the priorities `init` before they do anything, and `mutexes` free mutexes. */
  function Idle(init: seq<nat>, mutexes: nat): State {
    State(init, init, seq(|init|, _ => false), seq(|init|, _ => None), seq(|init|, _ => []),
          seq(mutexes, _ => None), seq(mutexes, _ => NO_PRIORITY), seq(mutexes, _ => NO_PRIORITY),
          seq(mutexes, _ => 0), seq(mutexes, _ => []))
  }

  /** `trace` leads from state to state by the first `n` of `ops`. */
  ghost predicate IsRun(trace: seq<State>, ops: seq<Op>, n: nat) {
    n <= |ops| && |trace| == n + 1 && forall i :: 0 <= i < n ==> StepAt(trace, ops, i)
  }

  ghost predicate StepAt(trace: seq<State>, ops: seq<Op>, i: nat)
    requires i < |ops| && i + 1 < |trace|
  {
    Step(trace[i], ops[i], trace[i + 1])
  }

  /** No priority is inverted in any state of `trace`; and as long as there was no timeout and no
      ceiling, every priority is exactly the inherited one. */
  ghost predicate IsSafe(trace: seq<State>, ops: seq<Op>) {
    |trace| <= |ops| + 1 && forall i :: 0 <= i < |trace| ==> SafeAfter(trace[i], ops, i)
  }

  ghost predicate SafeAfter(s: State, ops: seq<Op>, n: nat)
    requires n <= |ops|
  {
    Valid(s) && NoInversion(s) && (WithoutTimeout(ops, n) ==> Exact(s))
  }

  /** There is no timeout among the first `n` steps, and no ceiling is set. */
  predicate WithoutTimeout(ops: seq<Op>, n: nat)
    requires n <= |ops|
  {
    forall i :: 0 <= i < n ==> !ops[i].OpExpire? && !ops[i].OpCeiling?
  }

  lemma OneMore(trace: seq<State>, ops: seq<Op>, n: nat, s: State)
    requires IsRun(trace, ops, n) && IsSafe(trace, ops) && n < |ops|
    requires Step(trace[n], ops[n], s) && SafeAfter(s, ops, n + 1)
    ensures IsRun(trace + [s], ops, n + 1) && IsSafe(trace + [s], ops)
  {
    forall i | 0 <= i <= n ensures StepAt(trace + [s], ops, i) {
      assert i < n ==> StepAt(trace, ops, i);
    }
  }
}
