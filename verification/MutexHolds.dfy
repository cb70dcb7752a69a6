/**
  The hold count of a mutex over a run (rt-thread/src/ipc.c:1203-1236, 1452-1533): takes granted to
  its owner minus releases by it, since it became the owner.
 */
module MutexHolds {
  import opened Wrappers
  import opened KernelLists
  import opened MutexState
  import opened MutexWalk
  import opened MutexSteps
  import opened MutexCalls

  /** The call takes `m` once more for its owner `t`. */
  predicate TakesAgain(s: State, op: Op, t: Tid, m: Mid)
    requires |s.suspended| == |s.pending| && m < |s.hold|
  {
    op.OpTake? && op.t == t && op.m == m && Running(s, t) && s.hold[m] < HOLD_MAX
  }

  predicate Releases(s: State, op: Op, t: Tid, m: Mid)
    requires |s.suspended| == |s.pending|
  {
    op.OpRelease? && op.t == t && op.m == m && Running(s, t)
  }

  /** Who owns each mutex, and how often, is the same. */
  predicate SameHolds(s: State, s1: State) {
    s1.owner == s.owner && s1.hold == s.hold
  }

  lemma StopKeepsHolds(a: Stop, b: Stop)
    requires Goes(a, b)
    ensures SameHolds(a.s, b.s)
  {
  }

  lemma {:induction false} StopsKeepHolds(w: seq<Stop>, i: nat)
    requires IsWalk(w) && i < |w|
    ensures SameHolds(w[0].s, w[i].s)
  {
    if i > 0 {
      StopsKeepHolds(w, i - 1);
      assert Goes(w[i - 1], w[i - 1 + 1]);
      StopKeepsHolds(w[i - 1], w[i]);
    }
  }

  lemma EndKeepsHolds(a: Stop, s1: State)
    requires EndsIn(a, s1)
    ensures SameHolds(a.s, s1)
  {
  }

  lemma WalkKeepsHolds(s: State, th: Tid, s1: State)
    requires Walked(s, th, s1)
    ensures SameHolds(s, s1)
  {
    var w :| IsWalk(w) && w[0] == Stop(s, th) && EndsIn(w[|w| - 1], s1);
    StopsKeepHolds(w, |w| - 1);
    EndKeepsHolds(w[|w| - 1], s1);
  }

  lemma CorrectKeepsHolds(s: State, o: Tid, s1: State)
    requires WellSized(s) && o < |s.init| && CorrectStep(s, o, s1)
    ensures SameHolds(s, s1)
  {
    var p := Inherited(s, o);
    if p != s.cur[o] { WalkKeepsHolds(s.(cur := s.cur[o := p]), o, s1); }
  }

  lemma JoinKeepsHolds(s: State, t: Tid, m: Mid, s1: State)
    requires WellSized(s) && t < |s.init| && m < |s.owner| && s.owner[m].Some? && JoinStep(s, t, m, s1)
    ensures SameHolds(s, s1)
  {
    var q, o, p := Queued(s, t, m, Slot(s.waiters[m], s.cur, s.cur[t])), s.owner[m].value, s.cur[t];
    if p < s.prio[m] && p < s.cur[o] { WalkKeepsHolds(q.(cur := q.cur[o := p]), o, s1); }
  }

  lemma GiveUpKeepsHolds(s: State, t: Tid, s1: State)
    requires WellSized(s) && t < |s.init| && s.pending[t].Some? && GiveUpStep(s, t, s1)
    ensures SameHolds(s, s1)
  {
    var m := s.pending[t].value;
    if RunsAsUrgent(s, m, t) { CorrectKeepsHolds(Refreshed(s, m), s.owner[m].value, s1.(pending := s.pending)); }
  }

  /** What the calls other than takes and releases do to owners and counts: nothing. */
  lemma OthersKeepHolds(s: State, op: Op, s1: State)
    requires Step(s, op, s1) && !op.OpTake? && !op.OpRelease?
    ensures SameHolds(s, s1)
  {
    match op
    case OpGiveUp(t) =>
      if t < |s.init| && !s.suspended[t] && s.pending[t].Some? { GiveUpKeepsHolds(s, t, s1); }
    case OpDetach(t) =>
      if t < |s.init| && s.pending[t].Some? { GiveUpKeepsHolds(Left(s, t, s.pending[t].value), t, s1); }
    case OpCeiling(m, priority) =>
      if m < |s.owner| && priority < PRIORITIES && s.owner[m].Some? {
        CorrectKeepsHolds(s.(ceiling := s.ceiling[m := priority]), s.owner[m].value, s1);
      }
    case _ =>
  }

  /** The change of one count by one call: its owner takes it again, or gives it back, or it is acquired. */
  ghost predicate Counts(s: State, op: Op, s1: State, m: Mid)
    requires |s.suspended| == |s.pending| && m < |s.hold| == |s.owner|
  {
    && |s1.hold| == |s.hold| == |s1.owner|
    && (s1.owner[m].Some? && s1.owner[m] != s.owner[m] ==> s1.hold[m] == 1)
    && (s1.owner[m].Some? && s1.owner[m] == s.owner[m] ==>
          s1.hold[m] + (if Releases(s, op, s.owner[m].value, m) then 1 else 0)
            == s.hold[m] + (if TakesAgain(s, op, s.owner[m].value, m) then 1 else 0))
  }

  lemma TakeCounts(s: State, op: Op, s1: State, m: Mid)
    requires Step(s, op, s1) && op.OpTake? && m < |s.owner|
    ensures Counts(s, op, s1, m)
  {
    if op.m < |s.owner| && Running(s, op.t) && s.owner[op.m].Some? && s.owner[op.m] != Some(op.t) && op.timeout != 0 {
      JoinKeepsHolds(s, op.t, op.m, s1);
    }
  }

  lemma ReleaseCounts(s: State, op: Op, s1: State, m: Mid)
    requires Step(s, op, s1) && op.OpRelease? && m < |s.owner| && Ownership(s)
    ensures Counts(s, op, s1, m)
  {
    if && op.m < |s.owner| && Running(s, op.t) && s.owner[op.m] == Some(op.t) && s.hold[op.m] == 1
       && s.waiters[op.m] != []
    {
      assert s.waiters[op.m][0] in s.waiters[op.m];
    }
  }

  lemma StepCounts(s: State, op: Op, s1: State, m: Mid)
    requires Step(s, op, s1) && m < |s.owner| && Ownership(s)
    ensures Counts(s, op, s1, m)
  {
    if op.OpTake? {
      TakeCounts(s, op, s1, m);
    } else if op.OpRelease? {
      ReleaseCounts(s, op, s1, m);
    } else {
      OthersKeepHolds(s, op, s1);
    }
  }

  /** States of which `Counts` can be asked. */
  ghost predicate Countable(trace: seq<State>, ops: seq<Op>, m: Mid) {
    |trace| <= |ops| + 1 && forall i {:trigger trace[i].owner} :: 0 <= i < |trace| ==>
      |trace[i].suspended| == |trace[i].pending| && m < |trace[i].hold| == |trace[i].owner|
  }

  /** The first state of the stretch up to `n` in which `m` has the owner that it has in state `n`. */
  ghost function Since(trace: seq<State>, ops: seq<Op>, m: Mid, n: nat): (a: nat)
    requires Countable(trace, ops, m) && n < |trace|
    ensures a <= n
  {
    if n == 0 || trace[n - 1].owner[m] != trace[n].owner[m] then n else Since(trace, ops, m, n - 1)
  }

  /** How often, from state `a` to state `n`, thread `t` takes `m` again. */
  ghost function Takes(trace: seq<State>, ops: seq<Op>, t: Tid, m: Mid, a: nat, n: nat): nat
    requires Countable(trace, ops, m) && a <= n < |trace|
  {
    if n == a then 0
    else Takes(trace, ops, t, m, a, n - 1) + if TakesAgain(trace[n - 1], ops[n - 1], t, m) then 1 else 0
  }

  ghost function Returns(trace: seq<State>, ops: seq<Op>, t: Tid, m: Mid, a: nat, n: nat): nat
    requires Countable(trace, ops, m) && a <= n < |trace|
  {
    if n == a then 0
    else Returns(trace, ops, t, m, a, n - 1) + if Releases(trace[n - 1], ops[n - 1], t, m) then 1 else 0
  }

  lemma StepAtCounts(trace: seq<State>, ops: seq<Op>, m: Mid, i: nat)
    requires IsRun(trace, ops, |ops|) && IsSafe(trace, ops) && i < |ops| && m < |trace[i].owner|
    ensures |trace[i].suspended| == |trace[i].pending| && m < |trace[i].hold| == |trace[i].owner|
    ensures Counts(trace[i], ops[i], trace[i + 1], m)
  {
    assert StepAt(trace, ops, i) && SafeAfter(trace[i], ops, i);
    StepCounts(trace[i], ops[i], trace[i + 1], m);
  }

  lemma {:induction false} SameMutexes(trace: seq<State>, ops: seq<Op>, m: Mid, i: nat)
    requires IsRun(trace, ops, |ops|) && IsSafe(trace, ops) && i <= |ops| && m < |trace[0].owner|
    ensures |trace[i].suspended| == |trace[i].pending| && m < |trace[i].hold| == |trace[i].owner|
  {
    assert SafeAfter(trace[i], ops, i);
    if i > 0 {
      SameMutexes(trace, ops, m, i - 1);
      StepAtCounts(trace, ops, m, i - 1);
    }
  }

  lemma RunIsCountable(trace: seq<State>, ops: seq<Op>, m: Mid)
    requires IsRun(trace, ops, |ops|) && IsSafe(trace, ops) && m < |trace[0].owner|
    ensures Countable(trace, ops, m)
  {
    forall i | 0 <= i < |trace|
      ensures |trace[i].suspended| == |trace[i].pending| && m < |trace[i].hold| == |trace[i].owner|
    {
      SameMutexes(trace, ops, m, i);
    }
  }

  /** The hold count in state `n` is 0 without an owner, and else one more than the takes since the mutex
      was acquired, minus the releases. */
  ghost predicate IsCount(trace: seq<State>, ops: seq<Op>, m: Mid, n: nat)
    requires Countable(trace, ops, m) && n < |trace|
  {
    match trace[n].owner[m]
    case None => trace[n].hold[m] == 0
    case Some(t) =>
      var a := Since(trace, ops, m, n);
      0 < a && trace[n].hold[m] + Returns(trace, ops, t, m, a, n) == 1 + Takes(trace, ops, t, m, a, n)
  }

  /** One more step of a run. */
  lemma NextCount(trace: seq<State>, ops: seq<Op>, m: Mid, n: nat)
    requires Countable(trace, ops, m) && 0 < n < |trace| && IsCount(trace, ops, m, n - 1)
    requires Counts(trace[n - 1], ops[n - 1], trace[n], m)
    requires trace[n].owner[m].None? ==> trace[n].hold[m] == 0
    ensures IsCount(trace, ops, m, n)
  {
  }

  /** In every run that begins with all mutexes free, the hold count of each mutex is takes minus
      releases since it was acquired, and never exceeds its maximum. */
  lemma {:induction false} HoldIsTakesMinusReleases(trace: seq<State>, ops: seq<Op>, m: Mid, n: nat)
    requires IsRun(trace, ops, |ops|) && IsSafe(trace, ops) && n <= |ops|
    requires m < |trace[0].owner| && trace[0].owner[m].None?
    ensures Countable(trace, ops, m) && IsCount(trace, ops, m, n) && trace[n].hold[m] <= HOLD_MAX
  {
    RunIsCountable(trace, ops, m);
    assert SafeAfter(trace[n], ops, n);
    if n > 0 {
      HoldIsTakesMinusReleases(trace, ops, m, n - 1);
      StepAtCounts(trace, ops, m, n - 1);
      NextCount(trace, ops, m, n);
    }
  }
}
