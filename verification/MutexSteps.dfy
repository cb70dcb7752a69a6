/**
  The effect on the state of each mutex operation up to the point where a chain walk may start
  (rt-thread/src/ipc.c:952-997, 1203-1361, 1463-1533, rt-thread/src/thread.c:131-153), and what
  each of them keeps.
 */
module MutexSteps {
  import opened Wrappers
  import opened KernelLists
  import opened MutexState
  import opened MutexWalk

  /** A thread that is executing and is not in the middle of another take. */
  predicate Running(s: State, t: Tid)
    requires |s.suspended| == |s.pending|
  {
    t < |s.suspended| && !s.suspended[t] && s.pending[t].None?
  }

  // ---------- taking a free mutex ----------

  function Acquired(s: State, t: Tid, m: Mid): State
    requires WellSized(s) && t < |s.init| && m < |s.owner|
  {
    s.(owner := s.owner[m := Some(t)], prio := s.prio[m := NO_PRIORITY], hold := s.hold[m := 1],
       taken := s.taken[t := [m] + s.taken[t]])
  }

  lemma AcquiredStructure(s: State, t: Tid, m: Mid)
    requires Structure(s) && t < |s.init| && m < |s.owner| && s.owner[m].None?
    ensures Structure(Acquired(s, t, m))
  {
    var s1 := Acquired(s, t, m);
    assert m !in s.taken[t];
    assert s.waiters[m] == [];
    assert s1.taken[t][0] == m;
    assert forall i :: 0 < i < |s1.taken[t]| ==> s1.taken[t][i] == s.taken[t][i - 1];
    assert forall x :: x in s1.taken[t] <==> x == m || x in s.taken[t];
    assert WellSized(s1);
    assert Ownership(s1);
  }

  /** Taking a free mutex keeps the invariant; its new owner is exact unless the mutex has a more urgent ceiling. */
  lemma AcquiredKeeps(s: State, t: Tid, m: Mid)
    requires Valid(s) && t < |s.init| && m < |s.owner| && s.owner[m].None?
    ensures Valid(Acquired(s, t, m))
    ensures forall x :: 0 <= x < |s.owner| && ExactMutex(s, x) ==> ExactMutex(Acquired(s, t, m), x)
    ensures forall x :: 0 <= x < |s.init| && x != t && ExactThread(s, x) ==> ExactThread(Acquired(s, t, m), x)
    ensures ExactThread(s, t) ==> Inherited(Acquired(s, t, m), t) == Min(s.cur[t], s.ceiling[m])
  {
    var s1 := Acquired(s, t, m);
    AcquiredStructure(s, t, m);
    assert s.waiters[m] == [];
    forall x | 0 <= x < |s.owner| ensures QueueInOrder(s1, x) { assert QueueInOrder(s, x); }
    forall x | 0 <= x < |s.init| ensures OwnerUrgent(s1, x) { assert OwnerUrgent(s, x); }
    forall x | 0 <= x < |s.init| && x != t && ExactThread(s, x) ensures ExactThread(s1, x) {
      assert m !in s.taken[x];
      MinLentFrame(s.init[x], s.taken[x], s1.taken[x], s.prio, s.ceiling, s1.prio);
    }
    if ExactThread(s, t) { AcquiredOwner(s, t, m); }
  }

  lemma AcquiredOwner(s: State, t: Tid, m: Mid)
    requires Valid(s) && t < |s.init| && m < |s.owner| && s.owner[m].None? && ExactThread(s, t)
    ensures WellSized(Acquired(s, t, m)) && Inherited(Acquired(s, t, m), t) == Min(s.cur[t], s.ceiling[m])
  {
    var s1 := Acquired(s, t, m);
    AcquiredStructure(s, t, m);
    assert OwnerUrgent(s, t);
    assert m !in s.taken[t];
    assert s1.taken[t][0] == m;
    assert forall x :: x in s1.taken[t] <==> x == m || x in s.taken[t];
    assert forall x :: x in s.taken[t] ==> Lent(x, s1.prio, s1.ceiling) == Lent(x, s.prio, s.ceiling);
    assert Lent(m, s1.prio, s1.ceiling) == s.ceiling[m];
    MinLentUnique(s1.init[t], s1.taken[t], s1.prio, s1.ceiling, Min(s.cur[t], s.ceiling[m]));
  }

  /** The priority of a thread that is on no queue matters only to itself. */
  lemma RaisedExact(s: State, t: Tid, p: nat)
    requires WellSized(s) && Ownership(s) && t < |s.init| && !s.suspended[t]
    ensures var s1 := s.(cur := s.cur[t := p]);
      && WellSized(s1) && (ExactThread(s1, t) <==> p == Inherited(s, t))
      && (forall x :: 0 <= x < |s.init| && x != t && ExactThread(s, x) ==> ExactThread(s1, x))
      && (forall x :: 0 <= x < |s.owner| && ExactMutex(s, x) ==> ExactMutex(s1, x))
  {
    forall x | 0 <= x < |s.owner| ensures t !in s.waiters[x] { assert !BlockedOn(s, t, x); }
  }

  /** A thread that takes a mutex, and its ceiling, has the priority it inherits if it had before. */
  lemma AcquiredExact(s: State, t: Tid, m: Mid)
    requires Valid(s) && t < |s.init| && m < |s.owner| && s.owner[m].None? && !s.suspended[t]
    ensures
      var s1 := Acquired(s, t, m).(cur := s.cur[t := Min(s.cur[t], s.ceiling[m])]);
      WellSized(s1) && StaysExact(s, s1)
  {
    AcquiredKeeps(s, t, m);
    RaisedExact(Acquired(s, t, m), t, Min(s.cur[t], s.ceiling[m]));
  }

  // ---------- queueing for a taken mutex ----------

  function Queued(s: State, t: Tid, m: Mid, k: nat): State
    requires WellSized(s) && t < |s.init| && m < |s.owner| && k <= |s.waiters[m]|
  {
    s.(waiters := s.waiters[m := LinkAt(s.waiters[m], t, k)], suspended := s.suspended[t := true],
       pending := s.pending[t := Some(m)], prio := s.prio[m := Min(s.prio[m], s.cur[t])])
  }

  lemma QueuedStructure(s: State, t: Tid, m: Mid, k: nat)
    requires Structure(s) && m < |s.owner| && Running(s, t) && k <= |s.waiters[m]|
    requires s.owner[m].Some? && s.owner[m].value != t
    ensures Structure(Queued(s, t, m, k))
  {
    var s1 := Queued(s, t, m, k);
    forall x | 0 <= x < |s.owner| ensures t !in s.waiters[x] { assert !BlockedOn(s, t, x); }
    LinkAtMembers(s.waiters[m], t, k);
    assert forall i :: 0 <= i < |s1.waiters[m]| ==> s1.waiters[m][i] in s1.waiters[m];
    assert WellSized(s1);
    assert forall x, y :: 0 <= x < |s.init| && 0 <= y < |s.owner| && x != t ==>
        (BlockedOn(s1, x, y) <==> BlockedOn(s, x, y));
    assert forall y :: 0 <= y < |s.owner| ==> (BlockedOn(s1, t, y) <==> y == m);
    assert Ownership(s1);
  }

  /** A queued thread leaves all queues in order; only the owner may now be too little urgent. */
  lemma QueuedKeeps(s: State, t: Tid, m: Mid, k: nat)
    requires Valid(s) && m < |s.owner| && Running(s, t) && IsSlot(s.waiters[m], s.cur, s.cur[t], k)
    requires s.owner[m].Some? && s.owner[m].value != t
    ensures var s1 := Queued(s, t, m, k);
      && Structure(s1)
      && (forall x :: 0 <= x < |s.owner| ==> QueueInOrder(s1, x))
      && (forall x :: 0 <= x < |s.init| && s.owner[m] != Some(x) ==> OwnerUrgent(s1, x))
      && (forall x :: 0 <= x < |s.owner| && ExactMutex(s, x) ==> ExactMutex(s1, x))
      && (forall x :: 0 <= x < |s.init| && s.owner[m] != Some(x) && ExactThread(s, x) ==> ExactThread(s1, x))
  {
    var s1 := Queued(s, t, m, k);
    QueuedStructure(s, t, m, k);
    forall x | 0 <= x < |s.owner|
      ensures QueueInOrder(s1, x)
      ensures ExactMutex(s, x) ==> ExactMutex(s1, x)
    {
      assert QueueInOrder(s, x);
      assert OwnerUrgent(s, t);
      if x == m { LinkKeepsSorted(s.waiters[m], s.cur, t, k); }
    }
    forall x | 0 <= x < |s.init| && s.owner[m] != Some(x)
      ensures OwnerUrgent(s1, x)
      ensures ExactThread(s, x) ==> ExactThread(s1, x)
    {
      assert OwnerUrgent(s, x);
      assert m !in s.taken[x];
      MinLentFrame(s.init[x], s.taken[x], s1.taken[x], s.prio, s.ceiling, s1.prio);
    }
  }

  /** What the owner of the mutex should have after a thread queued: the more urgent of both. */
  lemma QueuedOwner(s: State, t: Tid, m: Mid, k: nat)
    requires Valid(s) && m < |s.owner| && Running(s, t) && IsSlot(s.waiters[m], s.cur, s.cur[t], k)
    requires s.owner[m].Some? && s.owner[m].value != t
    ensures var s1 := Queued(s, t, m, k); var o := s.owner[m].value;
      && WellSized(s1)
      && (ExactThread(s, o) ==> Inherited(s1, o) == Min(s.cur[o], s1.prio[m]))
  {
    var s1 := Queued(s, t, m, k);
    var o := s.owner[m].value;
    QueuedStructure(s, t, m, k);
    assert m in s.taken[o] && OwnerUrgent(s, o);
    if ExactThread(s, o) {
      assert forall x :: x in s.taken[o] && x != m ==> Lent(x, s1.prio, s1.ceiling) == Lent(x, s.prio, s.ceiling);
      assert s.cur[o] <= Lent(m, s.prio, s.ceiling);
      MinLentUnique(s1.init[o], s1.taken[o], s1.prio, s1.ceiling, Min(s.cur[o], s1.prio[m]));
    }
  }

  lemma HoldKeeps(s: State, m: Mid, h: nat)
    requires Valid(s) && m < |s.owner| && s.owner[m].Some? && 0 < h <= HOLD_MAX
    ensures var s1 := s.(hold := s.hold[m := h]); Valid(s1) && StaysExact(s, s1) && (Exact(s) ==> Exact(s1))
  {
    var s1 := s.(hold := s.hold[m := h]);
    assert forall x, y :: 0 <= x < |s.init| && 0 <= y < |s.owner| ==> (BlockedOn(s1, x, y) <==> BlockedOn(s, x, y));
    assert Structure(s1);
    forall x | 0 <= x < |s.init| ensures OwnerUrgent(s1, x) { assert OwnerUrgent(s, x); }
    forall x | 0 <= x < |s.owner| ensures QueueInOrder(s1, x) { assert QueueInOrder(s, x); }
    assert StaysExact(s, s1);
  }

  /** `s1` differs from `s` in that `t` waits for `m` and priorities and queue orders have followed. */
  ghost predicate JoinedQueue(s: State, t: Tid, m: Mid, s1: State)
    requires t < |s.suspended| == |s.pending|
  {
    && s1 == s.(cur := s1.cur, prio := s1.prio, waiters := s1.waiters,
                suspended := s.suspended[t := true], pending := s.pending[t := Some(m)])
    && |s1.waiters| == |s.waiters|
    && (forall x :: 0 <= x < |s.waiters| ==>
          multiset(s1.waiters[x]) == multiset(s.waiters[x]) + (if x == m then multiset{t} else multiset{}))
  }

  lemma QueuedAtOnce(s: State, t: Tid, m: Mid, k: nat)
    requires Valid(s) && m < |s.owner| && Running(s, t) && IsSlot(s.waiters[m], s.cur, s.cur[t], k)
    requires s.owner[m].Some? && s.owner[m].value != t
    ensures JoinedQueue(s, t, m, Queued(s, t, m, k))
  {
    LinkMultiset(s.waiters[m], t, k);
  }

  /** The owner is at least as urgent as the mutex: nothing has to be carried further. */
  lemma QueuedBelow(s: State, t: Tid, m: Mid, k: nat)
    requires Valid(s) && m < |s.owner| && Running(s, t) && IsSlot(s.waiters[m], s.cur, s.cur[t], k)
    requires s.owner[m].Some? && s.owner[m].value != t
    requires s.cur[t] < s.prio[m] ==> s.cur[s.owner[m].value] <= s.cur[t]
    ensures var s1 := Queued(s, t, m, k); Valid(s1) && (Exact(s) ==> Exact(s1))
  {
    var s1 := Queued(s, t, m, k);
    QueuedKeeps(s, t, m, k);
    QueuedOwner(s, t, m, k);
    assert OwnerUrgent(s, s.owner[m].value);
    assert OwnerUrgent(s1, s.owner[m].value);
    if Exact(s) {
      forall x | 0 <= x < |s1.owner| ensures ExactMutex(s1, x) { assert ExactMutex(s, x); }
      forall x | 0 <= x < |s1.init| ensures ExactThread(s1, x) { assert ExactThread(s, x); }
    }
  }

  /** The thread is more urgent than the owner: its priority is to be carried to the owner. */
  lemma QueuedAbove(s: State, t: Tid, m: Mid, k: nat)
    requires Valid(s) && m < |s.owner| && Running(s, t) && IsSlot(s.waiters[m], s.cur, s.cur[t], k)
    requires s.owner[m].Some? && s.owner[m].value != t
    requires s.cur[t] < s.prio[m] && s.cur[t] < s.cur[s.owner[m].value]
    ensures var s1 := Queued(s, t, m, k); var o := s.owner[m].value; var p := s.cur[t];
      && Structure(s1) && p <= s1.init[o] && p != s1.cur[o]
      && (forall x :: 0 <= x < |s1.owner| ==> QueueInOrder(s1, x))
      && (forall x :: 0 <= x < |s1.init| && x != o ==> OwnerUrgent(s1, x))
      && (forall x :: 0 <= x < |s1.owner| && s1.owner[x] == Some(o) ==> p <= s1.prio[x])
  {
    QueuedKeeps(s, t, m, k);
    assert OwnerUrgent(s, s.owner[m].value);
  }

  lemma RaisedOwner(s: State, t: Tid, m: Mid, k: nat, s2: State)
    requires Valid(s) && m < |s.owner| && Running(s, t) && IsSlot(s.waiters[m], s.cur, s.cur[t], k)
    requires s.owner[m].Some? && s.owner[m].value != t
    requires s.cur[t] < s.prio[m] && s.cur[t] < s.cur[s.owner[m].value]
    requires WellSized(Queued(s, t, m, k)) && Arrived(Queued(s, t, m, k), s.owner[m].value, s.cur[t], s2)
    ensures Exact(s) ==> Exact(s2)
    ensures JoinedQueue(s, t, m, s2)
  {
    QueuedKeeps(s, t, m, k);
    QueuedOwner(s, t, m, k);
    QueuedAtOnce(s, t, m, k);
    if Exact(s) {
      forall x | 0 <= x < |s2.owner| ensures ExactMutex(s2, x) { assert ExactMutex(s, x); }
      forall x | 0 <= x < |s2.init| ensures ExactThread(s2, x) { assert ExactThread(s, x); }
    }
  }

  // ---------- leaving a queue ----------

  /** `_thread_timeout`: the thread is unlinked and made ready; its clean-up runs later. */
  function Left(s: State, t: Tid, m: Mid): State
    requires WellSized(s) && t < |s.init| && m < |s.owner|
  {
    s.(waiters := s.waiters[m := Without(s.waiters[m], t)], suspended := s.suspended[t := false])
  }

  lemma LeftStructure(s: State, t: Tid, m: Mid)
    requires Structure(s) && t < |s.init| && m < |s.owner| && s.pending[t] == Some(m)
    ensures Structure(Left(s, t, m))
  {
    var s1 := Left(s, t, m);
    WithoutKeepsDistinct(s.waiters[m], t);
    WithoutBelow(s.waiters[m], t, |s.init|);
    assert WellSized(s1);
    assert forall x, y :: 0 <= x < |s.init| && 0 <= y < |s.owner| && x != t ==>
        (BlockedOn(s1, x, y) <==> BlockedOn(s, x, y));
    assert forall y :: 0 <= y < |s.owner| ==> !BlockedOn(s1, t, y);
    assert forall y :: 0 <= y < |s.owner| && y != m ==> !BlockedOn(s, t, y);
    assert s1.waiters[m] != [] ==> s1.waiters[m][0] in s.waiters[m];
    assert Ownership(s1);
  }

  lemma LeftKeeps(s: State, t: Tid, m: Mid)
    requires Valid(s) && t < |s.init| && m < |s.owner| && s.pending[t] == Some(m)
    ensures Valid(Left(s, t, m))
    ensures forall x :: 0 <= x < |s.owner| && x != m && ExactMutex(s, x) ==> ExactMutex(Left(s, t, m), x)
    ensures forall x :: 0 <= x < |s.init| && ExactThread(s, x) ==> ExactThread(Left(s, t, m), x)
    ensures ExactMutex(s, m) && s.prio[m] != s.cur[t] ==> ExactMutex(Left(s, t, m), m)
    ensures ExactMutex(s, m) ==> s.prio[m] <= Head(Left(s, t, m).waiters[m], s.cur)
  {
    var s1 := Left(s, t, m);
    LeftStructure(s, t, m);
    assert QueueInOrder(s, m);
    UnlinkKeepsSorted(s.waiters[m], s.cur, t);
    forall x | 0 <= x < |s.owner| ensures QueueInOrder(s1, x) { assert QueueInOrder(s, x); }
    forall x | 0 <= x < |s.init| ensures OwnerUrgent(s1, x) { assert OwnerUrgent(s, x); }
    if ExactMutex(s, m) && s.prio[m] != s.cur[t] {
      if s.waiters[m] != [] { assert s1.waiters[m][0] == s.waiters[m][0]; }
    }
  }

  // ---------- reading the priority of a mutex anew ----------

  function Refreshed(s: State, m: Mid): State
    requires WellSized(s) && m < |s.owner|
  {
    s.(prio := s.prio[m := Head(s.waiters[m], s.cur)])
  }

  lemma RefreshedValid(s: State, m: Mid)
    requires Valid(s) && m < |s.owner|
    ensures Valid(Refreshed(s, m))
  {
    var s1 := Refreshed(s, m);
    assert QueueInOrder(s, m);
    if s.waiters[m] != [] { assert OwnerUrgent(s, s.waiters[m][0]); }
    ReorderedStructure(s, s.waiters, s1.prio);
    assert s1 == s.(waiters := s.waiters, prio := s1.prio);
    forall x | 0 <= x < |s.owner| ensures QueueInOrder(s1, x) { assert QueueInOrder(s, x); }
    forall x | 0 <= x < |s.init| ensures OwnerUrgent(s1, x) { assert OwnerUrgent(s, x); }
  }

  lemma RefreshedKeeps(s: State, m: Mid)
    requires Valid(s) && m < |s.owner|
    ensures var s1 := Refreshed(s, m);
      && Valid(s1) && ExactMutex(s1, m)
      && (forall x :: 0 <= x < |s.owner| && ExactMutex(s, x) ==> ExactMutex(s1, x))
      && (forall x :: 0 <= x < |s.init| && s.owner[m] != Some(x) && ExactThread(s, x) ==> ExactThread(s1, x))
      && (s.owner[m].Some? && s.cur[s.owner[m].value] < s.prio[m] && ExactThread(s, s.owner[m].value) ==>
            ExactThread(s1, s.owner[m].value))
  {
    var s1 := Refreshed(s, m);
    RefreshedValid(s, m);
    forall x | 0 <= x < |s.init|
      ensures s.owner[m] != Some(x) && ExactThread(s, x) ==> ExactThread(s1, x)
      ensures s.owner[m] == Some(x) && s.cur[x] < s.prio[m] && ExactThread(s, x) ==> ExactThread(s1, x)
    {
      assert OwnerUrgent(s, x);
      if ExactThread(s, x) {
        if m !in s.taken[x] {
          MinLentFrame(s.init[x], s.taken[x], s1.taken[x], s.prio, s.ceiling, s1.prio);
        } else if s.cur[x] < s.prio[m] {
          assert forall y :: y in s.taken[x] && y != m ==> Lent(y, s1.prio, s1.ceiling) == Lent(y, s.prio, s.ceiling);
          assert s.cur[x] <= Lent(m, s.prio, s.ceiling);
          assert QueueInOrder(s, m) && s.prio[m] <= s1.prio[m];
          MinLentUnique(s1.init[x], s1.taken[x], s1.prio, s1.ceiling, s.cur[x]);
        }
      }
    }
  }

  /** All priorities are exact but possibly that of `m`, which is still what `t` lent it when it was queued. */
  ghost predicate ExactBeforeLeaving(s: State, m: Mid, t: Tid)
    requires WellSized(s) && m < |s.owner| && t < |s.init|
  {
    && (forall x :: 0 <= x < |s.init| ==> ExactThread(s, x))
    && (forall x :: 0 <= x < |s.owner| && x != m ==> ExactMutex(s, x))
    && (ExactMutex(s, m) || s.prio[m] == s.cur[t])
  }

  /** Once the owner of `m` is corrected all priorities are exact again. */
  lemma SettledOwner(s: State, m: Mid, t: Tid, s2: State)
    requires Valid(s) && m < |s.owner| && t < |s.init| && s.owner[m].Some?
    requires WellSized(s2) && |s2.init| == |s.init| && |s2.owner| == |s.owner|
    requires forall x :: 0 <= x < |s.init| && s.owner[m] != Some(x) && ExactThread(Refreshed(s, m), x) ==>
      ExactThread(s2, x)
    requires ExactThread(s2, s.owner[m].value)
    requires forall x :: 0 <= x < |s.owner| && ExactMutex(Refreshed(s, m), x) ==> ExactMutex(s2, x)
    ensures ExactBeforeLeaving(s, m, t) || ExactOutside(s, m) ==> Exact(s2)
    ensures ExactMutex(s2, m)
  {
    RefreshedKeeps(s, m);
  }

  /** An owner that does not run at the priority of `t` did not have it from `t`. */
  lemma SettledAnyway(s: State, m: Mid, t: Tid)
    requires Valid(s) && m < |s.owner| && t < |s.init|
    requires s.owner[m].Some? ==> s.cur[s.owner[m].value] != s.cur[t]
    ensures ExactBeforeLeaving(s, m, t) ==> Exact(Refreshed(s, m))
  {
    RefreshedKeeps(s, m);
    var s1 := Refreshed(s, m);
    if ExactBeforeLeaving(s, m, t) {
      if ExactMutex(s, m) {
        assert s1 == s;
      } else if s.owner[m].Some? {
        assert OwnerUrgent(s, s.owner[m].value);
      }
      forall x | 0 <= x < |s.owner| ensures ExactMutex(s1, x) { assert x == m || ExactMutex(s, x); }
      forall x | 0 <= x < |s.init| ensures ExactThread(s1, x) { assert ExactThread(s, x); }
    }
  }

  /** All priorities are exact, but possibly that of `m`. */
  ghost predicate ExactOutside(s: State, m: Mid)
    requires WellSized(s) && m < |s.owner|
  {
    && (forall x :: 0 <= x < |s.init| ==> ExactThread(s, x))
    && (forall x :: 0 <= x < |s.owner| && x != m ==> ExactMutex(s, x))
  }

  /** The owner of `m`, if there is one, has the priority that it inherits once `m` is refreshed. */
  ghost predicate OwnerUnmoved(s: State, m: Mid)
    requires WellSized(s) && m < |s.owner|
  {
    s.owner[m].Some? ==> Inherited(Refreshed(s, m), s.owner[m].value) == s.cur[s.owner[m].value]
  }

  /** What a clean-up that does not correct the owner comes to. */
  lemma RefreshedExactIff(s: State, m: Mid)
    requires Valid(s) && m < |s.owner| && ExactOutside(s, m)
    ensures Exact(Refreshed(s, m)) <==> OwnerUnmoved(s, m)
  {
    RefreshedKeeps(s, m);
    var s1 := Refreshed(s, m);
    forall x | 0 <= x < |s.owner| ensures ExactMutex(s1, x) { assert x == m || ExactMutex(s, x); }
    forall x | 0 <= x < |s.init| && s.owner[m] != Some(x) ensures ExactThread(s1, x) { assert ExactThread(s, x); }
    ExactBut(s1, s.owner[m]);
  }

  lemma LeftBeforeSettling(s: State, t: Tid, m: Mid)
    requires Valid(s) && t < |s.init| && m < |s.owner| && s.pending[t] == Some(m)
    ensures WellSized(Left(s, t, m))
    ensures Exact(s) ==> ExactBeforeLeaving(Left(s, t, m), m, t)
  {
    LeftKeeps(s, t, m);
    if Exact(s) {
      forall x | 0 <= x < |s.init| ensures ExactThread(Left(s, t, m), x) { assert ExactThread(s, x); }
      forall x | 0 <= x < |s.owner| && x != m ensures ExactMutex(Left(s, t, m), x) { assert ExactMutex(s, x); }
      assert ExactMutex(s, m);
    }
  }

  // ---------- ceilings, and blocking elsewhere ----------

  lemma CeilingKeeps(s: State, m: Mid, p: nat)
    requires Valid(s) && m < |s.owner| && p < PRIORITIES
    ensures var s1 := s.(ceiling := s.ceiling[m := p]);
      && Valid(s1)
      && (forall x :: 0 <= x < |s.owner| && ExactMutex(s, x) ==> ExactMutex(s1, x))
      && (forall x :: 0 <= x < |s.init| && s.owner[m] != Some(x) && ExactThread(s, x) ==> ExactThread(s1, x))
  {
    var s1 := s.(ceiling := s.ceiling[m := p]);
    assert forall x, y :: 0 <= x < |s.init| && 0 <= y < |s.owner| ==> (BlockedOn(s1, x, y) <==> BlockedOn(s, x, y));
    assert Structure(s1);
    forall x | 0 <= x < |s.owner| ensures QueueInOrder(s1, x) { assert QueueInOrder(s, x); }
    forall x | 0 <= x < |s.init|
      ensures OwnerUrgent(s1, x)
      ensures s.owner[m] != Some(x) && ExactThread(s, x) ==> ExactThread(s1, x)
    {
      assert OwnerUrgent(s, x);
      if m !in s.taken[x] {
        assert forall y :: y in s.taken[x] ==> Lent(y, s1.prio, s1.ceiling) == Lent(y, s.prio, s.ceiling);
        MinLentUnique(s1.init[x], s1.taken[x], s1.prio, s1.ceiling, Inherited(s, x));
      }
    }
  }

  lemma UnownedCeiling(s: State, m: Mid, s1: State)
    requires WellSized(s) && WellSized(s1) && |s1.init| == |s.init| && |s1.owner| == |s.owner|
    requires m < |s.owner| && s.owner[m].None?
    requires forall x :: 0 <= x < |s.owner| && ExactMutex(s, x) ==> ExactMutex(s1, x)
    requires forall x :: 0 <= x < |s.init| && s.owner[m] != Some(x) && ExactThread(s, x) ==> ExactThread(s1, x)
    ensures Exact(s) ==> Exact(s1)
  {
    if Exact(s) {
      forall x | 0 <= x < |s.init| ensures ExactThread(s1, x) { assert ExactThread(s, x); }
      forall x | 0 <= x < |s.owner| ensures ExactMutex(s1, x) { assert ExactMutex(s, x); }
    }
  }

  lemma CorrectedOwner(s: State, s1: State, o: Tid, s2: State)
    requires WellSized(s) && WellSized(s1) && WellSized(s2) && o < |s1.init| && |s2.init| == |s1.init| == |s.init|
    requires |s2.owner| == |s1.owner| == |s.owner|
    requires ExactThread(s2, o)
    requires forall x :: 0 <= x < |s1.owner| && ExactMutex(s1, x) ==> ExactMutex(s2, x)
    requires forall x :: 0 <= x < |s1.init| && x != o && ExactThread(s1, x) ==> ExactThread(s2, x)
    requires forall x :: 0 <= x < |s.owner| && ExactMutex(s, x) ==> ExactMutex(s1, x)
    requires forall x :: 0 <= x < |s.init| && x != o && ExactThread(s, x) ==> ExactThread(s1, x)
    ensures Exact(s) ==> Exact(s2)
  {
    if Exact(s) {
      forall x | 0 <= x < |s.init| ensures ExactThread(s2, x) { assert ExactThread(s, x); }
      forall x | 0 <= x < |s.owner| ensures ExactMutex(s2, x) { assert ExactMutex(s, x); }
    }
  }

  lemma ResumedKeeps(s: State, t: Tid, suspended: bool)
    requires Valid(s) && t < |s.init| && s.pending[t].None?
    ensures
      var s1 := s.(suspended := s.suspended[t := suspended]);
      Valid(s1) && StaysExact(s, s1) && (Exact(s) ==> Exact(s1))
  {
    var s1 := s.(suspended := s.suspended[t := suspended]);
    assert forall x, y :: 0 <= x < |s.init| && 0 <= y < |s.owner| ==> (BlockedOn(s1, x, y) <==> BlockedOn(s, x, y));
    assert Structure(s1);
    forall x | 0 <= x < |s.init| ensures OwnerUrgent(s1, x) { assert OwnerUrgent(s, x); }
    forall x | 0 <= x < |s.owner| ensures QueueInOrder(s1, x) { assert QueueInOrder(s, x); }
    assert StaysExact(s, s1);
  }

  // ---------- releasing ----------

  /** The owner's priority after it gave up `m`: computed anew only when `m` may have lent it. */
  function AfterGivingUp(s: State, t: Tid, m: Mid): seq<nat>
    requires WellSized(s) && t < |s.init| && m < |s.owner|
  {
    WithoutBelow(s.taken[t], m, |s.owner|);
    if s.ceiling[m] != NO_PRIORITY || s.cur[t] == s.prio[m]
    then s.cur[t := MinLent(s.init[t], Without(s.taken[t], m), s.prio, s.ceiling)]
    else s.cur
  }

  /** Some mutex is handed to a thread that its ceiling should have made more urgent. */
  predicate HandsBelowCeiling(s: State, m: Mid)
    requires WellSized(s) && m < |s.owner|
  {
    s.waiters[m] != [] && s.ceiling[m] < s.cur[s.waiters[m][0]]
  }

  lemma AfterGivingUpIs(s: State, t: Tid, m: Mid)
    requires Valid(s) && t < |s.init| && m < |s.owner| && s.owner[m] == Some(t)
    ensures var rest := Without(s.taken[t], m); var cur := AfterGivingUp(s, t, m);
      && Distinct(rest) && m !in rest && Below(rest, |s.owner|)
      && |cur| == |s.cur| && (forall x :: 0 <= x < |cur| && x != t ==> cur[x] == s.cur[x])
      && (forall x :: x in rest ==> cur[t] <= s.prio[x]) && cur[t] <= s.init[t]
      && (ExactThread(s, t) ==> cur[t] == MinLent(s.init[t], rest, s.prio, s.ceiling))
  {
    WithoutKeepsDistinct(s.taken[t], m);
    WithoutBelow(s.taken[t], m, |s.owner|);
    var rest := Without(s.taken[t], m);
    var cur := AfterGivingUp(s, t, m);
    assert OwnerUrgent(s, t);
    forall x | x in rest ensures cur[t] <= s.prio[x] {
      assert x in s.taken[t] && s.owner[x] == Some(t);
      assert MinLent(s.init[t], rest, s.prio, s.ceiling) <= Lent(x, s.prio, s.ceiling);
    }
    if ExactThread(s, t) && s.ceiling[m] == NO_PRIORITY && s.cur[t] != s.prio[m] {
      NotLent(s.init[t], s.taken[t], m, s.prio, s.ceiling);
    }
  }

  /** A mutex that does not lend the minimum does not matter to it. */
  lemma NotLent(base: nat, ms: seq<Mid>, m: Mid, prio: seq<nat>, ceiling: seq<nat>)
    requires |prio| == |ceiling| && Below(ms, |prio|) && Below(Without(ms, m), |prio|) && m < |prio|
    requires MinLent(base, ms, prio, ceiling) != Lent(m, prio, ceiling)
    ensures MinLent(base, ms, prio, ceiling) == MinLent(base, Without(ms, m), prio, ceiling)
  {
    MinLentUnique(base, Without(ms, m), prio, ceiling, MinLent(base, ms, prio, ceiling));
  }

  /** The first waiter unlinked and made ready, the priority of `m` read from those left. */
  function Woken(s: State, m: Mid): State
    requires WellSized(s) && m < |s.owner| && s.waiters[m] != []
  {
    var next := s.waiters[m][0];
    s.(waiters := s.waiters[m := s.waiters[m][1..]], suspended := s.suspended[next := false],
       pending := s.pending[next := None], prio := s.prio[m := Head(s.waiters[m][1..], s.cur)])
  }

  lemma WokenKeeps(s: State, m: Mid)
    requires Valid(s) && m < |s.owner| && s.waiters[m] != []
    ensures var s1 := Woken(s, m); var next := s.waiters[m][0];
      && Valid(s1) && Running(s1, next) && s.cur[next] <= s1.prio[m]
      && s.owner[m].Some? && s.owner[m].value != next
      && (forall x :: 0 <= x < |s.owner| && ExactMutex(s, x) ==> ExactMutex(s1, x))
      && (forall x :: 0 <= x < |s.init| && s.owner[m] != Some(x) && ExactThread(s, x) ==> ExactThread(s1, x))
  {
    var w := s.waiters[m];
    var next := w[0];
    assert next in w && BlockedOn(s, next, m);
    LeftKeeps(s, next, m);
    var s1 := Left(s, next, m);
    assert Without(w, next) == w[1..];
    RefreshedKeeps(s1, m);
    var s2 := Refreshed(s1, m);
    var s3 := s2.(pending := s2.pending[next := None]);
    assert s3 == Woken(s, m);
    ClearedKeeps(s2, next);
    NextIsLess(s, m);
  }

  /** The first waiter is as urgent as the mutex will be without it. */
  lemma NextIsLess(s: State, m: Mid)
    requires Valid(s) && m < |s.owner| && s.waiters[m] != []
    ensures s.waiters[m][0] < |s.cur| && Below(s.waiters[m][1..], |s.cur|)
    ensures s.cur[s.waiters[m][0]] <= Head(s.waiters[m][1..], s.cur)
  {
    var w := s.waiters[m];
    assert w[0] in w && BlockedOn(s, w[0], m);
    assert QueueInOrder(s, m) && OwnerUrgent(s, w[0]);
    assert |w| > 1 ==> s.cur[w[0]] <= s.cur[w[1]];
  }

  /** A thread that is not blocked forgets the mutex it waited for. */
  lemma ClearedKeeps(s: State, t: Tid)
    requires Valid(s) && t < |s.init| && !s.suspended[t]
    ensures var s1 := s.(pending := s.pending[t := None]);
      && Valid(s1)
      && (forall x :: 0 <= x < |s.owner| ==> (ExactMutex(s, x) <==> ExactMutex(s1, x)))
      && (forall x :: 0 <= x < |s.init| ==> (ExactThread(s, x) <==> ExactThread(s1, x)))
  {
    var s1 := s.(pending := s.pending[t := None]);
    assert forall x, y :: 0 <= x < |s.init| && 0 <= y < |s.owner| ==> (BlockedOn(s1, x, y) <==> BlockedOn(s, x, y));
    assert Structure(s1);
    forall x | 0 <= x < |s.init| ensures OwnerUrgent(s1, x) { assert OwnerUrgent(s, x); }
    forall x | 0 <= x < |s.owner| ensures QueueInOrder(s1, x) { assert QueueInOrder(s, x); }
  }

  /** `m` moves from the taken list of `t` to that of `next`, or to nobody; `t` gets the priorities `cur`. */
  function Passed(s: State, t: Tid, m: Mid, next: Option<Tid>, cur: seq<nat>): State
    requires t < |s.taken| && m < |s.owner| == |s.hold| == |s.prio| && (next.Some? ==> next.value < |s.taken|)
  {
    var taken := s.taken[t := Without(s.taken[t], m)];
    s.(cur := cur, owner := s.owner[m := next],
       taken := if next.Some? then taken[next.value := [m] + taken[next.value]] else taken,
       hold := s.hold[m := if next.Some? then 1 else 0],
       prio := if next.Some? then s.prio else s.prio[m := NO_PRIORITY])
  }

  /** Taken lists and owners that agree with each other can replace those of a well-structured state. */
  lemma RetakenStructure(s: State, s1: State)
    requires Structure(s) && |s1.cur| == |s.cur| && |s1.taken| == |s.taken|
    requires |s1.owner| == |s1.hold| == |s1.prio| == |s.owner|
    requires s1 == s.(cur := s1.cur, taken := s1.taken, owner := s1.owner, hold := s1.hold, prio := s1.prio)
    requires forall m :: 0 <= m < |s1.prio| ==> s1.prio[m] <= NO_PRIORITY
    requires forall t :: 0 <= t < |s1.taken| ==> Below(s1.taken[t], |s1.owner|) && Distinct(s1.taken[t])
    requires forall m :: 0 <= m < |s1.owner| ==> s1.hold[m] <= HOLD_MAX && (s1.owner[m].Some? <==> s1.hold[m] > 0)
    requires forall m :: 0 <= m < |s1.owner| && s1.owner[m].Some? ==>
      s1.owner[m].value < |s1.init| && s1.owner[m].value !in s1.waiters[m]
    requires forall m :: 0 <= m < |s1.owner| && s1.waiters[m] != [] ==> s1.owner[m].Some?
    requires forall t, m :: 0 <= t < |s1.taken| && 0 <= m < |s1.owner| ==>
      (m in s1.taken[t] <==> s1.owner[m] == Some(t))
    ensures Structure(s1)
  {
    assert WellSized(s1);
    assert forall x, y :: 0 <= x < |s.init| && 0 <= y < |s.owner| ==> (BlockedOn(s1, x, y) <==> BlockedOn(s, x, y));
    assert Ownership(s1);
  }

  lemma PushedTaken(ms: seq<Mid>, m: Mid, n: nat)
    requires Distinct(ms) && Below(ms, n) && m !in ms && m < n
    ensures var r := [m] + ms; Distinct(r) && Below(r, n) && (forall x :: x in r <==> x == m || x in ms)
  {
    var r := [m] + ms;
    assert r[0] == m;
    assert forall i :: 0 < i < |r| ==> r[i] == ms[i - 1];
  }

  lemma PassedStructure(s: State, t: Tid, m: Mid, next: Option<Tid>, cur: seq<nat>)
    requires Structure(s) && t < |s.init| && m < |s.owner| && s.owner[m] == Some(t) && |cur| == |s.cur|
    requires if next.Some? then Running(s, next.value) && next.value != t else s.waiters[m] == []
    ensures Structure(Passed(s, t, m, next, cur))
  {
    var s1 := Passed(s, t, m, next, cur);
    WithoutKeepsDistinct(s.taken[t], m);
    WithoutBelow(s.taken[t], m, |s.owner|);
    assert m in s.taken[t];
    if next.Some? {
      assert m !in s.taken[next.value];
      PushedTaken(s.taken[next.value], m, |s.owner|);
      assert !BlockedOn(s, next.value, m);
    }
    forall x, y | 0 <= x < |s1.taken| && 0 <= y < |s1.owner|
      ensures y in s1.taken[x] <==> s1.owner[y] == Some(x)
    {
      assert y in s.taken[x] <==> s.owner[y] == Some(x);
    }
    RetakenStructure(s, s1);
  }

  /** `cur` gives only `t` a new priority, which suits the mutexes it keeps. */
  ghost predicate Suits(s: State, t: Tid, m: Mid, cur: seq<nat>)
    requires WellSized(s) && t < |s.init| && m < |s.owner|
  {
    var rest := Without(s.taken[t], m);
    && Below(rest, |s.owner|) && m !in rest
    && |cur| == |s.cur| && (forall x :: 0 <= x < |cur| && x != t ==> cur[x] == s.cur[x])
    && (forall x :: x in rest ==> cur[t] <= s.prio[x]) && cur[t] <= s.init[t]
  }

  lemma PassedKeeps(s: State, t: Tid, m: Mid, next: Option<Tid>, cur: seq<nat>)
    requires Valid(s) && Running(s, t) && m < |s.owner| && s.owner[m] == Some(t) && Suits(s, t, m, cur)
    requires
      if next.Some? then Running(s, next.value) && next.value != t && s.cur[next.value] <= s.prio[m]
      else s.waiters[m] == []
    ensures Valid(Passed(s, t, m, next, cur))
    ensures forall x :: 0 <= x < |s.owner| && ExactMutex(s, x) ==> ExactMutex(Passed(s, t, m, next, cur), x)
  {
    var s1 := Passed(s, t, m, next, cur);
    PassedStructure(s, t, m, next, cur);
    forall x | 0 <= x < |s.owner|
      ensures QueueInOrder(s1, x)
      ensures ExactMutex(s, x) ==> ExactMutex(s1, x)
    {
      PassedQueue(s, t, m, next, cur, x);
    }
    PassedUrgent(s, t, m, next, cur);
  }

  lemma PassedQueue(s: State, t: Tid, m: Mid, next: Option<Tid>, cur: seq<nat>, x: Mid)
    requires Valid(s) && Running(s, t) && m < |s.owner| && s.owner[m] == Some(t) && Suits(s, t, m, cur)
    requires x < |s.owner| && (next.Some? ==> next.value < |s.taken|) && Structure(Passed(s, t, m, next, cur))
    ensures QueueInOrder(Passed(s, t, m, next, cur), x)
    ensures ExactMutex(s, x) ==> ExactMutex(Passed(s, t, m, next, cur), x)
  {
    assert QueueInOrder(s, x) && !BlockedOn(s, t, x);
    assert t !in s.waiters[x];
  }

  lemma PassedUrgent(s: State, t: Tid, m: Mid, next: Option<Tid>, cur: seq<nat>)
    requires Valid(s) && Running(s, t) && m < |s.owner| && s.owner[m] == Some(t) && Suits(s, t, m, cur)
    requires
      if next.Some? then Running(s, next.value) && next.value != t && s.cur[next.value] <= s.prio[m]
      else s.waiters[m] == []
    requires WellSized(Passed(s, t, m, next, cur))
    ensures forall x :: 0 <= x < |s.init| ==> OwnerUrgent(Passed(s, t, m, next, cur), x)
  {
    assert forall y :: 0 <= y < |s.owner| && s.owner[y] == Some(t) && y != m ==> y in Without(s.taken[t], m);
    forall x | 0 <= x < |s.init| ensures OwnerUrgent(Passed(s, t, m, next, cur), x) { assert OwnerUrgent(s, x); }
  }

  lemma PassedExact(s: State, t: Tid, m: Mid, next: Option<Tid>, cur: seq<nat>)
    requires Valid(s) && Running(s, t) && m < |s.owner| && s.owner[m] == Some(t) && Suits(s, t, m, cur)
    requires
      if next.Some? then Running(s, next.value) && next.value != t && s.cur[next.value] <= s.prio[m]
      else s.waiters[m] == []
    requires forall x :: 0 <= x < |s.init| && x != t ==> ExactThread(s, x)
    requires cur[t] == MinLent(s.init[t], Without(s.taken[t], m), s.prio, s.ceiling)
    ensures var s1 := Passed(s, t, m, next, cur);
      && WellSized(s1)
      && (forall x :: 0 <= x < |s.init| && next != Some(x) ==> ExactThread(s1, x))
      && (next.Some? ==> Inherited(s1, next.value) == Min(s.cur[next.value], s.ceiling[m]))
  {
    var s1 := Passed(s, t, m, next, cur);
    PassedStructure(s, t, m, next, cur);
    forall x | 0 <= x < |s.init| && next != Some(x) ensures ExactThread(s1, x) {
      assert x == t || ExactThread(s, x);
      assert x == t || m !in s.taken[x];
      MinLentFrame(s.init[x], s1.taken[x], s1.taken[x], s.prio, s.ceiling, s1.prio);
    }
    if next.Some? {
      var n := next.value;
      assert ExactThread(s, n);
      assert s1.taken[n] == [m] + s.taken[n];
      assert s1.taken[n][0] == m;
      assert forall x :: x in s1.taken[n] <==> x == m || x in s.taken[n];
      assert s.cur[n] <= s.prio[m];
      MinLentUnique(s1.init[n], s1.taken[n], s1.prio, s1.ceiling, Min(s.cur[n], s.ceiling[m]));
    }
  }

  lemma PassedExactIff(s: State, t: Tid, m: Mid, next: Option<Tid>, cur: seq<nat>)
    requires Valid(s) && Running(s, t) && m < |s.owner| && s.owner[m] == Some(t) && Suits(s, t, m, cur)
    requires
      if next.Some? then Running(s, next.value) && next.value != t && s.cur[next.value] <= s.prio[m]
      else s.waiters[m] == []
    requires forall x :: 0 <= x < |s.init| && x != t ==> ExactThread(s, x)
    requires forall x :: 0 <= x < |s.owner| ==> ExactMutex(s, x)
    requires cur[t] == MinLent(s.init[t], Without(s.taken[t], m), s.prio, s.ceiling)
    ensures WellSized(Passed(s, t, m, next, cur))
    ensures Exact(Passed(s, t, m, next, cur)) <==> next.None? || s.cur[next.value] <= s.ceiling[m]
  {
    PassedKeeps(s, t, m, next, cur);
    PassedExact(s, t, m, next, cur);
    ExactBut(Passed(s, t, m, next, cur), next);
  }

  /** With all mutexes exact and all threads but one, exactness rests on that one. */
  lemma ExactBut(s: State, next: Option<Tid>)
    requires WellSized(s) && (next.Some? ==> next.value < |s.init|)
    requires forall x :: 0 <= x < |s.init| && next != Some(x) ==> ExactThread(s, x)
    requires forall x :: 0 <= x < |s.owner| ==> ExactMutex(s, x)
    ensures Exact(s) <==> next.None? || s.cur[next.value] == Inherited(s, next.value)
  {
    if next.Some? {
      assert ExactThread(s, next.value) <==> s.cur[next.value] == Inherited(s, next.value);
    }
  }

  /** The last release of `m` by its owner `t`: the first waiter, if any, is woken and owns it next. */
  function Released(s: State, t: Tid, m: Mid): State
    requires WellSized(s) && t < |s.init| && m < |s.owner|
  {
    if s.waiters[m] == [] then Passed(s, t, m, None, AfterGivingUp(s, t, m))
    else Passed(Woken(s, m), t, m, Some(s.waiters[m][0]), AfterGivingUp(s, t, m))
  }

  lemma BelowUnsetCeiling(s: State, m: Mid)
    requires Valid(s) && m < |s.owner|
    ensures NoCeilings(s) ==> !HandsBelowCeiling(s, m)
  {
    if s.waiters[m] != [] { assert OwnerUrgent(s, s.waiters[m][0]); }
  }

  /** The new priority of the releasing thread does not matter to the queue of the mutex. */
  lemma FirstWaiter(s: State, t: Tid, m: Mid)
    requires Valid(s) && Running(s, t) && m < |s.owner| && s.owner[m] == Some(t)
    ensures |AfterGivingUp(s, t, m)| == |s.cur|
    ensures s.waiters[m] != [] ==>
      && Head(s.waiters[m][1..], AfterGivingUp(s, t, m)) == Head(s.waiters[m][1..], s.cur)
      && s.waiters[m][0] != t
  {
    AfterGivingUpIs(s, t, m);
    assert !BlockedOn(s, t, m);
    assert forall i :: 0 <= i < |s.waiters[m]| ==> s.waiters[m][i] in s.waiters[m];
  }

  lemma ReleasedKeeps(s: State, t: Tid, m: Mid)
    requires Valid(s) && Running(s, t) && m < |s.owner| && s.owner[m] == Some(t)
    ensures Valid(Released(s, t, m))
  {
    var cur := AfterGivingUp(s, t, m);
    AfterGivingUpIs(s, t, m);
    if s.waiters[m] == [] {
      PassedKeeps(s, t, m, None, cur);
    } else {
      WokenKeeps(s, m);
      SuitsWoken(s, t, m);
      PassedKeeps(Woken(s, m), t, m, Some(s.waiters[m][0]), cur);
    }
  }

  lemma SuitsWoken(s: State, t: Tid, m: Mid)
    requires Valid(s) && Running(s, t) && m < |s.owner| && s.owner[m] == Some(t) && s.waiters[m] != []
    ensures WellSized(Woken(s, m)) && Suits(Woken(s, m), t, m, AfterGivingUp(s, t, m))
    ensures ExactThread(s, t) ==>
      AfterGivingUp(s, t, m)[t] == MinLent(s.init[t], Without(s.taken[t], m), Woken(s, m).prio, s.ceiling)
  {
    AfterGivingUpIs(s, t, m);
    WokenKeeps(s, m);
    var rest := Without(s.taken[t], m);
    if ExactThread(s, t) {
      MinLentFrame(s.init[t], rest, rest, s.prio, s.ceiling, Woken(s, m).prio);
    }
  }

  /** Releasing keeps every priority exact, except that a hand-over does not raise the new owner
      to the ceiling of the mutex: the state stays exact precisely when there was no need to. */
  lemma ReleasedExact(s: State, t: Tid, m: Mid)
    requires Valid(s) && Running(s, t) && m < |s.owner| && s.owner[m] == Some(t) && Exact(s)
    ensures WellSized(Released(s, t, m))
    ensures Exact(Released(s, t, m)) <==> !HandsBelowCeiling(s, m)
  {
    var cur := AfterGivingUp(s, t, m);
    AfterGivingUpIs(s, t, m);
    assert ExactThread(s, t);
    if s.waiters[m] == [] {
      PassedExactIff(s, t, m, None, cur);
    } else {
      WokenKeeps(s, m);
      SuitsWoken(s, t, m);
      PassedExactIff(Woken(s, m), t, m, Some(s.waiters[m][0]), cur);
    }
  }
}
