/**
  Mutexes with priority inheritance: the operations of rt-thread/src/ipc.c on threads and mutexes,
  each one interrupt-disabled section. Every C structure field is a field of the class, indexed
  by the thread or the mutex it belongs to.
 */
module MutexSystem {
  import opened Wrappers
  import opened KernelLists
  import opened MutexState
  import opened MutexWalk
  import opened MutexSteps
  import opened MutexCalls

  datatype Status = Ok | Full | Timeout | Error | Blocked | Invalid

  class System {
    const init: seq<nat>
    var cur: seq<nat>
    var suspended: seq<bool>
    var pending: seq<Option<Mid>>
    var taken: seq<seq<Mid>>
    var owner: seq<Option<Tid>>
    var prio: seq<nat>
    var ceiling: seq<nat>
    var hold: seq<nat>
    var waiters: seq<seq<Tid>>

    function View(): State
      reads this
    {
      State(init, cur, suspended, pending, taken, owner, prio, ceiling, hold, waiters)
    }

    // ---------- helpers of the source ----------

    /** The search loop of `_ipc_list_suspend` for a priority queue. */
    method FindSlot(m: Mid, thread: Tid) returns (k: nat)
      requires m < |waiters| && Below(waiters[m], |cur|) && thread < |cur|
      ensures IsSlot(waiters[m], cur, cur[thread], k)
    {
      k := 0;
      while k < |waiters[m]|
        invariant k <= |waiters[m]|
        invariant forall i :: 0 <= i < k ==> cur[waiters[m][i]] <= cur[thread]
      {
        if cur[thread] < cur[waiters[m][k]] {
          return;
        }
        k := k + 1;
      }
    }

    /** `_mutex_update_priority` */
    method RefreshPriority(m: Mid)
      requires m < |waiters| == |prio| && Below(waiters[m], |cur|)
      modifies `prio
      ensures prio == old(prio)[m := Head(waiters[m], cur)]
    {
      if waiters[m] != [] {
        prio := prio[m := cur[waiters[m][0]]];
      } else {
        prio := prio[m := NO_PRIORITY];
      }
    }

    /** `_thread_get_mutex_priority` */
    method GetMutexPriority(thread: Tid) returns (priority: nat)
      requires WellSized(View()) && thread < |init|
      ensures priority == Inherited(View(), thread)
    {
      priority := init[thread];
      var i := 0;
      while i < |taken[thread]|
        invariant i <= |taken[thread]|
        invariant Below(taken[thread][..i], |prio|)
        invariant priority == MinLent(init[thread], taken[thread][..i], prio, ceiling)
      {
        var m := taken[thread][i];
        var mutexPrio := if prio[m] < ceiling[m] then prio[m] else ceiling[m];
        assert taken[thread][..i + 1][..i] == taken[thread][..i];
        if priority > mutexPrio {
          priority := mutexPrio;
        }
        i := i + 1;
      }
      assert taken[thread][..i] == taken[thread];
    }

    /** The body of the walk in `_thread_update_priority`: thread `th` leaves the queue of `m` and is
        linked again at the slot of its new priority, and `m` takes the priority of its first waiter. */
    method Requeue(th: Tid, m: Mid) returns (ghost k: nat)
      requires WellSized(View()) && th < |init| && m < |owner| && Ownership(View())
      modifies `waiters, `prio
      ensures Below(Without(old(waiters[m]), th), |cur|)
      ensures IsSlot(Without(old(waiters[m]), th), cur, cur[th], k)
      ensures View() == Requeued(old(View()), th, m, k)
    {
      ghost var s := View();
      WithoutBelow(waiters[m], th, |cur|);
      waiters := waiters[m := Without(waiters[m], th)];
      var slot := FindSlot(m, th);
      waiters := waiters[m := LinkAt(waiters[m], th, slot)];
      assert waiters == Requeued(s, th, m, slot).waiters;
      RefreshPriority(m);
      k := slot;
    }

    /** `_thread_update_priority`: the change of `thread` is carried along the chain of owners. */
    method UpdatePriority(thread: Tid, priority: nat)
      requires Structure(View()) && thread < |init|
      requires forall m :: 0 <= m < |owner| ==> QueueInOrder(View(), m)
      requires forall t :: 0 <= t < |init| && t != thread ==> OwnerUrgent(View(), t)
      requires priority <= init[thread]
      requires forall m :: 0 <= m < |owner| && owner[m] == Some(thread) ==> priority <= prio[m]
      requires priority != cur[thread]
      modifies `cur, `prio, `waiters
      ensures Arrived(old(View()), thread, priority, View())
      ensures Walked(old(View()).(cur := old(cur)[thread := priority]), thread, View())
    {
      ghost var s0 := View();
      var th := thread;
      ghost var was := cur[th];
      ComingBegins(s0, thread, priority);
      cur := cur[th := priority];
      ghost var w := [Stop(View(), th)];
      while suspended[th]
        invariant Coming(s0, thread, priority, w, View(), th, was)
        decreases Rank(View(), th, was), RoomLeft(View(), cur[th] < was)
      {
        if pending[th].None? {
          break;
        }
        ghost var s, from, before := View(), th, was;
        var go;
        go, th, was := Carry(th, s0, thread, priority, was);
        if !go {
          ComingHome(s0, thread, priority, w, s, from, before, View());
          return;
        }
        ComingOn(s0, thread, priority, w, s, from, before, View(), th, was);
        w := w + [Stop(View(), th)];
      }
      ComingToRest(s0, thread, priority, w, View(), th, was);
    }

    /** The body of the walk: the queue is repaired, and if the owner of the mutex should have another
        priority the walk goes on from it. */
    method Carry(th: Tid, ghost s0: State, ghost t0: Tid, ghost p: nat, ghost was: nat)
      returns (go: bool, next: Tid, ghost nextWas: nat)
      requires WellSized(s0) && t0 < |s0.init| && OnTheWay(s0, t0, p, View(), th, was)
      requires suspended[th] && pending[th].Some?
      modifies `cur, `prio, `waiters
      ensures go ==> LeadsOn(s0, t0, p, old(View()), th, was, View(), next, nextWas)
      ensures !go ==> LeadsHome(s0, t0, p, old(View()), th, View())
    {
      ghost var s := View();
      var m := pending[th].value;
      ghost var k := Requeue(th, m);
      RequeueSized(s0, t0, p, s, th, was, m, k);
      var o := owner[m].value;
      next, nextWas := o, cur[o];
      RoundLeads(s0, t0, p, s, th, was, m, k, o, View(), Inherited(View(), o));
      go := Inherit(o);
    }

    /** Thread `o` gets the priority that it inherits, if that is another one. */
    method Inherit(o: Tid) returns (changed: bool)
      requires WellSized(View()) && o < |init|
      modifies `cur
      ensures changed <==> Inherited(old(View()), o) != old(cur)[o]
      ensures View() == if changed then old(View()).(cur := old(cur)[o := Inherited(old(View()), o)]) else old(View())
    {
      var mutexPriority := GetMutexPriority(o);
      changed := mutexPriority != cur[o];
      if changed {
        cur := cur[o := mutexPriority];
      }
    }

    // ---------- operations ----------

    /** All mutexes free, all threads ready at their initial priority (`rt_mutex_init`). */
    constructor (init: seq<nat>, mutexes: nat)
      requires forall t :: 0 <= t < |init| ==> init[t] < PRIORITIES
      ensures View() == Idle(init, mutexes)
      ensures Valid(View()) && Exact(View()) && NoCeilings(View())
      ensures forall t :: 0 <= t < |init| ==> Running(View(), t)
    {
      this.init := init;
      cur := init;
      suspended := seq(|init|, _ => false);
      pending := seq(|init|, _ => None);
      taken := seq(|init|, _ => []);
      owner := seq(mutexes, _ => None);
      prio := seq(mutexes, _ => NO_PRIORITY);
      ceiling := seq(mutexes, _ => NO_PRIORITY);
      hold := seq(mutexes, _ => 0);
      waiters := seq(mutexes, _ => []);
    }

    /** `rt_mutex_take` on a mutex without owner. */
    method Acquire(self: Tid, m: Mid)
      requires Valid(View()) && m < |owner| && Running(View(), self) && owner[m] == None
      modifies `cur, `taken, `owner, `prio, `hold, `waiters
      ensures Valid(View())
      ensures Exact(old(View())) ==> Exact(View())
      ensures View() == Acquired(old(View()), self, m).(cur := old(cur)[self := Min(old(cur[self]), ceiling[m])])
    {
      ghost var s := View();
      AcquiredKeeps(s, self, m);
      AcquiredExact(s, self, m);
      owner := owner[m := Some(self)];
      prio := prio[m := NO_PRIORITY];
      hold := hold[m := 1];
      taken := taken[self := [m] + taken[self]];
      assert View() == Acquired(s, self, m);
      assert OwnerUrgent(s, self) && OwnerUrgent(View(), self);
      if ceiling[m] != NO_PRIORITY {
        if ceiling[m] < cur[self] {
          RaiseSelf(self, ceiling[m]);
        }
      }
      assert cur == s.cur[self := Min(s.cur[self], ceiling[m])];
    }

    /** `_thread_update_priority` of the running thread: there is nothing to carry. */
    method RaiseSelf(self: Tid, priority: nat)
      requires Valid(View()) && self < |init| && !suspended[self] && priority < cur[self]
      requires forall m :: 0 <= m < |owner| && owner[m] == Some(self) ==> priority <= prio[m]
      modifies `cur, `prio, `waiters
      ensures View() == old(View()).(cur := old(cur)[self := priority])
      ensures Arrived(old(View()), self, priority, View())
    {
      assert OwnerUrgent(View(), self);
      WalkOfRunning(View().(cur := cur[self := priority]), self);
      UpdatePriority(self, priority);
    }

    /** `_ipc_list_suspend` of the running thread, and the assignment of its pending object. */
    method Block(self: Tid, m: Mid) returns (ghost k: nat)
      requires WellSized(View()) && m < |owner| && self < |init|
      modifies `suspended, `pending, `waiters
      ensures IsSlot(old(waiters[m]), cur, cur[self], k)
      ensures View() == Queued(old(View()), self, m, k).(prio := prio)
    {
      var slot := FindSlot(m, self);
      waiters := waiters[m := LinkAt(waiters[m], self, slot)];
      suspended := suspended[self := true];
      pending := pending[self := Some(m)];
      k := slot;
    }

    /** `rt_mutex_take` on a mutex owned by another thread, up to the call of the scheduler. */
    method Enqueue(self: Tid, m: Mid)
      requires Valid(View()) && m < |owner| && Running(View(), self)
      requires owner[m].Some? && owner[m] != Some(self)
      modifies `cur, `suspended, `pending, `prio, `waiters
      ensures Valid(View())
      ensures Exact(old(View())) ==> Exact(View())
      ensures JoinStep(old(View()), self, m, View())
      ensures JoinedQueue(old(View()), self, m, View())
    {
      ghost var s := View();
      var priority := cur[self];
      ghost var k := Block(self, m);
      SlotIs(s.waiters[m], s.cur, s.cur[self], k);
      QueuedAtOnce(s, self, m, k);
      var o := owner[m].value;
      if priority < prio[m] {
        prio := prio[m := priority];
        if prio[m] < cur[o] {
          assert View() == Queued(s, self, m, k);
          QueuedAbove(s, self, m, k);
          UpdatePriority(o, priority);
          RaisedOwner(s, self, m, k, View());
          return;
        }
      }
      assert View() == Queued(s, self, m, k);
      QueuedBelow(s, self, m, k);
    }

    /** `rt_mutex_take` up to the point where the caller either has its answer or is blocked. */
    method Take(self: Tid, m: Mid, timeout: int) returns (status: Status)
      requires Valid(View()) && m < |owner| && Running(View(), self)
      modifies `cur, `suspended, `pending, `taken, `owner, `prio, `hold, `waiters
      ensures Valid(View())
      ensures Exact(old(View())) ==> Exact(View())
      ensures TakeStep(old(View()), self, m, timeout, View())
      ensures status ==
        if old(owner[m]) == Some(self) then if old(hold[m]) < HOLD_MAX then Ok else Full
        else if old(owner[m]) == None then Ok
        else if timeout == 0 then Timeout
        else Blocked
      ensures status == Timeout || status == Full ==> View() == old(View())
      ensures status == Ok ==> owner == old(owner)[m := Some(self)] && hold == old(hold)[m := old(hold[m]) + 1]
      ensures status == Ok ==> suspended == old(suspended) && pending == old(pending) && waiters == old(waiters)
      ensures status == Blocked ==> JoinedQueue(old(View()), self, m, View())
    {
      if owner[m] == Some(self) {
        status := TakeAgain(self, m);
        return;
      }
      if owner[m] == None {
        Acquire(self, m);
        return Ok;
      }
      if timeout == 0 {
        return Timeout;
      }
      Enqueue(self, m);
      return Blocked;
    }

    /** `rt_mutex_take` of a mutex that the thread owns. */
    method TakeAgain(self: Tid, m: Mid) returns (status: Status)
      requires Valid(View()) && m < |owner| && owner[m] == Some(self)
      modifies `hold
      ensures Valid(View()) && (Exact(old(View())) ==> Exact(View()))
      ensures hold == if old(hold[m]) < HOLD_MAX then old(hold)[m := old(hold[m]) + 1] else old(hold)
      ensures status == if old(hold[m]) < HOLD_MAX then Ok else Full
    {
      if hold[m] < HOLD_MAX {
        HoldKeeps(View(), m, hold[m] + 1);
        hold := hold[m := hold[m] + 1];
        assert View() == old(View()).(hold := hold);
        return Ok;
      }
      return Full;
    }

    /** Thread `o` has exactly the priority it inherits, and all priorities that were exact still are. */
    ghost predicate Corrected(s: State, o: Tid, s1: State)
      requires WellSized(s) && o < |s.init|
    {
      && Reordered(s, s1) && Valid(s1) && |s1.cur| == |s.cur| && ExactThread(s1, o)
      && (forall x :: 0 <= x < |s.init| && x != o && ExactThread(s, x) ==> ExactThread(s1, x))
      && (forall x :: 0 <= x < |s.owner| && ExactMutex(s, x) ==> ExactMutex(s1, x))
    }

    /** "get the maximal priority", and the update if the owner `o` of a mutex has another one */
    method Correct(o: Tid)
      requires Valid(View()) && o < |init|
      modifies `cur, `prio, `waiters
      ensures CorrectStep(old(View()), o, View()) && Corrected(old(View()), o, View())
    {
      var priority := GetMutexPriority(o);
      if priority != cur[o] {
        assert forall x :: 0 <= x < |owner| && owner[x] == Some(o) ==> x in taken[o];
        UpdatePriority(o, priority);
      }
    }

    /** The clean-up shared by a failed take and by `rt_mutex_drop_thread`, for a thread `t` that is
        no longer queued on `m`: `m` takes the priority of its first waiter, and the owner is
        corrected if it ran at the priority of `t`. */
    method Settle(m: Mid, t: Tid)
      requires Valid(View()) && m < |owner| && t < |init| && !suspended[t]
      modifies `cur, `prio, `waiters
      ensures Valid(View()) && ExactMutex(View(), m)
      ensures Reordered(old(View()), View()) && SettleStep(old(View()), m, t, View())
      ensures ExactBeforeLeaving(old(View()), m, t) ==> Exact(View())
      ensures ExactOutside(old(View()), m) ==>
        (Exact(View()) <==> RunsAsUrgent(old(View()), m, t) || OwnerUnmoved(old(View()), m))
    {
      ghost var s := View();
      var needUpdate := owner[m].Some? && cur[owner[m].value] == cur[t];
      RefreshedKeeps(s, m);
      RefreshPriority(m);
      assert View() == Refreshed(s, m);
      if needUpdate {
        SettleOwner(m, t, s);
      } else {
        SettledAnyway(s, m, t);
        if ExactOutside(s, m) { RefreshedExactIff(s, m); }
      }
    }

    /** The correction of the owner in the clean-up, which `s` is the state before. */
    method SettleOwner(m: Mid, t: Tid, ghost s: State)
      requires Valid(s) && m < |s.owner| && t < |s.init| && RunsAsUrgent(s, m, t)
      requires View() == Refreshed(s, m) && Valid(View()) && ExactMutex(View(), m)
      modifies `cur, `prio, `waiters
      ensures Valid(View()) && ExactMutex(View(), m)
      ensures Reordered(s, View()) && SettleStep(s, m, t, View())
      ensures ExactBeforeLeaving(s, m, t) ==> Exact(View())
      ensures ExactOutside(s, m) ==> Exact(View())
    {
      Correct(owner[m].value);
      SettledOwner(s, m, t, View());
    }

    /** `_thread_timeout` of a thread blocked on a mutex: it becomes ready, its clean-up runs later. */
    method Expire(t: Tid)
      requires Valid(View()) && t < |init| && suspended[t] && pending[t].Some?
      modifies `suspended, `waiters
      ensures Valid(View())
      ensures View() == Left(old(View()), t, pending[t].value)
      ensures cur == old(cur) && owner == old(owner) && pending == old(pending)
      ensures suspended == old(suspended)[t := false]
      ensures CutOut(old(waiters[pending[t].value]), t, waiters[pending[t].value])
    {
      var m := pending[t].value;
      LeftKeeps(View(), t, m);
      assert BlockedOn(View(), t, m);
      WithoutCuts(waiters[m], t);
      waiters := waiters[m := Without(waiters[m], t)];
      suspended := suspended[t := false];
    }

    /** The rest of `rt_mutex_take` after the thread was woken with an error. */
    method GiveUp(self: Tid)
      requires Valid(View()) && self < |init| && !suspended[self] && pending[self].Some?
      modifies `cur, `pending, `prio, `waiters
      ensures Valid(View()) && ExactMutex(View(), old(pending[self]).value)
      ensures Reordered(old(View()).(pending := old(pending)[self := None]), View())
      ensures GiveUpStep(old(View()), self, View())
      ensures ExactBeforeLeaving(old(View()), old(pending[self]).value, self) ==> Exact(View())
      ensures ExactOutside(old(View()), old(pending[self]).value) ==>
        (Exact(View()) <==>
          || RunsAsUrgent(old(View()), old(pending[self]).value, self)
          || OwnerUnmoved(old(View()), old(pending[self]).value))
    {
      Settle(pending[self].value, self);
      ClearedKeeps(View(), self);
      pending := pending[self := None];
    }

    /** A timeout whose clean-up runs before any other call: exactness is kept. With a call in between it
        may be lost for good, see `MutexRuns.RunLateCleanUp`. */
    method TimeOut(t: Tid)
      requires Valid(View()) && t < |init| && suspended[t] && pending[t].Some?
      modifies `cur, `suspended, `pending, `prio, `waiters
      ensures Valid(View())
      ensures Exact(old(View())) ==> Exact(View())
      ensures WellSized(old(View())) && DetachStep(old(View()), t, View())
    {
      LeftBeforeSettling(View(), t, pending[t].value);
      Expire(t);
      GiveUp(t);
    }

    /** The part of `rt_thread_detach` and `rt_thread_delete` that concerns mutexes: the thread leaves
        the queue it is on and is closed, `rt_mutex_drop_thread` runs, and it waits for nothing. */
    method Detach(t: Tid)
      requires Valid(View()) && t < |init|
      modifies `cur, `suspended, `pending, `prio, `waiters
      ensures Valid(View())
      ensures Exact(old(View())) ==> Exact(View())
      ensures Running(View(), t)
      ensures DetachStep(old(View()), t, View())
    {
      ghost var s := View();
      if pending[t].Some? {
        var m := pending[t].value;
        LeftKeeps(s, t, m);
        LeftBeforeSettling(s, t, m);
        waiters := waiters[m := Without(waiters[m], t)];
        suspended := suspended[t := false];
        assert View() == Left(s, t, m);
        GiveUp(t);
      } else {
        ResumedKeeps(s, t, false);
        suspended := suspended[t := false];
        assert pending == pending[t := None];
      }
    }

    /** `rt_mutex_release` */
    method Release(self: Tid, m: Mid) returns (status: Status)
      requires Valid(View()) && m < |owner| && Running(View(), self)
      modifies `cur, `suspended, `pending, `taken, `owner, `prio, `hold, `waiters
      ensures Valid(View())
      ensures ReleaseStep(old(View()), self, m, View())
      ensures status == if old(owner[m]) == Some(self) then Ok else Error
      ensures Exact(old(View())) ==>
        (Exact(View()) <==> !(old(owner[m]) == Some(self) && old(hold[m]) == 1 && HandsBelowCeiling(old(View()), m)))
      ensures status == Error ==> View() == old(View())
      ensures status == Ok && old(hold[m]) != 1 ==> View() == old(View()).(hold := old(hold)[m := old(hold[m]) - 1])
      // the last release passes the mutex on to the first waiter
      ensures status == Ok && old(hold[m]) == 1 && old(waiters[m]) == [] ==>
        owner == old(owner)[m := None] && hold == old(hold)[m := 0] && waiters == old(waiters)
      ensures status == Ok && old(hold[m]) == 1 && old(waiters[m]) != [] ==>
        var next := old(waiters[m])[0];
        && owner == old(owner)[m := Some(next)] && hold == old(hold)[m := 1] && next < |old(suspended)|
        && waiters == old(waiters)[m := old(waiters[m])[1..]] && suspended == old(suspended)[next := false]
    {
      if owner[m] != Some(self) {
        return Error;
      }
      ghost var s := View();
      hold := hold[m := hold[m] - 1];
      if hold[m] == 0 {
        ReleasedKeeps(s, self, m);
        if Exact(s) {
          ReleasedExact(s, self, m);
        }
        ReleaseLast(self, m, s);
      } else {
        HoldKeeps(s, m, hold[m]);
      }
      return Ok;
    }

    /** The branch of `rt_mutex_release` entered when the hold count, before the call that of `s`, reaches zero. */
    method ReleaseLast(self: Tid, m: Mid, ghost s: State)
      requires Valid(s) && m < |s.owner| == |s.hold| && View() == s.(hold := s.hold[m := 0])
      requires Running(s, self) && s.owner[m] == Some(self)
      modifies `cur, `suspended, `pending, `taken, `owner, `prio, `hold, `waiters
      ensures View() == Released(s, self, m)
    {
      Unlink(self, m);
      FirstWaiter(s, self, m);
      if waiters[m] != [] {
        WakeAndPass(self, m);
      } else {
        owner := owner[m := None];
        prio := prio[m := NO_PRIORITY];
      }
    }

    /** The branch of `rt_mutex_release` that takes the mutex off the owner's list and, where the
        mutex may have lent its priority, computes the owner's priority anew. */
    method Unlink(self: Tid, m: Mid)
      requires WellSized(View()) && m < |owner| && self < |init|
      modifies `cur, `taken
      ensures View() == old(View()).(taken := old(taken)[self := Without(old(taken[self]), m)], cur := cur)
      ensures cur == AfterGivingUp(old(View()), self, m)
    {
      WithoutBelow(taken[self], m, |owner|);
      taken := taken[self := Without(taken[self], m)];
      if ceiling[m] != NO_PRIORITY || cur[self] == prio[m] {
        var priority := GetMutexPriority(self);
        cur := cur[self := priority];
      }
    }

    /** The branch of `rt_mutex_release` that resumes the first waiter and makes it the owner. */
    method WakeAndPass(self: Tid, m: Mid)
      requires m < |owner| == |prio| == |hold| == |waiters| && waiters[m] != [] && Below(waiters[m], |cur|)
      requires |cur| == |taken| == |pending| == |suspended|
      modifies `suspended, `pending, `taken, `owner, `prio, `hold, `waiters
      ensures var next := old(waiters[m][0]); var rest := old(waiters[m])[1..];
        View() == old(View()).(
          waiters := old(waiters)[m := rest], suspended := old(suspended)[next := false],
          pending := old(pending)[next := None],
          owner := old(owner)[m := Some(next)], hold := old(hold)[m := 1],
          taken := old(taken)[next := [m] + old(taken[next])],
          prio := old(prio)[m := if rest == [] then NO_PRIORITY else cur[rest[0]]])
    {
      var next := waiters[m][0];
      waiters := waiters[m := waiters[m][1..]];
      owner := owner[m := Some(next)];
      hold := hold[m := 1];
      taken := taken[next := [m] + taken[next]];
      pending := pending[next := None];
      suspended := suspended[next := false];
      RefreshPriority(m);
    }

    /** `rt_mutex_setprioceiling`, and the error number that it sets */
    method SetPrioCeiling(m: Mid, priority: nat) returns (ret: nat, errno: Status)
      requires Valid(View()) && m < |owner|
      modifies `cur, `prio, `waiters, `ceiling
      ensures Valid(View())
      ensures errno == if priority < PRIORITIES then Ok else Invalid
      ensures priority >= PRIORITIES ==> ret == NO_PRIORITY && View() == old(View())
      ensures priority < PRIORITIES ==> ret == old(ceiling[m]) && CeilingStep(old(View()), m, priority, View())
      ensures priority < PRIORITIES ==> ceiling == old(ceiling)[m := priority] && owner == old(owner)
      ensures Exact(old(View())) ==> Exact(View())
    {
      ret, errno := NO_PRIORITY, Ok;
      if priority < PRIORITIES {
        ret := ceiling[m];
        CeilingKeeps(View(), m, priority);
        ghost var s := View();
        ceiling := ceiling[m := priority];
        ghost var s1 := View();
        if owner[m].Some? {
          Correct(owner[m].value);
          CorrectedOwner(s, s1, owner[m].value, View());
        } else {
          UnownedCeiling(s, m, s1);
        }
      } else {
        errno := Invalid;
      }
    }

    /** A running thread blocks on, or is woken from, something other than a mutex. */
    method Suspend(self: Tid)
      requires Valid(View()) && Running(View(), self)
      modifies `suspended
      ensures Valid(View()) && (Exact(old(View())) ==> Exact(View()))
      ensures View() == old(View()).(suspended := old(suspended)[self := true])
    {
      ResumedKeeps(View(), self, true);
      suspended := suspended[self := true];
    }

    method Resume(t: Tid)
      requires Valid(View()) && t < |init| && suspended[t] && pending[t].None?
      modifies `suspended
      ensures Valid(View()) && (Exact(old(View())) ==> Exact(View()))
      ensures View() == old(View()).(suspended := old(suspended)[t := false])
    {
      ResumedKeeps(View(), t, false);
      suspended := suspended[t := false];
    }

    // ---------- runs ----------

    /** Performs `op` if it is possible in the current state, else nothing. */
    method Perform(op: Op)
      requires Valid(View())
      modifies this
      ensures Step(old(View()), op, View())
      ensures Valid(View())
      ensures !op.OpCeiling? && NoCeilings(old(View())) ==> NoCeilings(View())
      ensures !op.OpExpire? && NoCeilings(old(View())) && Exact(old(View())) ==> Exact(View())
    {
      match op
      case OpTake(t, m, timeout) =>
        if m < |owner| && Running(View(), t) {
          var status := Take(t, m, timeout);
        }
      case OpRelease(t, m) =>
        if m < |owner| && Running(View(), t) {
          BelowUnsetCeiling(View(), m);
          var status := Release(t, m);
        }
      case OpCeiling(m, priority) =>
        if m < |owner| {
          var _, _ := SetPrioCeiling(m, priority);
        }
      case _ =>
        PerformOnThread(op);
    }

    /** The steps that are not about a mutex named in the call. */
    method PerformOnThread(op: Op)
      requires Valid(View()) && !op.OpTake? && !op.OpRelease? && !op.OpCeiling?
      modifies this
      ensures Step(old(View()), op, View())
      ensures Valid(View())
      ensures NoCeilings(old(View())) ==> NoCeilings(View())
      ensures !op.OpExpire? && Exact(old(View())) ==> Exact(View())
    {
      match op
      case OpExpire(t) =>
        if t < |init| && suspended[t] && pending[t].Some? {
          Expire(t);
        }
      case OpGiveUp(t) =>
        if t < |init| && !suspended[t] && pending[t].Some? {
          GiveUp(t);
        }
      case OpDetach(t) =>
        if t < |init| {
          Detach(t);
        }
      case OpSuspend(t) =>
        if Running(View(), t) {
          Suspend(t);
        }
      case OpResume(t) =>
        if t < |init| && suspended[t] && pending[t].None? {
          Resume(t);
        }
    }

    /** Safety over whole runs. Whatever the interleaving of calls and timeouts, no priority is
        inverted in any state on the way; and as long as there was no timeout and no ceiling, every
        priority is exactly the inherited one. */
    method Run(ops: seq<Op>) returns (ghost trace: seq<State>)
      requires Valid(View()) && Exact(View()) && NoCeilings(View())
      modifies this
      ensures IsRun(trace, ops, |ops|) && trace[0] == old(View()) && trace[|ops|] == View()
      ensures IsSafe(trace, ops)
    {
      trace := [View()];
      ValidHasNoInversion(View());
      for i := 0 to |ops|
        invariant IsRun(trace, ops, i) && trace[0] == old(View()) && trace[i] == View()
        invariant IsSafe(trace, ops)
        invariant WithoutTimeout(ops, i) ==> NoCeilings(View())
      {
        assert SafeAfter(trace[i], ops, i);
        assert WithoutTimeout(ops, i + 1) ==> WithoutTimeout(ops, i);
        Perform(ops[i]);
        ValidHasNoInversion(View());
        OneMore(trace, ops, i, View());
        trace := trace + [View()];
      }
    }
  }
}
