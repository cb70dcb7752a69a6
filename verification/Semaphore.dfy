/**
  Semaphores (rt-thread/src/ipc.c). A release hands the unit to the first waiter, if there is one,
  without counting it.
 */
module Semaphore {
  import opened IpcLists
  import opened KernelLists

  const VALUE_MAX: nat := 65535    // RT_SEM_VALUE_MAX

  datatype Action =
    | DoTake(t: nat, timeout: int, at: nat)
    | DoRun(t: nat)
    | DoRelease
    | DoExpire(t: nat)
    | DoReset(value: nat)

  datatype Snapshot = Snapshot(value: nat, waits: Waits)

  /** What an action makes of a semaphore: nothing, where it is not possible. */
  function Moved(s: Snapshot, a: Action): Snapshot {
    match a
    case DoTake(t, timeout, at) =>
      if !(t < |s.waits.status| && s.waits.status[t] == Running && at <= |s.waits.receivers|) then s
      else if s.value > 0 then s.(value := s.value - 1)
      else if timeout == 0 then s
      else s.(waits := Suspended(s.waits, t, Receiver, at))
    case DoRun(t) =>
      if t < |s.waits.status| && s.waits.status[t] == Woken(Receiver) then s.(waits := Begun(s.waits, t)) else s
    case DoRelease =>
      if s.waits.receivers != [] then s.(waits := FirstWoken(s.waits, Receiver))
      else if s.value < VALUE_MAX then s.(value := s.value + 1)
      else s
    case DoExpire(t) =>
      if t < |s.waits.status| && s.waits.status[t] == Waiting(Receiver) then s.(waits := GivenUp(s.waits, t, Receiver))
      else s
    case DoReset(v) => Snapshot(v % 65536, AllGone(s.waits, Receiver))
  }

  function AfterAll(s: Snapshot, actions: seq<Action>): Snapshot {
    if actions == [] then s else Moved(AfterAll(s, actions[..|actions| - 1]), actions[|actions| - 1])
  }

  // ---------- the order in which waiters are served ----------

  /** The action is none of the threads in `q`, and no reset. */
  predicate OfOthers(a: Action, q: seq<nat>) {
    match a
    case DoTake(t, _, _) => t !in q
    case DoRun(t) => t !in q
    case DoRelease => true
    case DoExpire(t) => t !in q
    case DoReset(_) => false
  }

  function Releases(actions: seq<Action>): nat {
    if actions == [] then 0
    else Releases(actions[..|actions| - 1]) + if actions[|actions| - 1].DoRelease? then 1 else 0
  }

  /** The action links a thread, if it links one, behind all others. */
  predicate JoinsLast(s: Snapshot, a: Action) {
    a.DoTake? ==> a.at >= |s.waits.receivers|
  }

  /** The first `n` threads of `q` are woken, and the others wait, before all that came later. */
  ghost predicate Served(s: Snapshot, q: seq<nat>, n: nat) {
    && n <= |q| <= n + |s.waits.receivers| && Distinct(q) && Below(q, |s.waits.status|)
    && q[n..] == s.waits.receivers[..|q| - n]
    && forall i :: 0 <= i < |q| ==> s.waits.status[q[i]] == if i < n then Woken(Receiver) else Waiting(Receiver)
  }

  lemma ServedNext(s: Snapshot, a: Action, q: seq<nat>, n: nat)
    requires Served(s, q, n) && OfOthers(a, q) && JoinsLast(s, a) && (a.DoRelease? ==> n < |q|)
    ensures Served(Moved(s, a), q, if a.DoRelease? then n + 1 else n)
  {
    var w := s.waits.receivers;
    if a.DoRelease? {
      assert w[0] == w[..|q| - n][0] == q[n];
      assert q[n + 1..] == q[n..][1..] == w[1..][..|q| - n - 1];
    } else if a.DoExpire? {
      LaterLeaves(w, |q| - n, a.t, q[n..]);
    }
  }

  /** A thread that is not among the first `n` leaves them as they are. */
  lemma {:induction false} LaterLeaves(w: seq<nat>, n: nat, t: nat, first: seq<nat>)
    requires n <= |w| && first == w[..n] && t !in first
    ensures n <= |Without(w, t)| && Without(w, t)[..n] == first
  {
    if n > 0 {
      assert w[0] == first[0] && w[1..][..n - 1] == first[1..];
      LaterLeaves(w[1..], n - 1, t, first[1..]);
    }
  }

  /** First come, first served: whatever other threads do, as long as those that come later are linked behind, the
      releases of a run wake the threads that wait in the order of their list. */
  lemma {:induction false} ServedInOrder(s: Snapshot, actions: seq<Action>, q: seq<nat>)
    requires Marked(s.waits.status, q, Waiting(Receiver)) && s.waits.receivers == q && Releases(actions) <= |q|
    requires forall i :: 0 <= i < |actions| ==>
      OfOthers(actions[i], q) && JoinsLast(AfterAll(s, actions[..i]), actions[i])
    ensures Served(AfterAll(s, actions), q, Releases(actions))
  {
    if actions == [] {
      forall i | 0 <= i < |q| ensures q[i] < |s.waits.status| && s.waits.status[q[i]] == Waiting(Receiver) {
        assert q[i] in q;
      }
    } else {
      var before, a := actions[..|actions| - 1], actions[|actions| - 1];
      forall i | 0 <= i < |before| ensures OfOthers(before[i], q) && JoinsLast(AfterAll(s, before[..i]), before[i]) {
        assert before[i] == actions[i] && before[..i] == actions[..i];
      }
      ServedInOrder(s, before, q);
      ServedNext(AfterAll(s, before), a, q, Releases(before));
    }
  }

  class Object {
    var value: nat
    const lists: Lists        // only its receivers are used
    ghost var initial: nat    // the value at the last reset
    ghost var released: nat   // successful releases since then
    ghost var granted: nat    // takes granted since then, at once or by a release

    function View(): Snapshot
      reads this, lists
    {
      Snapshot(value, lists.View())
    }

    /** Units are conserved, and nobody waits while there are any. */
    ghost predicate Valid()
      reads this, lists
    {
      && lists.Valid() && lists.senders == [] && value <= VALUE_MAX
      && initial + released == value + granted
      && (value > 0 ==> lists.receivers == [])
    }

    /** `rt_sem_init` */
    constructor (value: nat, threads: nat)
      requires value <= VALUE_MAX
      ensures Valid() && fresh(lists) && this.value == value == initial && released == granted == 0
      ensures |lists.status| == threads
    {
      this.value, initial, released, granted := value, value, 0, 0;
      lists := new Lists(threads);
    }

    /** `_rt_sem_take`, up to the point where the thread waits */
    method Take(t: nat, timeout: int, at: nat) returns (r: Outcome)
      requires Valid() && t < |lists.status| && lists.status[t] == Running && at <= |lists.receivers|
      modifies `value, `granted, lists
      ensures Valid()
      ensures r == if old(value) > 0 then Done else if timeout == 0 then Failed else Blocked
      ensures granted == old(granted) + if r.Done? then 1 else 0
      ensures View() == Moved(old(View()), DoTake(t, timeout, at))
      ensures value == (if r.Done? then old(value) - 1 else old(value))
      ensures !r.Blocked? ==> lists.status == old(lists.status) && lists.receivers == old(lists.receivers)
      ensures r.Blocked? ==> Joined(old(lists.View()), lists.View(), t, Receiver, at)
    {
      if value > 0 {
        value := value - 1;
        granted := granted + 1;
        return Done;
      } else if timeout == 0 {
        return Failed;
      }
      lists.Suspend(t, Receiver, at);
      return Blocked;
    }

    /** `rt_sem_release` */
    method Release() returns (r: Outcome)
      requires Valid()
      modifies `value, `released, `granted, lists
      ensures Valid()
      ensures r == if old(lists.receivers) == [] && old(value) == VALUE_MAX then Failed else Done
      ensures released == old(released) + if r.Done? then 1 else 0
      ensures granted == old(granted) + if old(lists.receivers) != [] then 1 else 0
      ensures View() == Moved(old(View()), DoRelease)
      // the unit goes to the first waiter
      ensures old(lists.receivers) != [] ==>
        && old(lists.receivers)[0] < |old(lists.status)| && value == old(value)
        && lists.status == old(lists.status)[old(lists.receivers)[0] := Woken(Receiver)]
        && lists.receivers == old(lists.receivers)[1..]
      ensures old(lists.receivers) == [] ==>
        && value == (if r.Done? then old(value) + 1 else old(value))
        && lists.status == old(lists.status) && lists.receivers == []
    {
      if lists.receivers != [] {
        lists.Resume(Receiver);
        granted := granted + 1;
      } else if value < VALUE_MAX {
        value := value + 1;
      } else {
        return Failed;
      }
      released := released + 1;
      return Done;
    }

    /** A waiting thread gives up: its timer, or something else, resumes it with an error. */
    method Expire(t: nat)
      requires Valid() && t < |lists.status| && lists.status[t] == Waiting(Receiver)
      modifies lists
      ensures Valid() && View() == Moved(old(View()), DoExpire(t))
      ensures Departed(old(lists.View()), lists.View(), t)
    {
      WithoutCuts(lists.receivers, t);
      lists.Unlink(t, Receiver, Running);
    }

    /** `rt_sem_control` with RT_IPC_CMD_RESET; the new value is truncated to 16 bits. */
    method Reset(value: nat)
      requires Valid()
      modifies `value, `initial, `released, `granted, lists
      ensures Valid() && View() == Moved(old(View()), DoReset(value))
      ensures initial == value % 65536 && released == granted == 0
      ensures this.value == value % 65536 && NobodyWaits(old(lists.View()), lists.View())
    {
      lists.ResumeAll(Receiver);
      this.value := value % 65536;
      initial, released, granted := value % 65536, 0, 0;
    }

    /** A thread that was resumed by a release runs again, with its unit. */
    method Resumed(t: nat)
      requires Valid() && t < |lists.status| && lists.status[t] == Woken(Receiver)
      modifies lists
      ensures Valid() && View() == Moved(old(View()), DoRun(t))
      ensures lists.status == old(lists.status)[t := Running] && lists.receivers == old(lists.receivers)
    {
      lists.Begin(t);
    }

    method Perform(action: Action)
      requires Valid()
      modifies this, lists
      ensures Valid() && View() == Moved(old(View()), action)
    {
      match action
      case DoTake(t, timeout, at) =>
        if t < |lists.status| && lists.status[t] == Running && at <= |lists.receivers| {
          var _ := Take(t, timeout, at);
        }
      case DoRun(t) =>
        if t < |lists.status| && lists.status[t] == Woken(Receiver) {
          Resumed(t);
        }
      case DoRelease =>
        var _ := Release();
      case DoExpire(t) =>
        if t < |lists.status| && lists.status[t] == Waiting(Receiver) {
          Expire(t);
        }
      case DoReset(v) =>
        Reset(v);
    }

    /** As many releases as there are waiters, or fewer, wake the first of them, in the order of the list. */
    method ReleaseRepeatedly(n: nat)
      requires Valid() && n <= |lists.receivers|
      modifies `value, `released, `granted, lists
      ensures Valid() && lists.receivers == old(lists.receivers)[n..] && value == old(value)
      ensures |lists.status| == |old(lists.status)| && forall t :: 0 <= t < |lists.status| ==>
        lists.status[t] == if t in old(lists.receivers)[..n] then Woken(Receiver) else old(lists.status)[t]
    {
      ghost var q := lists.receivers;
      for i := 0 to n
        invariant Valid() && lists.receivers == q[i..] && value == old(value)
        invariant |lists.status| == |old(lists.status)| && forall t :: 0 <= t < |lists.status| ==>
          lists.status[t] == if t in q[..i] then Woken(Receiver) else old(lists.status)[t]
      {
        var _ := Release();
        assert q[..i + 1] == q[..i] + [q[i]] && q[i..][1..] == q[i + 1..];
      }
    }

    /** Every run does what its actions, one after another, say; after it nobody waits while there are
        units, and every unit is accounted for. */
    method Run(actions: seq<Action>)
      requires Valid()
      modifies this, lists
      ensures View() == AfterAll(old(View()), actions)
      ensures Valid() && (value > 0 ==> lists.receivers == []) && initial + released == value + granted
    {
      for i := 0 to |actions|
        invariant Valid() && View() == AfterAll(old(View()), actions[..i])
      {
        assert actions[..i + 1][..i] == actions[..i];
        Perform(actions[i]);
      }
      assert actions[..|actions|] == actions;
    }
  }
}
