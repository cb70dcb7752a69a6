/**
  Events (rt-thread/src/ipc.c): a word of flags, of which waiting threads want all or any. The word
  is the set of its bit numbers.
 */
module Event {
  import opened IpcLists
  import opened KernelLists

  /** What a thread has asked for: event_set and event_info. */
  datatype Wish = Wish(want: set<nat>, all: bool, clear: bool)

  predicate Satisfied(w: Wish, flags: set<nat>) {
    if w.all then w.want <= flags else w.want * flags != {}
  }

  /** The flags that a thread gets when it is satisfied. */
  function Granted(w: Wish, flags: set<nat>): set<nat> {
    if w.all then w.want else w.want * flags
  }

  /** The flags that a satisfied thread clears. */
  function Clears(w: Wish, flags: set<nat>): set<nat> {
    if w.clear && Satisfied(w, flags) then Granted(w, flags) else {}
  }

  /** A wish asks for all of its flags, or for any of them. */
  lemma AllOrAny(w: Wish, flags: set<nat>)
    ensures w.all ==> (Satisfied(w, flags) <==> forall b :: b in w.want ==> b in flags)
    ensures !w.all ==> (Satisfied(w, flags) <==> exists b :: b in w.want && b in flags)
    ensures Satisfied(w, flags) ==> forall b :: b in Granted(w, flags) <==> b in w.want && b in flags
    ensures forall b :: b in Clears(w, flags) <==> w.clear && Satisfied(w, flags) && b in w.want && b in flags
  {
    if b :| b in w.want && b in flags {
      assert b in w.want * flags;
    }
  }

  // ---------- the waiters of a list, judged one by one ----------

  datatype Verdict = Verdict(
    wishes: seq<Wish>,      // what the threads now have, or still want
    status: seq<Status>,
    left: seq<nat>,         // those that still wait
    clear: set<nat>)        // what is to be cleared

  function JudgedOne(v: Verdict, t: nat, flags: set<nat>): Verdict
    requires t < |v.wishes| && t < |v.status|
  {
    var w := v.wishes[t];
    if Satisfied(w, flags)
    then Verdict(v.wishes[t := w.(want := Granted(w, flags))], v.status[t := Woken(Receiver)], v.left,
      v.clear + Clears(w, flags))
    else v.(left := v.left + [t])
  }

  function Judged(q: seq<nat>, wishes: seq<Wish>, status: seq<Status>, flags: set<nat>): (v: Verdict)
    requires |wishes| == |status| && Below(q, |status|)
    ensures |v.wishes| == |v.status| == |status|
  {
    if q == [] then Verdict(wishes, status, [], {})
    else JudgedOne(Judged(q[..|q| - 1], wishes, status, flags), q[|q| - 1], flags)
  }

  /** A thread that is not on the list is not touched. */
  lemma {:induction false} OthersKept(q: seq<nat>, wishes: seq<Wish>, status: seq<Status>, flags: set<nat>, t: nat)
    requires |wishes| == |status| && Below(q, |status|) && t < |status| && t !in q
    ensures
      var v := Judged(q, wishes, status, flags);
      v.wishes[t] == wishes[t] && v.status[t] == status[t] && t !in v.left
  {
    if q != [] {
      assert q == q[..|q| - 1] + [q[|q| - 1]];
      OthersKept(q[..|q| - 1], wishes, status, flags, t);
    }
  }

  /** Each waiter is judged by itself: it is resumed exactly if the flags satisfy it, with the flags
      granted to it, whatever its place on the list. */
  lemma {:induction false} EachJudged(q: seq<nat>, wishes: seq<Wish>, status: seq<Status>, flags: set<nat>, t: nat)
    requires |wishes| == |status| && Below(q, |status|) && Distinct(q) && t in q
    ensures t < |status|
    ensures var v := Judged(q, wishes, status, flags);
      && (t in v.left <==> !Satisfied(wishes[t], flags))
      && v.wishes[t] ==
        (if Satisfied(wishes[t], flags) then wishes[t].(want := Granted(wishes[t], flags)) else wishes[t])
      && v.status[t] == (if Satisfied(wishes[t], flags) then Woken(Receiver) else status[t])
  {
    var p, u := q[..|q| - 1], q[|q| - 1];
    assert q == p + [u];
    if t == u {
      OthersKept(p, wishes, status, flags, t);
    } else {
      EachJudged(p, wishes, status, flags, t);
    }
  }

  /** What is cleared is what satisfied waiters that ask for it were granted. */
  lemma {:induction false} ClearedIsGranted(q: seq<nat>, wishes: seq<Wish>, status: seq<Status>, flags: set<nat>,
                                            b: nat)
    requires |wishes| == |status| && Below(q, |status|) && Distinct(q)
    ensures b in Judged(q, wishes, status, flags).clear <==>
      exists i :: 0 <= i < |q| && b in Clears(wishes[q[i]], flags)
  {
    if q != [] {
      var p, u := q[..|q| - 1], q[|q| - 1];
      OthersKept(p, wishes, status, flags, u);
      ClearedIsGranted(p, wishes, status, flags, b);
      if i :| 0 <= i < |p| && b in Clears(wishes[p[i]], flags) {
        assert q[i] == p[i];
      }
    }
  }

  /** The ones left are some of those that waited. */
  lemma {:induction false} LeftAreWaiters(q: seq<nat>, wishes: seq<Wish>, status: seq<Status>, flags: set<nat>)
    requires |wishes| == |status| && Below(q, |status|)
    ensures forall t :: t in Judged(q, wishes, status, flags).left ==> t in q
  {
    if q != [] {
      assert q == q[..|q| - 1] + [q[|q| - 1]];
      LeftAreWaiters(q[..|q| - 1], wishes, status, flags);
    }
  }

  datatype Action =
    | DoSend(sent: set<nat>)
    | DoRecv(t: nat, wish: Wish, timeout: int, at: nat)
    | DoResumed(t: nat)
    | DoExpire(t: nat)
    | DoReset

  datatype Snapshot = Snapshot(flags: set<nat>, wishes: seq<Wish>, waits: Waits)

  /** A send: all waiters are judged by the same flags, and what they clear is cleared at the end. */
  ghost function Sent(s: Snapshot, sent: set<nat>): Snapshot {
    if sent == {} || |s.wishes| != |s.waits.status| || !Below(s.waits.receivers, |s.wishes|) then s
    else
      var v := Judged(s.waits.receivers, s.wishes, s.waits.status, s.flags + sent);
      Snapshot(s.flags + sent - v.clear, v.wishes, Waits(v.status, v.left, s.waits.senders))
  }

  /** A receive, up to the point where the thread waits. */
  function Received(s: Snapshot, t: nat, wish: Wish, timeout: int, at: nat): Snapshot
    requires t < |s.wishes| && at <= |s.waits.receivers|
  {
    if wish.want == {} then s
    else if Satisfied(wish, s.flags) then
      s.(flags := if wish.clear then s.flags - wish.want else s.flags,
        wishes := s.wishes[t := wish.(want := s.flags * wish.want)])
    else if timeout == 0 then s
    else s.(wishes := s.wishes[t := wish], waits := Suspended(s.waits, t, Receiver, at))
  }

  predicate Has(s: Snapshot, t: nat, now: Status) {
    t < |s.wishes| && t < |s.waits.status| && s.waits.status[t] == now
  }

  /** What an action makes of an event: nothing, where it is not possible. */
  ghost function Moved(s: Snapshot, a: Action): Snapshot {
    match a
    case DoSend(sent) => Sent(s, sent)
    case DoRecv(t, wish, timeout, at) =>
      if Has(s, t, Running) && at <= |s.waits.receivers| then Received(s, t, wish, timeout, at) else s
    case DoResumed(t) => if Has(s, t, Woken(Receiver)) then s.(waits := Begun(s.waits, t)) else s
    case DoExpire(t) => if Has(s, t, Waiting(Receiver)) then s.(waits := GivenUp(s.waits, t, Receiver)) else s
    case DoReset => s.(flags := {}, waits := AllGone(s.waits, Receiver))
  }

  ghost function AfterAll(s: Snapshot, actions: seq<Action>): Snapshot {
    if actions == [] then s else Moved(AfterAll(s, actions[..|actions| - 1]), actions[|actions| - 1])
  }

  /** A waiter that is satisfied, and has the option, clears flag `b`. */
  ghost predicate ClearedBy(w: Wish, flags: set<nat>, b: nat) {
    w.clear && b in w.want && b in flags && (w.all ==> forall c :: c in w.want ==> c in flags)
  }

  /** A thread that had the wish `w` now has those of its flags that are set. */
  ghost predicate Granting(w: Wish, now: Wish, flags: set<nat>) {
    now.want == w.want * flags && now.all == w.all && now.clear == w.clear
  }

  // ---------- what a resumed thread gets ----------

  /** Thread `t` was resumed and has not run; `w` is what its flags are kept in. */
  predicate Resumable(s: Snapshot, t: nat, w: Wish) {
    Has(s, t, Woken(Receiver)) && s.wishes[t] == w
  }

  ghost predicate InStep(s: Snapshot) {
    |s.wishes| == |s.waits.status| && Marked(s.waits.status, s.waits.receivers, Waiting(Receiver))
  }

  /** A send resumes each waiter that it satisfies, with the flags granted to it. */
  lemma SendGrants(s: Snapshot, sent: set<nat>, t: nat)
    requires InStep(s) && sent != {} && t in s.waits.receivers && t < |s.wishes|
    requires Satisfied(s.wishes[t], s.flags + sent)
    ensures Resumable(Sent(s, sent), t, s.wishes[t].(want := Granted(s.wishes[t], s.flags + sent)))
  {
    var q := s.waits.receivers;
    forall i | 0 <= i < |q| ensures q[i] < |s.wishes| { assert q[i] in q; }
    EachJudged(q, s.wishes, s.waits.status, s.flags + sent, t);
  }

  /** Nothing that other threads do changes them before it runs. */
  lemma GrantStays(s: Snapshot, a: Action, t: nat, w: Wish)
    requires InStep(s) && Resumable(s, t, w) && a != DoResumed(t)
    ensures Resumable(Moved(s, a), t, w)
  {
    if a.DoSend? && a.sent != {} && Below(s.waits.receivers, |s.wishes|) {
      OthersKept(s.waits.receivers, s.wishes, s.waits.status, s.flags + a.sent, t);
    }
  }

  class Object {
    var flags: set<nat>         // event->set
    const lists: Lists          // only its receivers are used
    var wishes: seq<Wish>       // by thread

    function View(): Snapshot
      reads this, lists
    {
      Snapshot(flags, wishes, lists.View())
    }

    ghost predicate Sound()
      reads this, lists
    {
      lists.Valid() && InStep(View()) && lists.senders == []
    }

    /** No waiting thread could be satisfied by the flags that are set. */
    ghost predicate Valid()
      reads this, lists
    {
      Sound() && forall t :: t in lists.receivers ==>
        t < |wishes| && wishes[t].want != {} && !Satisfied(wishes[t], flags)
    }

    constructor (threads: nat)
      ensures Valid() && fresh(lists) && flags == {} && |lists.status| == threads
    {
      flags := {};
      lists := new Lists(threads);
      wishes := seq(threads, _ => Wish({}, true, false));
    }

    /** The body of the loop of `rt_event_send`, for waiter `n` of the list as it is now; the next one
        to be judged is number `next`. */
    method Judge(n: nat, needClear: set<nat>) returns (clear: set<nat>, next: nat)
      requires Sound() && n < |lists.receivers| && lists.receivers[n] < |wishes|
      modifies `wishes, lists
      ensures Sound() && |wishes| == |old(wishes)| && n <= next <= |lists.receivers|
      ensures Verdict(wishes, lists.status, lists.receivers[..next], clear) ==
        JudgedOne(Verdict(old(wishes), old(lists.status), old(lists.receivers)[..n], needClear),
          old(lists.receivers)[n], flags)
      ensures lists.receivers[next..] == old(lists.receivers)[n + 1..]
    {
      var t := lists.receivers[n];
      assert t in lists.receivers;
      clear, next := needClear, n;
      if Satisfied(wishes[t], flags) {
        if !wishes[t].all {
          wishes := wishes[t := wishes[t].(want := wishes[t].want * flags)];
        }
        if wishes[t].clear {
          clear := clear + wishes[t].want;
        }
        WithoutAt(lists.receivers, n);
        lists.Unlink(t, Receiver, Woken(Receiver));
      } else {
        next := n + 1;
      }
    }

    /** The loop of `rt_event_send` over the waiting threads */
    method JudgeAll() returns (needClear: set<nat>)
      requires Sound()
      modifies `wishes, lists
      ensures Sound() && |old(wishes)| == |old(lists.status)| && Below(old(lists.receivers), |old(lists.status)|)
      ensures Verdict(wishes, lists.status, lists.receivers, needClear) ==
        Judged(old(lists.receivers), old(wishes), old(lists.status), flags)
    {
      needClear := {};
      var n := 0;
      ghost var q, wishes0, status0, k := lists.receivers, wishes, lists.status, 0;
      InRange();
      while n < |lists.receivers|
        invariant Sound() && 0 <= n <= |lists.receivers| && 0 <= k <= |q| && |wishes| == |wishes0|
        invariant Verdict(wishes, lists.status, lists.receivers[..n], needClear) ==
          Judged(q[..k], wishes0, status0, flags)
        invariant lists.receivers[n..] == q[k..]
        decreases |q| - k
      {
        assert lists.receivers[n..][0] == q[k..][0] && q[..k + 1][..k] == q[..k] && q[k + 1..] == q[k..][1..];
        needClear, n := Judge(n, needClear);
        k := k + 1;
      }
      assert q[..k] == q && lists.receivers[..n] == lists.receivers;
    }

    lemma InRange()
      requires Sound()
      ensures Below(lists.receivers, |lists.status|)
    {
      forall i | 0 <= i < |lists.receivers| ensures lists.receivers[i] < |lists.status| {
        assert lists.receivers[i] in lists.receivers;
      }
    }

    /** What that comes to, for each flag and for each thread. */
    lemma SendIs(q: seq<nat>, wishes0: seq<Wish>, status0: seq<Status>, flags: set<nat>)
      requires |wishes0| == |status0| && Below(q, |status0|) && Distinct(q)
      ensures
        var v := Judged(q, wishes0, status0, flags);
        && (forall b :: b in v.clear <==>
          exists i :: 0 <= i < |q| && q[i] < |wishes0| && ClearedBy(wishes0[q[i]], flags, b))
        && forall t :: 0 <= t < |wishes0| ==>
          if t in q && Satisfied(wishes0[t], flags)
          then Granting(wishes0[t], v.wishes[t], flags) && v.status[t] == Woken(Receiver)
          else v.wishes[t] == wishes0[t] && v.status[t] == status0[t]
    {
      forall b
        ensures b in Judged(q, wishes0, status0, flags).clear <==>
          exists i :: 0 <= i < |q| && q[i] < |wishes0| && ClearedBy(wishes0[q[i]], flags, b)
      {
        ClearedIsGranted(q, wishes0, status0, flags, b);
        forall i | 0 <= i < |q| ensures b in Clears(wishes0[q[i]], flags) <==> ClearedBy(wishes0[q[i]], flags, b) {
          AllOrAny(wishes0[q[i]], flags);
        }
      }
      forall t | 0 <= t < |wishes0|
        ensures
          var v := Judged(q, wishes0, status0, flags);
          if t in q && Satisfied(wishes0[t], flags)
          then Granting(wishes0[t], v.wishes[t], flags) && v.status[t] == Woken(Receiver)
          else v.wishes[t] == wishes0[t] && v.status[t] == status0[t]
      {
        AllOrAny(wishes0[t], flags);
        if t in q { EachJudged(q, wishes0, status0, flags, t); } else { OthersKept(q, wishes0, status0, flags, t); }
      }
    }

    /** `rt_event_send`: all waiters are judged by the same flags, and what they clear is cleared at the end. */
    method Send(sent: set<nat>) returns (r: Outcome)
      requires Valid()
      modifies `flags, `wishes, lists
      ensures Valid() && View() == Sent(old(View()), sent)
      ensures r == if sent == {} then Failed else Done
      ensures sent == {} ==> View() == old(View())
      // the flags are those that were set or are sent, but for those that a satisfied waiter clears
      ensures sent != {} ==> forall b :: b in flags <==>
        && (b in old(flags) || b in sent)
        && !exists i ::
          && 0 <= i < |old(lists.receivers)| && old(lists.receivers)[i] < |old(wishes)|
          && ClearedBy(old(wishes)[old(lists.receivers)[i]], old(flags) + sent, b)
      // the waiters that the flags satisfy, and no others, are resumed
      ensures sent != {} ==> |wishes| == |old(wishes)| == |lists.status| == |old(lists.status)|
      ensures sent != {} ==> forall t :: 0 <= t < |wishes| ==>
        if t in old(lists.receivers) && Satisfied(old(wishes)[t], old(flags) + sent)
        then Granting(old(wishes)[t], wishes[t], old(flags) + sent) && lists.status[t] == Woken(Receiver)
        else wishes[t] == old(wishes)[t] && lists.status[t] == old(lists.status)[t]
    {
      InRange();
      if sent == {} {
        return Failed;
      }
      flags := flags + sent;
      ghost var q, wishes0, status0 := lists.receivers, wishes, lists.status;
      var needClear := JudgeAll();
      SendIs(q, wishes0, status0, flags);
      forall t | t in lists.receivers ensures t < |wishes| && wishes[t].want != {} && !Satisfied(wishes[t], flags) {
        LeftAreWaiters(q, wishes0, status0, flags);
        EachJudged(q, wishes0, status0, flags, t);
      }
      flags := flags - needClear;
      return Done;
    }

    /** `_rt_event_recv`, up to the point where the thread waits */
    method Recv(t: nat, wish: Wish, timeout: int, at: nat) returns (r: Outcome, recved: set<nat>)
      requires Valid() && t < |lists.status| && lists.status[t] == Running && at <= |lists.receivers|
      modifies `flags, `wishes, lists
      ensures Valid() && |old(wishes)| == |old(lists.status)| && View() == Received(old(View()), t, wish, timeout, at)
      ensures r ==
        if wish.want == {} then Failed
        else if Satisfied(wish, old(flags)) then Done
        else if timeout == 0 then Failed
        else Blocked
      ensures r.Done? ==> recved == old(flags) * wish.want
      ensures r.Done? ==>
        wish.want != {} && if wish.all then wish.want <= old(flags) else exists b :: b in wish.want && b in old(flags)
      // the flags are cleared exactly if the option says so
      ensures r.Done? && wish.clear ==> flags == old(flags) - wish.want
      ensures !(r.Done? && wish.clear) ==> flags == old(flags)
      ensures !r.Blocked? ==> lists.View() == old(lists.View())
      ensures r.Done? ==> wishes == old(wishes)[t := wish.(want := recved)]
      ensures r.Failed? ==> wishes == old(wishes)
      ensures r.Blocked? ==>
        wishes == old(wishes)[t := wish] && Joined(old(lists.View()), lists.View(), t, Receiver, at)
    {
      AllOrAny(wish, flags);
      recved := {};
      if wish.want == {} {
        return Failed, recved;
      }
      assert t !in lists.receivers;
      if Satisfied(wish, flags) {
        recved := flags * wish.want;
        wishes := wishes[t := wish.(want := flags * wish.want)];
        if wish.clear {
          flags := flags - wish.want;
        }
        return Done, recved;
      } else if timeout == 0 {
        return Failed, recved;
      }
      LinkAtMembers(lists.receivers, t, at);
      wishes := wishes[t := wish];
      lists.Suspend(t, Receiver, at);
      return Blocked, recved;
    }

    /** The same receive once more, after one that was granted: it is granted too if and only if the first one did
        not clear the flags. */
    method RecvTwice(t: nat, wish: Wish, timeout: int, at: nat) returns (r: Outcome, recved: set<nat>)
      requires Valid() && t < |lists.status| && lists.status[t] == Running && at <= |lists.receivers|
      requires wish.want != {} && Satisfied(wish, flags)
      modifies `flags, `wishes, lists
      ensures Valid() && (r.Done? <==> !wish.clear)
      ensures r.Done? ==> recved == old(flags) * wish.want && flags == old(flags)
    {
      var _, _ := Recv(t, wish, timeout, at);
      r, recved := Recv(t, wish, timeout, at);
    }

    /** The end of `_rt_event_recv` for a thread that was resumed by a send */
    method Resumed(t: nat) returns (recved: set<nat>)
      requires Valid() && t < |lists.status| && lists.status[t] == Woken(Receiver)
      modifies lists
      ensures Valid() && recved == wishes[t].want && View() == Moved(old(View()), DoResumed(t))
      ensures lists.status == old(lists.status)[t := Running] && lists.receivers == old(lists.receivers)
    {
      lists.Begin(t);
      recved := wishes[t].want;
    }

    /** A waiting thread gives up: its timer, or something else, resumes it with an error. */
    method Expire(t: nat)
      requires Valid() && t < |lists.status| && lists.status[t] == Waiting(Receiver)
      modifies lists
      ensures Valid() && View() == Moved(old(View()), DoExpire(t))
      ensures Departed(old(lists.View()), lists.View(), t)
    {
      WithoutKeepsDistinct(lists.receivers, t);
      WithoutCuts(lists.receivers, t);
      lists.Unlink(t, Receiver, Running);
    }

    /** `rt_event_control` with RT_IPC_CMD_RESET */
    method Reset()
      requires Valid()
      modifies `flags, lists
      ensures Valid() && View() == Moved(old(View()), DoReset)
      ensures flags == {} && NobodyWaits(old(lists.View()), lists.View())
    {
      lists.ResumeAll(Receiver);
      flags := {};
    }

    method Perform(action: Action)
      requires Valid()
      modifies this, lists
      ensures Valid() && View() == Moved(old(View()), action)
    {
      match action
      case DoSend(sent) =>
        var _ := Send(sent);
      case DoRecv(t, wish, timeout, at) =>
        if t < |lists.status| && lists.status[t] == Running && at <= |lists.receivers| {
          var _, _ := Recv(t, wish, timeout, at);
        }
      case DoResumed(t) =>
        if t < |lists.status| && lists.status[t] == Woken(Receiver) {
          var _ := Resumed(t);
        }
      case DoExpire(t) =>
        if t < |lists.status| && lists.status[t] == Waiting(Receiver) {
          Expire(t);
        }
      case DoReset =>
        Reset();
    }

    /** Every run does what its actions, one after another, say; and after it no thread waits for what
        is there. */
    method Run(actions: seq<Action>)
      requires Valid()
      modifies this, lists
      ensures Valid() && View() == AfterAll(old(View()), actions)
      ensures forall t :: t in lists.receivers ==> t < |wishes| && !Satisfied(wishes[t], flags)
    {
      for i := 0 to |actions|
        invariant Valid() && View() == AfterAll(old(View()), actions[..i])
      {
        assert actions[..i + 1][..i] == actions[..i];
        Perform(actions[i]);
      }
      assert actions[..|actions|] == actions;
    }

    /** A run in which thread `t`, which was resumed, does not run itself. */
    method RunOthers(actions: seq<Action>, t: nat, ghost w: Wish)
      requires Valid() && Resumable(View(), t, w) && DoResumed(t) !in actions
      modifies this, lists
      ensures Valid() && Resumable(View(), t, w)
    {
      for i := 0 to |actions|
        invariant Valid() && Resumable(View(), t, w)
      {
        GrantStays(View(), actions[i], t, w);
        assert actions[i] in actions;
        Perform(actions[i]);
      }
    }

    /** A waiting thread that a send satisfies returns with the flags that this send granted to it, whatever
        other threads do with the event before it runs. */
    method SendAndResume(sent: set<nat>, others: seq<Action>, t: nat) returns (recved: set<nat>)
      requires Valid() && t in lists.receivers && sent != {} && DoResumed(t) !in others
      requires t < |wishes| && Satisfied(wishes[t], flags + sent)
      modifies this, lists
      ensures Valid() && recved == Granted(old(wishes)[t], old(flags) + sent)
    {
      ghost var w := wishes[t].(want := Granted(wishes[t], flags + sent));
      SendGrants(View(), sent, t);
      var _ := Send(sent);
      RunOthers(others, t, w);
      recved := Resumed(t);
    }
  }

  lemma WithoutAt(q: seq<nat>, n: nat)
    requires Distinct(q) && n < |q|
    ensures Without(q, q[n]) == q[..n] + q[n + 1..]
  {
    var i := WithoutSplits(q, q[n]);
    assert i == n;
  }
}
