/**
  The two lists of suspended threads of a mailbox or message queue, and the helpers that suspend
  and resume threads on them (rt-thread/src/ipc.c, `_ipc_list_suspend`, `_ipc_list_resume` and
  `_ipc_list_resume_all`). Every method is one critical section, or a part of one.
 */
module IpcLists {
  import opened KernelLists

  datatype Side = Receiver | Sender

  /** A thread as far as one IPC object is concerned. `Woken` is a thread that was resumed with
      `error == RT_EOK` and has not yet run to look at the object again. */
  datatype Status = Running | Waiting(side: Side) | Woken(side: Side)

  /** How a critical section of a call ends: done, with an error, or with the thread suspended. */
  datatype Outcome = Done | Failed | Blocked

  function Other(side: Side): Side { if side.Sender? then Receiver else Sender }

  /** The threads that have been resumed and not yet run. */
  function WokenIn(status: seq<Status>, side: Side): nat {
    if status == [] then 0 else (if status[0] == Woken(side) then 1 else 0) + WokenIn(status[1..], side)
  }

  lemma {:induction false} StatusChange(status: seq<Status>, t: nat, now: Status, side: Side)
    requires t < |status|
    ensures WokenIn(status[t := now], side) ==
      WokenIn(status, side) + (if now == Woken(side) then 1 else 0) - (if status[t] == Woken(side) then 1 else 0)
  {
    if t == 0 {
      assert status[t := now][1..] == status[1..];
    } else {
      assert status[t := now][1..] == status[1..][t - 1 := now];
      StatusChange(status[1..], t - 1, now, side);
    }
  }

  lemma {:induction false} NoneWoken(status: seq<Status>, side: Side)
    requires forall t :: 0 <= t < |status| ==> !status[t].Woken?
    ensures WokenIn(status, side) == 0
  {
    if status != [] {
      NoneWoken(status[1..], side);
    }
  }

  /** Both lists and the threads, as values. */
  datatype Waits = Waits(status: seq<Status>, receivers: seq<nat>, senders: seq<nat>)

  function QueueOf(w: Waits, side: Side): seq<nat> {
    if side.Receiver? then w.receivers else w.senders
  }

  function WithQueue(w: Waits, side: Side, q: seq<nat>): Waits {
    if side.Receiver? then w.(receivers := q) else w.(senders := q)
  }

  function Turned(w: Waits, t: nat, now: Status): Waits {
    if t < |w.status| then w.(status := w.status[t := now]) else w
  }

  function Begun(w: Waits, t: nat): Waits { Turned(w, t, Running) }

  lemma BegunAlready(w: Waits, t: nat)
    requires t < |w.status| && w.status[t] == Running
    ensures Begun(w, t) == w
  {
  }

  function Suspended(w: Waits, t: nat, side: Side, at: nat): Waits
    requires at <= |QueueOf(w, side)|
  {
    WithQueue(Turned(w, t, Waiting(side)), side, LinkAt(QueueOf(w, side), t, at))
  }

  /** The first waiter, if there is one, is on its way. */
  function FirstWoken(w: Waits, side: Side): Waits {
    var q := QueueOf(w, side);
    if q == [] then w else WithQueue(Turned(w, q[0], Woken(side)), side, q[1..])
  }

  function NoneWaiting(status: seq<Status>, side: Side): seq<Status> {
    seq(|status|, t requires 0 <= t < |status| => if status[t] == Waiting(side) then Running else status[t])
  }

  function AllGone(w: Waits, side: Side): Waits {
    WithQueue(w.(status := NoneWaiting(w.status, side)), side, [])
  }

  function GivenUp(w: Waits, t: nat, side: Side): Waits {
    WithQueue(Turned(w, t, Running), side, Without(QueueOf(w, side), t))
  }

  /** From `w` to `w1` the first thread that waits on this side, if there is one, was resumed, and nothing else. */
  ghost predicate WokeFirst(w: Waits, w1: Waits, side: Side) {
    var q := QueueOf(w, side);
    && QueueOf(w1, Other(side)) == QueueOf(w, Other(side))
    && if q == [] || q[0] >= |w.status| then w1.status == w.status && QueueOf(w1, side) == q
       else w1.status == w.status[q[0] := Woken(side)] && QueueOf(w1, side) == q[1..]
  }

  /** Thread `t`, which did not wait before, waits at position `at`. */
  ghost predicate Joined(w: Waits, w1: Waits, t: nat, side: Side, at: nat) {
    && t < |w.status| && at <= |QueueOf(w, side)| && QueueOf(w1, Other(side)) == QueueOf(w, Other(side))
    && w1.status == w.status[t := Waiting(side)]
    && QueueOf(w1, side) == QueueOf(w, side)[..at] + [t] + QueueOf(w, side)[at..]
  }

  /** Thread `t` has left its list, and runs; the others keep their order. */
  ghost predicate Departed(w: Waits, w1: Waits, t: nat) {
    && t < |w.status| && w.status[t].Waiting? && w1.status == w.status[t := Running]
    && var side := w.status[t].side;
       var q := QueueOf(w, side);
       QueueOf(w1, Other(side)) == QueueOf(w, Other(side)) && CutOut(q, t, QueueOf(w1, side))
  }

  /** Nobody waits any more; those that did run, without having been promised anything. */
  ghost predicate NobodyWaits(w: Waits, w1: Waits) {
    && w1.receivers == [] && w1.senders == [] && |w1.status| == |w.status|
    && forall t :: 0 <= t < |w.status| ==> w1.status[t] == if w.status[t].Waiting? then Running else w.status[t]
  }

  class Lists {
    var status: seq<Status>     // by thread
    var receivers: seq<nat>     // parent.suspend_thread
    var senders: seq<nat>       // suspend_sender_thread

    function Queue(side: Side): seq<nat>
      reads this
    {
      if side.Receiver? then receivers else senders
    }

    function View(): Waits
      reads this
    {
      Waits(status, receivers, senders)
    }

    ghost predicate Valid()
      reads this
    {
      Marked(status, receivers, Waiting(Receiver)) && Marked(status, senders, Waiting(Sender))
    }

    function WokenCount(side: Side): nat
      reads this
    {
      WokenIn(status, side)
    }

    /** No wake-up is lost: while threads wait, all that they wait for has been promised to others
        that are on their way. */
    ghost predicate NoneLost(messages: nat, room: nat)
      reads this
    {
      && (receivers != [] ==> messages <= WokenCount(Receiver))
      && (senders != [] ==> room <= WokenCount(Sender))
    }

    constructor (threads: nat)
      ensures Valid() && receivers == [] && senders == []
      ensures |status| == threads && forall t :: 0 <= t < threads ==> status[t] == Running
    {
      status := seq(threads, _ => Running);
      receivers, senders := [], [];
    }

    /** A resumed thread runs again. */
    method Begin(t: nat)
      requires Valid() && t < |status| && !status[t].Waiting?
      modifies `status
      ensures Valid() && View() == Begun(old(View()), t)
      ensures WokenCount(Receiver) == old(WokenCount(Receiver)) - (if old(status)[t] == Woken(Receiver) then 1 else 0)
      ensures WokenCount(Sender) == old(WokenCount(Sender)) - (if old(status)[t] == Woken(Sender) then 1 else 0)
    {
      StatusChange(status, t, Running, Receiver);
      StatusChange(status, t, Running, Sender);
      status := status[t := Running];
    }

    /** `_ipc_list_suspend`: the thread is linked at the position that the flag of the object asks
        for, which may be any. */
    method Suspend(t: nat, side: Side, at: nat)
      requires Valid() && t < |status| && status[t] == Running && at <= |Queue(side)|
      modifies this
      ensures Valid() && View() == Suspended(old(View()), t, side, at)
      ensures Joined(old(View()), View(), t, side, at)
      ensures WokenCount(Receiver) == old(WokenCount(Receiver)) && WokenCount(Sender) == old(WokenCount(Sender))
    {
      LinkAtMembers(Queue(side), t, at);
      StatusChange(status, t, Waiting(side), Receiver);
      StatusChange(status, t, Waiting(side), Sender);
      if side.Receiver? {
        receivers := LinkAt(receivers, t, at);
      } else {
        senders := LinkAt(senders, t, at);
      }
      status := status[t := Waiting(side)];
    }

    /** Thread `t` is taken off its list, and gets a new status. */
    method Unlink(t: nat, side: Side, now: Status)
      requires Valid() && t in Queue(side) && !now.Waiting?
      modifies this
      ensures Valid() && t < |old(status)| && status == old(status)[t := now]
      ensures Queue(side) == Without(old(Queue(side)), t) && Queue(Other(side)) == old(Queue(Other(side)))
      ensures WokenCount(Receiver) == old(WokenCount(Receiver)) + (if now == Woken(Receiver) then 1 else 0)
      ensures WokenCount(Sender) == old(WokenCount(Sender)) + (if now == Woken(Sender) then 1 else 0)
    {
      assert t !in Queue(Other(side));
      WithoutKeepsDistinct(Queue(side), t);
      StatusChange(status, t, now, Receiver);
      StatusChange(status, t, now, Sender);
      if side.Receiver? {
        receivers := Without(receivers, t);
      } else {
        senders := Without(senders, t);
      }
      status := status[t := now];
    }

    /** `_ipc_list_resume`: the first thread on the list is resumed. */
    method Resume(side: Side)
      requires Valid() && Queue(side) != []
      modifies this
      ensures Valid() && View() == FirstWoken(old(View()), side)
      ensures old(Queue(side))[0] < |old(status)| && status == old(status)[old(Queue(side))[0] := Woken(side)]
      ensures Queue(side) == old(Queue(side))[1..] && Queue(Other(side)) == old(Queue(Other(side)))
      ensures WokenCount(side) == old(WokenCount(side)) + 1 && WokenCount(Other(side)) == old(WokenCount(Other(side)))
    {
      assert Queue(side)[0] in Queue(side);
      Unlink(Queue(side)[0], side, Woken(side));
    }

    /** "resume suspended thread", if there is one */
    method ResumeAny(side: Side)
      requires Valid()
      modifies this
      ensures Valid() && View() == FirstWoken(old(View()), side)
      ensures WokeFirst(old(View()), View(), side) && (old(Queue(side)) != [] ==> old(Queue(side))[0] < |old(status)|)
      ensures WokenCount(Other(side)) == old(WokenCount(Other(side)))
      ensures WokenCount(side) == old(WokenCount(side)) + if old(Queue(side)) == [] then 0 else 1
    {
      if Queue(side) != [] {
        Resume(side);
      }
    }

    /** `_ipc_list_resume_all`: all threads on the list return with an error. */
    method ResumeAll(side: Side)
      requires Valid()
      modifies this
      ensures Valid() && View() == AllGone(old(View()), side)
      ensures Queue(side) == [] && Queue(Other(side)) == old(Queue(Other(side))) && |status| == |old(status)|
      ensures forall t :: 0 <= t < |status| ==>
        status[t] == if old(status)[t] == Waiting(side) then Running else old(status)[t]
      ensures WokenCount(Receiver) == old(WokenCount(Receiver)) && WokenCount(Sender) == old(WokenCount(Sender))
    {
      while Queue(side) != []
        invariant Valid() && Queue(Other(side)) == old(Queue(Other(side))) && |status| == |old(status)|
        invariant forall t :: 0 <= t < |status| ==>
          status[t] == if old(status)[t] == Waiting(side) && t !in Queue(side) then Running else old(status)[t]
        invariant WokenCount(Receiver) == old(WokenCount(Receiver)) && WokenCount(Sender) == old(WokenCount(Sender))
        decreases |Queue(side)|
      {
        Unlink(Queue(side)[0], side, Running);
      }
      assert status == NoneWaiting(old(status), side);
    }

    /** A thread leaves its list with an error: its timer runs out, or something else resumes it. */
    method Expire(t: nat)
      requires Valid() && t < |status| && status[t].Waiting?
      modifies this
      ensures Valid() && View() == GivenUp(old(View()), t, old(status)[t].side)
      ensures Departed(old(View()), View(), t)
      ensures (old(receivers) == [] ==> receivers == []) && (old(senders) == [] ==> senders == [])
      ensures WokenCount(Receiver) == old(WokenCount(Receiver)) && WokenCount(Sender) == old(WokenCount(Sender))
    {
      var side := status[t].side;
      WithoutCuts(Queue(side), t);
      Unlink(t, side, Running);
    }
  }
}
