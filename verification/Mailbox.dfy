/**
  Mailboxes (rt-thread/src/ipc.c): a ring buffer with two lists of waiting threads. A call that
  may wait is cut where interrupts are enabled again, so any other step may come in between.
 */
module Mailbox {
  import opened IpcLists
  import opened KernelLists
  import opened Deliveries

  const MB_ENTRY_MAX: nat := 65535    // RT_MB_ENTRY_MAX

  /** Position `k` of a ring of `size` cells that begins at cell `first`. */
  function Cell(first: nat, k: nat, size: nat): int {
    if first + k < size then first + k else first + k - size
  }

  /** The ring of `cells` holds `q`, from cell `first` on. */
  ghost predicate RingHolds(cells: seq<nat>, first: nat, q: seq<nat>) {
    && |q| <= |cells| && (first < |cells| || first == |cells| == 0)
    && forall k {:trigger q[k]} :: 0 <= k < |q| ==> cells[Cell(first, k, |cells|)] == q[k]
  }

  function After(i: nat, size: nat): nat { if i + 1 >= size then 0 else i + 1 }

  function Before(i: nat, size: nat): int { if i > 0 then i - 1 else size - 1 }

  lemma RingPut(cells: seq<nat>, first: nat, q: seq<nat>, v: nat)
    requires RingHolds(cells, first, q) && |q| < |cells|
    ensures 0 <= Cell(first, |q|, |cells|) < |cells|
    ensures RingHolds(cells[Cell(first, |q|, |cells|) := v], first, q + [v])
    ensures After(Cell(first, |q|, |cells|), |cells|) == Cell(first, |q| + 1, |cells|)
  {
  }

  lemma RingPutFirst(cells: seq<nat>, first: nat, q: seq<nat>, v: nat)
    requires RingHolds(cells, first, q) && |q| < |cells|
    ensures 0 <= Before(first, |cells|) < |cells|
    ensures RingHolds(cells[Before(first, |cells|) := v], Before(first, |cells|), [v] + q)
    ensures Cell(Before(first, |cells|), |q| + 1, |cells|) == Cell(first, |q|, |cells|)
  {
    var i := Before(first, |cells|);
    forall k | 0 <= k < |[v] + q| ensures cells[i := v][Cell(i, k, |cells|)] == ([v] + q)[k] {
      if k > 0 { assert q[k - 1] == cells[Cell(first, k - 1, |cells|)]; }
    }
  }

  lemma RingGet(cells: seq<nat>, first: nat, q: seq<nat>)
    requires RingHolds(cells, first, q) && q != []
    ensures cells[first] == q[0] && RingHolds(cells, After(first, |cells|), q[1..])
    ensures Cell(After(first, |cells|), |q| - 1, |cells|) == Cell(first, |q|, |cells|)
  {
    var i := After(first, |cells|);
    assert q[0] == cells[Cell(first, 0, |cells|)];
    forall k | 0 <= k < |q[1..]| ensures cells[Cell(i, k, |cells|)] == q[1..][k] {
      assert q[k + 1] == cells[Cell(first, k + 1, |cells|)];
    }
  }

  /** The critical sections of all calls. A step that cannot be taken in a state does nothing. */
  datatype Action =
    | DoSend(t: nat, value: nat, timeout: int, at: nat)
    | DoSendAgain(t: nat, timeout: int, at: nat)
    | DoUrgent(value: nat)
    | DoRecv(t: nat, timeout: int, at: nat)
    | DoExpire(t: nat)
    | DoReset

  /** A mailbox as its users see it, without the ring. */
  datatype Snapshot = Snapshot(history: History<nat>, mail: seq<nat>, waits: Waits)

  /** One critical section of a send: `t` posts its value, waits, or is refused. */
  function Posted(size: nat, s: Snapshot, t: nat, timeout: int, at: nat): Snapshot
    requires t < |s.mail| && at <= |s.waits.senders|
  {
    var waits := Begun(s.waits, t);
    if |Pending(s.history)| < size then
      s.(history := s.history + [Put(s.mail[t])], waits := FirstWoken(waits, Receiver))
    else if timeout == 0 then s.(waits := waits)
    else s.(waits := Suspended(waits, t, Sender, at))
  }

  /** One critical section of a receive. */
  function Fetched(s: Snapshot, t: nat, timeout: int, at: nat): Snapshot
    requires at <= |s.waits.receivers|
  {
    var waits := Begun(s.waits, t);
    if Pending(s.history) != [] then
      s.(history := s.history + [Got(Pending(s.history)[0])], waits := FirstWoken(waits, Sender))
    else if timeout == 0 then s.(waits := waits)
    else s.(waits := Suspended(waits, t, Receiver, at))
  }

  /** A reset: the messages are gone, and all waiters. */
  function Emptied(s: Snapshot): Snapshot {
    s.(history := s.history + [Cleared], waits := AllGone(AllGone(s.waits, Receiver), Sender))
  }

  predicate Has(s: Snapshot, t: nat, now: Status) {
    t < |s.mail| && t < |s.waits.status| && s.waits.status[t] == now
  }

  /** What a step makes of a mailbox of `size` cells: nothing, where it cannot be taken. */
  function Moved(size: nat, s: Snapshot, a: Action): Snapshot {
    match a
    case DoSend(t, value, timeout, at) =>
      if Has(s, t, Running) && at <= |s.waits.senders| then Posted(size, s.(mail := s.mail[t := value]), t, timeout, at)
      else s
    case DoSendAgain(t, timeout, at) =>
      if Has(s, t, Woken(Sender)) && at <= |s.waits.senders| then Posted(size, s, t, timeout, at) else s
    case DoUrgent(value) =>
      if |Pending(s.history)| < size
      then s.(history := s.history + [PutFirst(value)], waits := FirstWoken(s.waits, Receiver))
      else s
    case DoRecv(t, timeout, at) =>
      if (Has(s, t, Running) || Has(s, t, Woken(Receiver))) && at <= |s.waits.receivers| then Fetched(s, t, timeout, at)
      else s
    case DoExpire(t) =>
      if t < |s.waits.status| && s.waits.status[t].Waiting?
      then s.(waits := GivenUp(s.waits, t, s.waits.status[t].side))
      else s
    case DoReset =>
      Emptied(s)
  }

  lemma SendMoves(size: nat, s: Snapshot, t: nat, value: nat, timeout: int, at: nat)
    requires Has(s, t, Running) && at <= |s.waits.senders|
    ensures Moved(size, s, DoSend(t, value, timeout, at)) ==
      Posted(size, s.(mail := s.mail[t := value]), t, timeout, at)
  {
  }

  lemma SendMovesAgain(size: nat, s: Snapshot, t: nat, timeout: int, at: nat)
    requires Has(s, t, Woken(Sender)) && at <= |s.waits.senders|
    ensures Moved(size, s, DoSendAgain(t, timeout, at)) == Posted(size, s, t, timeout, at)
  {
  }

  function AfterAll(size: nat, s: Snapshot, steps: seq<Action>): Snapshot {
    if steps == [] then s else Moved(size, AfterAll(size, s, steps[..|steps| - 1]), steps[|steps| - 1])
  }

  /** A step in which thread `t` does not begin another send. */
  predicate Meanwhile(a: Action, t: nat) {
    a.DoSend? ==> a.t != t
  }

  lemma MailStays(size: nat, s: Snapshot, a: Action, t: nat)
    requires t < |s.mail| && Meanwhile(a, t)
    ensures t < |Moved(size, s, a).mail| && Moved(size, s, a).mail[t] == s.mail[t]
    ensures s.history <= Moved(size, s, a).history
  {
  }

  /** While a thread waits for room, the value that it sends stays the one given. */
  lemma {:induction false} MailWaits(size: nat, s: Snapshot, steps: seq<Action>, t: nat)
    requires t < |s.mail| && forall i :: 0 <= i < |steps| ==> Meanwhile(steps[i], t)
    ensures t < |AfterAll(size, s, steps).mail| && AfterAll(size, s, steps).mail[t] == s.mail[t]
    ensures s.history <= AfterAll(size, s, steps).history
  {
    if steps != [] {
      var before := steps[..|steps| - 1];
      forall i | 0 <= i < |before| ensures Meanwhile(before[i], t) { assert before[i] == steps[i]; }
      MailWaits(size, s, before, t);
      MailStays(size, AfterAll(size, s, before), steps[|steps| - 1], t);
    }
  }

  class Box {
    const pool: array<nat>   // msg_pool
    const size: nat
    var inOffset: nat
    var outOffset: nat
    var entry: nat
    const lists: Lists
    var mail: seq<nat>       // by thread: the value of its pending send
    ghost var history: History<nat>
    ghost var due: seq<nat>          // what is still to be delivered

    /** The ring holds `q`. */
    ghost predicate Ring(q: seq<nat>)
      reads `inOffset, `outOffset, `entry, pool
    {
      && pool.Length == size <= MB_ENTRY_MAX && entry == |q| && inOffset == Cell(outOffset, entry, size)
      && RingHolds(pool[..], outOffset, q)
    }

    /** The history is one of messages delivered in order, and the ring holds what is still due. */
    ghost predicate Holding()
      reads `inOffset, `outOffset, `entry, `history, `due, pool
    {
      InOrder(history) && due == Pending(history) && Ring(due)
    }

    ghost function View(): Snapshot
      reads this, lists
    {
      Snapshot(history, mail, lists.View())
    }

    ghost predicate Valid()
      reads this, pool, lists
    {
      lists.Valid() && |mail| == |lists.status| && Holding() && lists.NoneLost(entry, size - entry)
    }

    /** `rt_mb_init` */
    constructor (size: nat, threads: nat)
      requires size <= MB_ENTRY_MAX
      ensures Valid() && fresh(pool) && fresh(lists) && |lists.status| == threads
      ensures this.size == size && history == []
    {
      pool := new nat[size](_ => 0);
      this.size := size;
      inOffset, outOffset, entry := 0, 0, 0;
      lists := new Lists(threads);
      mail := seq(threads, _ => 0);
      history, due := [], [];
    }

    // ---------- the ring ----------

    method Store(value: nat)
      requires Holding() && entry < size
      modifies `inOffset, `entry, `history, `due, pool
      ensures Holding() && entry == old(entry) + 1 && history == old(history) + [Put(value)]
    {
      Append(history, Put(value));
      RingPut(pool[..], outOffset, due, value);
      history, due := history + [Put(value)], Step(due, Put(value));
      ghost var cells := pool[..];
      pool[inOffset] := value;
      assert pool[..] == cells[inOffset := value];
      inOffset := inOffset + 1;
      if inOffset >= size {
        inOffset := 0;
      }
      assert entry < MB_ENTRY_MAX;
      entry := entry + 1;
    }

    method StoreFirst(value: nat)
      requires Holding() && entry < size
      modifies `outOffset, `entry, `history, `due, pool
      ensures Holding() && entry == old(entry) + 1 && history == old(history) + [PutFirst(value)]
    {
      Append(history, PutFirst(value));
      RingPutFirst(pool[..], outOffset, due, value);
      history, due := history + [PutFirst(value)], Step(due, PutFirst(value));
      ghost var cells := pool[..];
      if outOffset > 0 {
        outOffset := outOffset - 1;
      } else {
        outOffset := size - 1;
      }
      pool[outOffset] := value;
      assert pool[..] == cells[outOffset := value];
      entry := entry + 1;
    }

    method Fetch() returns (value: nat)
      requires Holding() && entry > 0
      modifies `outOffset, `entry, `history, `due
      ensures Holding() && entry == old(entry) - 1 && history == old(history) + [Got(value)]
      ensures old(due) != [] && value == old(due)[0]
    {
      RingGet(pool[..], outOffset, due);
      value := pool[outOffset];
      Append(history, Got(value));
      history, due := history + [Got(value)], Step(due, Got(value));
      outOffset := outOffset + 1;
      if outOffset >= size {
        outOffset := 0;
      }
      entry := entry - 1;
    }

    // ---------- sending ----------

    /** A thread may enter a call: it runs, and does not come from a list. */
    ghost predicate Ready(t: nat, side: Side)
      reads lists
    {
      t < |lists.status| && (lists.status[t] == Running || lists.status[t] == Woken(side))
    }

    /** The critical section of `_rt_mb_send_wait`, for a thread that enters the call or has been
        woken up in it; `timeout` is what is left of its time. */
    method SendSection(t: nat, timeout: int, at: nat) returns (r: Outcome)
      requires Valid() && Ready(t, Sender) && at <= |lists.senders|
      modifies `inOffset, `entry, `history, `due, pool, lists
      ensures Valid() && |lists.status| == |old(lists.status)|
      ensures r == if old(entry) < size then Done else if timeout == 0 then Failed else Blocked
      ensures t < |old(mail)| && View() == Posted(size, old(View()), t, timeout, at)
      ensures mail == old(mail) && history == if r.Done? then old(history) + [Put(mail[t])] else old(history)
      ensures r.Done? ==> WokeFirst(Begun(old(lists.View()), t), lists.View(), Receiver)
      ensures r.Blocked? ==> Joined(Begun(old(lists.View()), t), lists.View(), t, Sender, at)
    {
      lists.Begin(t);
      if entry == size {
        if timeout == 0 {
          return Failed;
        }
        lists.Suspend(t, Sender, at);
        return Blocked;
      }
      StoreAndWake(mail[t]);
      return Done;
    }

    /** The end of `_rt_mb_send_wait` once there is room. */
    method StoreAndWake(value: nat)
      requires lists.Valid() && |mail| == |lists.status| && Holding() && entry < size
      requires lists.receivers != [] ==> entry <= lists.WokenCount(Receiver)
      requires lists.senders != [] ==> size - entry - 1 <= lists.WokenCount(Sender)
      modifies `inOffset, `entry, `history, `due, pool, lists
      ensures Valid()
      ensures View() == Snapshot(old(history) + [Put(value)], mail, FirstWoken(old(lists.View()), Receiver))
      ensures WokeFirst(old(lists.View()), lists.View(), Receiver)
    {
      Store(value);
      lists.ResumeAny(Receiver);
    }

    /** `rt_mb_send_wait` */
    method Send(t: nat, value: nat, timeout: int, at: nat) returns (r: Outcome)
      requires Valid() && t < |lists.status| && lists.status[t] == Running && at <= |lists.senders|
      modifies this, pool, lists
      ensures Valid() && mail == old(mail)[t := value] && |lists.status| == |old(lists.status)|
      ensures r == if old(entry) < size then Done else if timeout == 0 then Failed else Blocked
      ensures t < |old(mail)| && View() == Posted(size, old(View()).(mail := old(mail)[t := value]), t, timeout, at)
      // the value stored is the one given
      ensures history == if r.Done? then old(history) + [Put(value)] else old(history)
      ensures r.Done? ==> WokeFirst(old(lists.View()), lists.View(), Receiver)
      ensures r.Blocked? ==> Joined(old(lists.View()), lists.View(), t, Sender, at)
    {
      mail := mail[t := value];
      BegunAlready(lists.View(), t);
      r := SendSection(t, timeout, at);
    }

    /** `rt_mb_urgent` */
    method Urgent(value: nat) returns (r: Outcome)
      requires Valid()
      modifies `outOffset, `entry, `history, `due, pool, lists
      ensures Valid() && |lists.status| == |old(lists.status)|
      ensures r == if old(entry) < size then Done else Failed
      ensures View() == Moved(size, old(View()), DoUrgent(value))
      ensures mail == old(mail) && history == if r.Done? then old(history) + [PutFirst(value)] else old(history)
      ensures r.Done? ==> WokeFirst(old(lists.View()), lists.View(), Receiver)
      ensures r.Failed? ==> lists.View() == old(lists.View())
    {
      if entry == size {
        return Failed;
      }
      StoreFirst(value);
      lists.ResumeAny(Receiver);
      return Done;
    }

    // ---------- receiving ----------

    /** The critical section of `_rt_mb_recv`. */
    method Recv(t: nat, timeout: int, at: nat) returns (r: Outcome, value: nat)
      requires Valid() && Ready(t, Receiver) && at <= |lists.receivers|
      modifies `outOffset, `entry, `history, `due, lists
      ensures Valid() && |lists.status| == |old(lists.status)|
      ensures r == if old(entry) > 0 then Done else if timeout == 0 then Failed else Blocked
      ensures r.Done? ==> old(due) != [] && value == old(due)[0]
      ensures View() == Fetched(old(View()), t, timeout, at)
      ensures mail == old(mail) && history == if r.Done? then old(history) + [Got(value)] else old(history)
      ensures r.Done? ==> WokeFirst(Begun(old(lists.View()), t), lists.View(), Sender)
      ensures r.Blocked? ==> Joined(Begun(old(lists.View()), t), lists.View(), t, Receiver, at)
    {
      lists.Begin(t);
      value := 0;
      if entry == 0 {
        if timeout == 0 {
          return Failed, value;
        }
        lists.Suspend(t, Receiver, at);
        return Blocked, value;
      }
      value := FetchAndWake();
      return Done, value;
    }

    /** The end of `_rt_mb_recv` once there is a message. */
    method FetchAndWake() returns (value: nat)
      requires lists.Valid() && |mail| == |lists.status| && Holding() && entry > 0
      requires lists.receivers != [] ==> entry - 1 <= lists.WokenCount(Receiver)
      requires lists.senders != [] ==> size - entry <= lists.WokenCount(Sender)
      modifies `outOffset, `entry, `history, `due, lists
      ensures Valid() && old(due) != [] && value == old(due)[0]
      ensures View() == Snapshot(old(history) + [Got(value)], mail, FirstWoken(old(lists.View()), Sender))
      ensures WokeFirst(old(lists.View()), lists.View(), Sender)
    {
      value := Fetch();
      lists.ResumeAny(Sender);
    }

    // ---------- time-outs and reset ----------

    /** A waiting thread gives up: its timer, or something else, resumes it with an error. */
    method Expire(t: nat)
      requires Valid() && t < |lists.status| && lists.status[t].Waiting?
      modifies lists
      ensures Valid() && View() == Moved(size, old(View()), DoExpire(t))
      ensures Departed(old(lists.View()), lists.View(), t)
    {
      lists.Expire(t);
    }

    /** `rt_mb_control` with RT_IPC_CMD_RESET */
    method Reset()
      requires Valid()
      modifies `inOffset, `outOffset, `entry, `history, `due, lists
      ensures Valid() && |lists.status| == |old(lists.status)|
      ensures entry == 0 && View() == Emptied(old(View()))
      ensures due == [] && NobodyWaits(old(lists.View()), lists.View())
    {
      lists.ResumeAll(Receiver);
      lists.ResumeAll(Sender);
      Append(history, Cleared);
      history, due := history + [Cleared], Step(due, Cleared);
      entry, inOffset, outOffset := 0, 0, 0;
    }

    // ---------- all runs ----------

    /** Performs `step` if it is possible in the current state, else nothing. */
    method Perform(step: Action)
      requires Valid()
      modifies this, pool, lists
      ensures Valid() && View() == Moved(size, old(View()), step)
    {
      match step
      case DoSend(t, value, timeout, at) =>
        TrySend(t, value, timeout, at);
      case DoSendAgain(t, timeout, at) =>
        TryAgain(t, timeout, at);
      case DoUrgent(value) =>
        var _ := Urgent(value);
      case DoRecv(t, timeout, at) =>
        if && t < |lists.status| && (lists.status[t] == Running || lists.status[t] == Woken(Receiver))
           && at <= |lists.receivers|
        {
          var _, _ := Recv(t, timeout, at);
        }
      case DoExpire(t) =>
        if t < |lists.status| && lists.status[t].Waiting? {
          Expire(t);
        }
      case DoReset =>
        Reset();
    }

    method TrySend(t: nat, value: nat, timeout: int, at: nat)
      requires Valid()
      modifies this, pool, lists
      ensures Valid() && View() == Moved(size, old(View()), DoSend(t, value, timeout, at))
    {
      if t < |lists.status| && lists.status[t] == Running && at <= |lists.senders| {
        SendMoves(size, View(), t, value, timeout, at);
        var _ := Send(t, value, timeout, at);
      }
    }

    method TryAgain(t: nat, timeout: int, at: nat)
      requires Valid()
      modifies this, pool, lists
      ensures Valid() && View() == Moved(size, old(View()), DoSendAgain(t, timeout, at))
    {
      if t < |lists.status| && lists.status[t] == Woken(Sender) && at <= |lists.senders| {
        SendMovesAgain(size, View(), t, timeout, at);
        var _ := SendSection(t, timeout, at);
      }
    }

    /** Every run does to the ring and to the lists what the steps, one after another, say; and the
        invariant holds throughout. */
    method Run(steps: seq<Action>)
      requires Valid()
      modifies this, pool, lists
      ensures Valid() && View() == AfterAll(size, old(View()), steps)
    {
      for i := 0 to |steps|
        invariant Valid() && View() == AfterAll(size, old(View()), steps[..i])
      {
        assert steps[..i + 1][..i] == steps[..i];
        Perform(steps[i]);
      }
      assert steps[..|steps|] == steps;
    }

    /** A send that waits: whatever is done before it is tried again, the value stored then is the one that the call
        was given. */
    method SendLater(t: nat, value: nat, timeout: int, at: nat, others: seq<Action>, left: int, again: nat)
      returns (r: Outcome, ghost before: History<nat>)
      requires Valid() && t < |lists.status| && lists.status[t] == Running && at <= |lists.senders|
      requires entry == size && forall i :: 0 <= i < |others| ==> Meanwhile(others[i], t)
      modifies this, pool, lists
      ensures Valid() && old(history) <= before
      ensures history == if r.Done? then before + [Put(value)] else before
    {
      r := Send(t, value, timeout, at);
      MailWaits(size, View(), others, t);
      Run(others);
      before := history;
      if t < |lists.status| && lists.status[t] == Woken(Sender) && again <= |lists.senders| {
        r := SendSection(t, left, again);
      }
    }

    // ---------- what users can rely on ----------

    /** The messages in the ring, oldest first. */
    ghost function Contents(): seq<nat>
      requires Holding()
      reads this, pool
    {
      seq(entry, k requires 0 <= k < entry && Holding() reads this, pool => CellAt(k))
    }

    ghost function CellAt(k: nat): nat
      requires Holding() && k < entry
      reads this, pool
    {
      assert due[k] == pool[..][Cell(outOffset, k, size)];
      pool[Cell(outOffset, k, size)]
    }

    /** Once every resumed thread has run, receivers wait only if there is no message, and senders
        only if there is no room. */
    lemma NoLostWakeUp()
      requires Valid() && forall t :: 0 <= t < |lists.status| ==> !lists.status[t].Woken?
      ensures lists.receivers != [] ==> entry == 0
      ensures lists.senders != [] ==> entry == size
    {
      NoneWoken(lists.status, Receiver);
      NoneWoken(lists.status, Sender);
    }

    /** First in, first out, down to the cells of the ring. */
    lemma FifoInRing()
      requires Valid() && forall i :: 0 <= i < |history| ==> history[i].Put? || history[i].Got?
      ensures Taken(history) + Contents() == Linked(history)
    {
      ContentsAreDue();
      FirstInFirstOut(history);
    }

    /** No message is lost, repeated or made up, down to the cells of the ring. */
    lemma NothingLostInRing()
      requires Valid() && forall i :: 0 <= i < |history| ==> !history[i].Cleared?
      ensures multiset(Taken(history)) + multiset(Contents()) == multiset(Linked(history))
    {
      ContentsAreDue();
      NothingLost(history);
    }

    lemma ContentsAreDue()
      requires Holding()
      ensures Contents() == Pending(history)
    {
      forall k | 0 <= k < entry ensures Contents()[k] == due[k] {
        assert due[k] == pool[..][Cell(outOffset, k, size)];
      }
    }
  }
}
