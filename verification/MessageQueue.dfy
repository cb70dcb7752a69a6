/**
  Message queues (rt-thread/src/ipc.c): nodes of a pool move between a free list and a message
  list. Sending and receiving each take two critical sections, and the thread holds a node of its
  own in between; any step of any other thread or interrupt handler may come there.
 */
module MessageQueue {
  import opened Wrappers
  import opened IpcLists
  import opened KernelLists
  import opened Deliveries
  import opened MessageNodes

  const MQ_ENTRY_MAX: nat := 65535    // RT_MQ_ENTRY_MAX

  type Message = seq<bv8>

  /** How far a thread is with the node that it holds. */
  datatype Stage =
    | Nothing
    | Filling(node: nat, urgent: bool)    // a free node that is to get the message
    | Linking(node: nat, urgent: bool)    // filled, to be linked
    | Copying(node: nat)                  // a message that is to be copied out
    | Releasing(node: nat)                // copied, to be put on the free list

  /** The critical sections of all calls, and what is done between them. A step that cannot be taken
      in a state does nothing. */
  datatype Action =
    | DoSend(t: nat, message: Message, timeout: int, at: nat)
    | DoSendAgain(t: nat, timeout: int, at: nat)
    | DoUrgent(t: nat, message: Message)
    | DoFill(t: nat)
    | DoLink(t: nat)
    | DoRecv(t: nat, timeout: int, at: nat)
    | DoCopy(t: nat, size: nat)
    | DoRelease(t: nat)
    | DoExpire(t: nat)
    | DoReset

  /** A message queue as values: the two lists of nodes, what each thread holds, and who waits. */
  datatype Snapshot = Snapshot(
    free: seq<nat>,
    queued: seq<nat>,
    stage: seq<Stage>,
    buffer: seq<Message>,
    got: seq<Message>,
    history: History<Message>,
    waits: Waits)

  /** The first section of a send: `t` takes a free node, waits, or is refused. */
  function NodeTaken(s: Snapshot, t: nat, timeout: int, at: nat): Snapshot
    requires t < |s.stage| && at <= |s.waits.senders|
  {
    var waits := Begun(s.waits, t);
    if s.free != [] then s.(free := s.free[1..], stage := s.stage[t := Filling(s.free[0], false)], waits := waits)
    else if timeout == 0 then s.(waits := waits)
    else s.(waits := Suspended(waits, t, Sender, at))
  }

  function Sent(msgSize: nat, s: Snapshot, t: nat, message: Message, timeout: int, at: nat): Snapshot
    requires t < |s.stage| == |s.buffer| && at <= |s.waits.senders|
  {
    if |message| > msgSize then s else NodeTaken(s.(buffer := s.buffer[t := message]), t, timeout, at)
  }

  function SentUrgently(msgSize: nat, s: Snapshot, t: nat, message: Message): Snapshot
    requires t < |s.stage| == |s.buffer|
  {
    if |message| > msgSize || s.free == [] then s
    else s.(buffer := s.buffer[t := message], free := s.free[1..], stage := s.stage[t := Filling(s.free[0], true)])
  }

  /** The second section of a send: the message is due last, or first, and a receiver is resumed. */
  function MessageLinked(s: Snapshot, t: nat): Snapshot
    requires t < |s.stage| == |s.buffer| && s.stage[t].Linking?
  {
    NodeLinked(s, t).(waits := FirstWoken(s.waits, Receiver))
  }

  /** The node of thread `t` is on the message list. */
  function NodeLinked(s: Snapshot, t: nat): Snapshot
    requires t < |s.stage| == |s.buffer| && s.stage[t].Linking?
  {
    var n, urgent := s.stage[t].node, s.stage[t].urgent;
    s.(queued := if urgent then [n] + s.queued else s.queued + [n], stage := s.stage[t := Nothing],
       history := s.history + [if urgent then PutFirst(s.buffer[t]) else Put(s.buffer[t])])
  }

  /** The first section of a receive. */
  function MessageTaken(s: Snapshot, t: nat, timeout: int, at: nat): Snapshot
    requires t < |s.stage| == |s.got| && at <= |s.waits.receivers|
  {
    var waits, due := Begun(s.waits, t), Pending(s.history);
    if s.queued != [] && due != [] then
      s.(queued := s.queued[1..], stage := s.stage[t := Copying(s.queued[0])], got := s.got[t := due[0]],
         history := s.history + [Got(due[0])], waits := waits)
    else if timeout == 0 then s.(waits := waits)
    else s.(waits := Suspended(waits, t, Receiver, at))
  }

  /** The second section of a receive: the node is free again and a sender is resumed. */
  function NodeReleased(s: Snapshot, t: nat): Snapshot
    requires t < |s.stage| && s.stage[t].Releasing?
  {
    s.(free := [s.stage[t].node] + s.free, stage := s.stage[t := Nothing], waits := FirstWoken(s.waits, Sender))
  }

  /** `free` after the nodes of `queued`, the first one first, were put in front of it. */
  function AllPushed(queued: seq<nat>, free: seq<nat>): seq<nat> {
    if queued == [] then free else AllPushed(queued[1..], [queued[0]] + free)
  }

  function Cleaned(s: Snapshot): Snapshot {
    s.(free := AllPushed(s.queued, s.free), queued := [], history := s.history + [Cleared],
       waits := AllGone(AllGone(s.waits, Receiver), Sender))
  }

  /** Thread `t` has no node, and is in the given status. */
  predicate Idle(s: Snapshot, t: nat, now: Status) {
    t < |s.stage| == |s.buffer| && |s.got| == |s.stage| == |s.waits.status| && s.stage[t] == Nothing
    && s.waits.status[t] == now
  }

  /** What an action makes of a queue: nothing, where it is not possible. */
  function Moved(msgSize: nat, s: Snapshot, a: Action): Snapshot {
    match a
    case DoSend(t, message, timeout, at) =>
      if Idle(s, t, Running) && at <= |s.waits.senders| then Sent(msgSize, s, t, message, timeout, at) else s
    case DoSendAgain(t, timeout, at) =>
      if Idle(s, t, Woken(Sender)) && at <= |s.waits.senders| then NodeTaken(s, t, timeout, at) else s
    case DoUrgent(t, message) => if Idle(s, t, Running) then SentUrgently(msgSize, s, t, message) else s
    case DoFill(t) =>
      if t < |s.stage| && s.stage[t].Filling?
      then s.(stage := s.stage[t := Linking(s.stage[t].node, s.stage[t].urgent)])
      else s
    case DoLink(t) => if t < |s.stage| == |s.buffer| && s.stage[t].Linking? then MessageLinked(s, t) else s
    case DoRecv(t, timeout, at) =>
      if (Idle(s, t, Running) || Idle(s, t, Woken(Receiver))) && at <= |s.waits.receivers|
      then MessageTaken(s, t, timeout, at)
      else s
    case DoCopy(t, size) =>
      if t < |s.stage| && s.stage[t].Copying? then s.(stage := s.stage[t := Releasing(s.stage[t].node)]) else s
    case DoRelease(t) => if t < |s.stage| && s.stage[t].Releasing? then NodeReleased(s, t) else s
    case DoExpire(t) =>
      if t < |s.waits.status| && s.waits.status[t].Waiting?
      then s.(waits := GivenUp(s.waits, t, s.waits.status[t].side))
      else s
    case DoReset => Cleaned(s)
  }

  function AfterAll(msgSize: nat, s: Snapshot, actions: seq<Action>): Snapshot {
    if actions == [] then s else Moved(msgSize, AfterAll(msgSize, s, actions[..|actions| - 1]), actions[|actions| - 1])
  }

  // ---------- from the message of a call to its delivery ----------

  /** Thread `t` is in a send of `message` and, if it has a node, that is for a message of this urgency. */
  predicate Sending(s: Snapshot, t: nat, message: Message, urgent: bool) {
    && t < |s.stage| == |s.buffer| && s.buffer[t] == message
    && (s.stage[t].Filling? || s.stage[t].Linking? ==> s.stage[t].urgent == urgent)
    && (urgent ==> s.stage[t].Filling? || s.stage[t].Linking?)
  }

  /** A step that does not end the send, or begin another one, of thread `t`. */
  predicate Meanwhile(a: Action, t: nat) {
    match a
    case DoSend(u, _, _, _) => u != t
    case DoUrgent(u, _) => u != t
    case DoLink(u) => u != t
    case _ => true
  }

  lemma SendingStays(msgSize: nat, s: Snapshot, a: Action, t: nat, message: Message, urgent: bool)
    requires Sending(s, t, message, urgent) && Meanwhile(a, t)
    ensures Sending(Moved(msgSize, s, a), t, message, urgent)
    ensures s.history <= Moved(msgSize, s, a).history
    ensures HasNode(s, t) ==> HasNode(Moved(msgSize, s, a), t)
    ensures HasNode(s, t) ==> (Moved(msgSize, s, a).stage[t].Linking? <==> s.stage[t].Linking? || a == DoFill(t))
  {
  }

  predicate HasNode(s: Snapshot, t: nat) {
    t < |s.stage| && (s.stage[t].Filling? || s.stage[t].Linking?)
  }

  lemma {:induction false} SendingGoesOn(msgSize: nat, s: Snapshot, actions: seq<Action>, t: nat, message: Message,
                                         urgent: bool)
    requires Sending(s, t, message, urgent) && forall i :: 0 <= i < |actions| ==> Meanwhile(actions[i], t)
    ensures Sending(AfterAll(msgSize, s, actions), t, message, urgent)
    ensures s.history <= AfterAll(msgSize, s, actions).history
    // with a node, the message is ready to be linked as soon as the node is filled
    ensures HasNode(s, t) ==> HasNode(AfterAll(msgSize, s, actions), t)
    ensures HasNode(s, t) ==>
      (AfterAll(msgSize, s, actions).stage[t].Linking? <==> s.stage[t].Linking? || DoFill(t) in actions)
  {
    if actions != [] {
      var before := actions[..|actions| - 1];
      forall i | 0 <= i < |before| ensures Meanwhile(before[i], t) { assert before[i] == actions[i]; }
      SendingGoesOn(msgSize, s, before, t, message, urgent);
      SendingStays(msgSize, AfterAll(msgSize, s, before), actions[|actions| - 1], t, message, urgent);
    }
  }

  /** Thread `t` has taken `message` and is to copy it. */
  predicate Receiving(s: Snapshot, t: nat, message: Message) {
    t < |s.stage| && t < |s.got| && s.stage[t].Copying? && s.got[t] == message
  }

  lemma ReceivingStays(msgSize: nat, s: Snapshot, a: Action, t: nat, message: Message)
    requires Receiving(s, t, message) && !(a.DoCopy? && a.t == t)
    ensures Receiving(Moved(msgSize, s, a), t, message)
  {
  }

  lemma {:induction false} ReceivingGoesOn(msgSize: nat, s: Snapshot, actions: seq<Action>, t: nat, message: Message)
    requires Receiving(s, t, message)
    requires forall i :: 0 <= i < |actions| ==> !(actions[i].DoCopy? && actions[i].t == t)
    ensures Receiving(AfterAll(msgSize, s, actions), t, message)
  {
    if actions != [] {
      var before := actions[..|actions| - 1];
      forall i | 0 <= i < |before| ensures !(before[i].DoCopy? && before[i].t == t) { assert before[i] == actions[i]; }
      ReceivingGoesOn(msgSize, s, before, t, message);
      ReceivingStays(msgSize, AfterAll(msgSize, s, before), actions[|actions| - 1], t, message);
    }
  }

  class Queue {
    const maxMsgs: nat
    const msgSize: nat
    var next: seq<Link>          // by node
    var data: seq<Message>       // by node: the bytes, as many as its length says
    var head: Link               // msg_queue_head
    var tail: Link               // msg_queue_tail
    var free: Link               // msg_queue_free
    var entry: nat
    const lists: Lists
    var stage: seq<Stage>        // by thread
    var buffer: seq<Message>     // by thread: the message it sends
    ghost var freeNodes: seq<nat>
    ghost var queued: seq<nat>
    ghost var place: seq<Place>
    ghost var history: History<Message>
    ghost var due: seq<Message>     // what is still to be delivered
    ghost var got: seq<Message>     // by thread: the message it has taken

    /** Both lists are linked through the nodes, and every node has one place. */
    ghost predicate Linked()
      reads `next, `data, `head, `tail, `free, `freeNodes, `queued, `place
    {
      && |next| == |data| == |place| == maxMsgs
      && Chain(next, free, freeNodes) && Chain(next, head, queued) && tail == Last(queued)
      && Marked(place, freeNodes, Free) && Marked(place, queued, Queued)
    }

    /** The messages on the list are those that are due, in order. */
    ghost predicate Holding()
      reads `data, `queued, `history, `due
    {
      && InOrder(history) && due == Pending(history) && |due| == |queued|
      && forall i {:trigger queued[i]} :: 0 <= i < |due| ==> queued[i] < |data| && data[queued[i]] == due[i]
    }

    ghost predicate Holds(t: nat, n: nat)
      reads `stage
    {
      t < |stage| && stage[t] != Nothing && stage[t].node == n
    }

    /** Where the places say that a thread has a node, it has; and its contents are its own. */
    ghost predicate Carried(t: nat)
      requires t < |stage|
      reads `next, `data, `place, `stage, `buffer, `got
    {
      stage[t] == Nothing ||
      var n := stage[t].node;
      && n < |place| && place[n] == With(t) && n < |data| && n < |next| && t < |buffer| && t < |got|
      && (stage[t].Linking? ==> data[n] == buffer[t] && (!stage[t].urgent ==> next[n] == None))
      && (stage[t].Copying? ==> data[n] == got[t])
    }

    ghost predicate Carrying()
      reads `next, `data, `place, `stage, `buffer, `got
    {
      && |stage| == |buffer| == |got|
      && (forall t :: 0 <= t < |stage| ==> Carried(t))
      && (forall n :: 0 <= n < |place| && place[n].With? ==> Holds(place[n].thread, n))
    }

    ghost predicate Sound()
      reads this
    {
      Linked() && Holding() && Carrying() && entry == |queued| && maxMsgs <= MQ_ENTRY_MAX
    }

    ghost function View(): Snapshot
      reads this, lists
    {
      Snapshot(freeNodes, queued, stage, buffer, got, history, lists.View())
    }

    ghost predicate Valid()
      reads this, lists
    {
      && Sound() && lists.Valid() && |stage| == |lists.status|
      && (forall t :: 0 <= t < |stage| && stage[t] != Nothing ==> lists.status[t] == Running)
      && lists.NoneLost(entry, |freeNodes|)
    }

    /** `rt_mq_init`: all nodes are linked on the free list, the last one first. */
    constructor (maxMsgs: nat, msgSize: nat, threads: nat)
      requires maxMsgs <= MQ_ENTRY_MAX
      ensures Valid() && fresh(lists) && |stage| == threads && history == [] && |freeNodes| == maxMsgs
    {
      this.maxMsgs, this.msgSize := maxMsgs, msgSize;
      lists := new Lists(threads);
      stage, buffer, got := seq(threads, _ => Nothing), seq(threads, _ => []), seq(threads, _ => []);
      data, next := seq(maxMsgs, _ => []), seq(maxMsgs, _ => None);
      head, tail, free, entry := None, None, None, 0;
      history, due, queued, freeNodes := [], [], [], [];
      place := seq(maxMsgs, _ => With(0));
      new;
      var temp := 0;
      while temp < maxMsgs
        invariant temp <= maxMsgs == |next| == |place| && |freeNodes| == temp
        invariant Chain(next, free, freeNodes) && Marked(place, freeNodes, Free)
        invariant forall n :: 0 <= n < maxMsgs ==> place[n] == if n < temp then Free else With(0)
        modifies `next, `free, `freeNodes, `place
      {
        ChainPush(next, free, freeNodes, temp);
        PlaceAdded(place, freeNodes, Free, temp, 0);
        assert LinkAt(freeNodes, temp, 0) == [temp] + freeNodes;
        next := next[temp := free];
        free := Some(temp);
        freeNodes, place := [temp] + freeNodes, place[temp := Free];
        temp := temp + 1;
      }
    }

    // ---------- nodes ----------

    /** A node belongs to the thread that holds it, and is on neither list. */
    lemma HeldApart(t: nat)
      requires Sound() && t < |stage| && stage[t] != Nothing
      ensures var n := stage[t].node;
        && n < maxMsgs && place[n] == With(t) && n !in freeNodes && n !in queued
        && forall u :: 0 <= u < |stage| && u != t ==> !Holds(u, n)
    {
      assert Carried(t);
      forall u | 0 <= u < |stage| && u != t ensures !Holds(u, stage[t].node) { assert Carried(u); }
    }

    /** A node is taken off the free list. */
    method TakeFree(t: nat, urgent: bool)
      requires Sound() && t < |stage| && stage[t] == Nothing && free.Some?
      modifies `free, `stage, `freeNodes, `place
      ensures Sound() && old(freeNodes) != [] && freeNodes == old(freeNodes)[1..]
      ensures stage == old(stage)[t := Filling(old(freeNodes)[0], urgent)]
    {
      ChainTail(next, free, freeNodes);
      var n := free.value;
      PlaceTaken(place, freeNodes, Free, With(t));
      PlaceMoved(place, queued, Queued, n, With(t));
      free := next[n];
      stage := stage[t := Filling(n, urgent)];
      freeNodes, place := freeNodes[1..], place[n := With(t)];
      forall u | 0 <= u < |stage| ensures Carried(u) { assert old(Carried(u)); }
    }

    /** Between the sections of a send: the message is written into the node. */
    method Fill(t: nat)
      requires Sound() && t < |stage| && stage[t].Filling?
      modifies `next, `data, `stage
      ensures Sound()
      ensures stage == old(stage)[t := Linking(old(stage)[t].node, old(stage)[t].urgent)]
    {
      HeldApart(t);
      var n, urgent := stage[t].node, stage[t].urgent;
      if !urgent {
        ChainKept(next, free, freeNodes, n, None);
        ChainKept(next, head, queued, n, None);
        next := next[n := None];
      }
      data := data[n := buffer[t]];
      stage := stage[t := Linking(n, urgent)];
      forall u | 0 <= u < |stage| ensures Carried(u) { assert old(Carried(u)) && (u != t ==> !old(Holds(u, n))); }
      assert forall m :: 0 <= m < |place| && place[m].With? ==> old(Holds(place[m].thread, m));
      assert forall i :: 0 <= i < |queued| ==> queued[i] in queued;
    }

    /** Node `n` is linked behind the last message. */
    method LinkLast(n: nat)
      requires Linked() && n < maxMsgs && place[n].With? && next[n] == None
      modifies `next, `head, `tail, `queued, `place
      ensures Linked() && queued == old(queued) + [n] && place == old(place)[n := Queued]
      ensures forall m :: 0 <= m < maxMsgs && m !in old(queued) ==> next[m] == old(next)[m]
    {
      PlaceAdded(place, queued, Queued, n, |queued|);
      PlaceMoved(place, freeNodes, Free, n, Queued);
      assert LinkAt(queued, n, |queued|) == queued + [n];
      if tail.Some? {
        assert tail.value in queued;
        ChainAppend(next, head, queued, n);
        ChainKept(next, free, freeNodes, tail.value, Some(n));
        next := next[tail.value := Some(n)];
      }
      tail := Some(n);
      if head == None {
        head := Some(n);
        assert queued == [];
        assert LinksOn(next, [n], 0);
      }
      queued, place := queued + [n], place[n := Queued];
    }

    /** Node `n` is linked in front of the first message. */
    method LinkFirst(n: nat)
      requires Linked() && n < maxMsgs && place[n].With?
      modifies `next, `head, `tail, `queued, `place
      ensures Linked() && queued == [n] + old(queued) && place == old(place)[n := Queued]
      ensures forall m :: 0 <= m < maxMsgs && m != n ==> next[m] == old(next)[m]
    {
      PlaceAdded(place, queued, Queued, n, 0);
      PlaceMoved(place, freeNodes, Free, n, Queued);
      assert LinkAt(queued, n, 0) == [n] + queued;
      ChainPush(next, head, queued, n);
      ChainKept(next, free, freeNodes, n, head);
      next := next[n := head];
      head := Some(n);
      if tail == None {
        tail := Some(n);
      }
      queued, place := [n] + queued, place[n := Queued];
    }

    /** Node `n` is linked at the end, or at the head if it is urgent. */
    method LinkMessage(n: nat, urgent: bool)
      requires Linked() && Holding() && entry == |queued| && maxMsgs <= MQ_ENTRY_MAX
      requires n < maxMsgs && place[n].With? && (!urgent ==> next[n] == None)
      modifies `next, `head, `tail, `entry, `queued, `place, `history, `due
      ensures Linked() && Holding() && entry == |queued| == old(entry) + 1 && place == old(place)[n := Queued]
      ensures queued == if urgent then [n] + old(queued) else old(queued) + [n]
      ensures history == old(history) + [if urgent then PutFirst(data[n]) else Put(data[n])]
      ensures forall m :: 0 <= m < maxMsgs && m != n && m !in old(queued) ==> next[m] == old(next)[m]
    {
      ghost var e := if urgent then PutFirst(data[n]) else Put(data[n]);
      if urgent {
        LinkFirst(n);
      } else {
        LinkLast(n);
      }
      CountFits();
      assert entry < MQ_ENTRY_MAX;
      entry := entry + 1;
      Append(history, e);
      history, due := history + [e], Step(due, e);
    }

    /** There are never more messages than nodes. */
    lemma CountFits()
      requires Linked()
      ensures |queued| <= maxMsgs
    {
      Pigeonhole(queued, maxMsgs);
    }

    /** The second section of a send. */
    method LinkNode(t: nat)
      requires Sound() && t < |stage| && stage[t].Linking?
      modifies `next, `head, `tail, `entry, `stage, `queued, `place, `history, `due
      ensures Sound() && entry == old(entry) + 1 && stage == old(stage)[t := Nothing]
      ensures queued ==
        if old(stage)[t].urgent then [old(stage)[t].node] + old(queued) else old(queued) + [old(stage)[t].node]
      ensures history == old(history) + [if old(stage)[t].urgent then PutFirst(buffer[t]) else Put(buffer[t])]
    {
      HeldApart(t);
      assert Carried(t);
      var n := stage[t].node;
      LinkMessage(n, stage[t].urgent);
      stage := stage[t := Nothing];
      forall u | 0 <= u < |stage| ensures Carried(u) { assert old(Carried(u)) && (u != t ==> !old(Holds(u, n))); }
      assert forall m :: 0 <= m < |place| && place[m].With? ==> old(Holds(place[m].thread, m));
    }

    /** The first section of a receive: the first message is taken off the list. */
    method TakeHead(t: nat)
      requires Sound() && t < |stage| && stage[t] == Nothing && entry > 0
      modifies `head, `tail, `entry, `stage, `queued, `place, `history, `due, `got
      ensures Sound() && entry == old(entry) - 1 && old(queued) != [] && queued == old(queued)[1..]
      ensures stage == old(stage)[t := Copying(old(queued)[0])]
      ensures old(due) != [] && got == old(got)[t := old(due)[0]] && history == old(history) + [Got(got[t])]
    {
      var n := UnlinkHead(t);
      assert due[0] == data[n];
      entry := entry - 1;
      Append(history, Got(due[0]));
      got := got[t := due[0]];
      history, due := history + [Got(due[0])], Step(due, Got(due[0]));
      stage := stage[t := Copying(n)];
      forall u | 0 <= u < |stage| ensures Carried(u) { assert old(Carried(u)); }
    }

    /** The head of the message list goes to thread `t`. */
    method UnlinkHead(t: nat) returns (n: nat)
      requires Linked() && queued != []
      modifies `head, `tail, `queued, `place
      ensures Linked() && n == old(queued)[0] && queued == old(queued)[1..] && n < |place|
      ensures old(place)[n] == Queued && place == old(place)[n := With(t)]
      ensures old(head) == Some(n)
    {
      ChainTail(next, head, queued);
      PlaceTaken(place, queued, Queued, With(t));
      assert queued[0] in queued;
      n := head.value;
      PlaceMoved(place, freeNodes, Free, n, With(t));
      head := next[n];
      if tail == Some(n) {
        tail := None;
      }
      queued, place := queued[1..], place[n := With(t)];
    }

    /** Between the sections of a receive: at most `size` bytes are copied out. */
    method Copy(t: nat, size: nat) returns (r: Message)
      requires Sound() && t < |stage| && stage[t].Copying?
      modifies `stage
      ensures Sound() && stage == old(stage)[t := Releasing(old(stage)[t].node)]
      ensures r == if |got[t]| > size then got[t][..size] else got[t]
    {
      assert Carried(t);
      var n := stage[t].node;
      var len := |data[n]|;
      if len > size {
        len := size;
      }
      r := data[n][..len];
      stage := stage[t := Releasing(n)];
      forall u | 0 <= u < |stage| ensures Carried(u) { assert old(Carried(u)); }
      assert forall m :: 0 <= m < |place| && place[m].With? ==> old(Holds(place[m].thread, m));
    }

    /** The second section of a receive: the node is put on the free list. */
    method ReleaseNode(t: nat)
      requires Sound() && t < |stage| && stage[t].Releasing?
      modifies `next, `free, `stage, `freeNodes, `place
      ensures Sound() && freeNodes == [old(stage)[t].node] + old(freeNodes) && stage == old(stage)[t := Nothing]
    {
      HeldApart(t);
      var n := stage[t].node;
      PushFree(n);
      stage := stage[t := Nothing];
      forall u | 0 <= u < |stage| ensures Carried(u) { assert old(Carried(u)) && (u != t ==> !old(Holds(u, n))); }
      assert forall m :: 0 <= m < |place| && place[m].With? ==> old(Holds(place[m].thread, m));
    }

    method PushFree(n: nat)
      requires Linked() && n < maxMsgs && place[n].With?
      modifies `next, `free, `freeNodes, `place
      ensures Linked() && freeNodes == [n] + old(freeNodes) && place == old(place)[n := Free]
      ensures forall m :: 0 <= m < maxMsgs && m != n ==> next[m] == old(next)[m]
    {
      PlaceAdded(place, freeNodes, Free, n, 0);
      PlaceMoved(place, queued, Queued, n, Free);
      assert LinkAt(freeNodes, n, 0) == [n] + freeNodes;
      ChainPush(next, free, freeNodes, n);
      ChainKept(next, head, queued, n, free);
      next := next[n := free];
      free := Some(n);
      freeNodes, place := [n] + freeNodes, place[n := Free];
    }

    /** The loop of a reset: all messages are put on the free list. */
    method ReleaseAll()
      requires Sound()
      modifies `next, `head, `tail, `free, `entry, `freeNodes, `queued, `place, `history, `due
      ensures Sound() && entry == 0 && queued == [] && freeNodes == AllPushed(old(queued), old(freeNodes))
      ensures history == old(history) + [Cleared]
    {
      while head != None
        invariant Linked() && Carrying() && InOrder(history) && history == old(history)
        invariant AllPushed(queued, freeNodes) == AllPushed(old(queued), old(freeNodes))
        decreases |queued|
      {
        ReleaseHead();
      }
      entry := 0;
      Append(history, Cleared);
      history, due := history + [Cleared], [];
    }

    /** The first message is put on the free list. */
    method ReleaseHead()
      requires Linked() && Carrying() && head != None
      modifies `next, `head, `tail, `free, `freeNodes, `queued, `place
      ensures Linked() && Carrying() && old(queued) != [] && queued == old(queued)[1..]
      ensures freeNodes == [old(queued)[0]] + old(freeNodes)
    {
      var n := UnlinkHead(0);
      PushFree(n);
      forall u | 0 <= u < |stage| ensures Carried(u) { assert old(Carried(u)); }
    }

    // ---------- the critical sections of the calls ----------

    /** A thread may enter a call, or has been woken up in one. */
    ghost predicate Ready(t: nat, side: Side)
      reads `stage, lists
    {
      && t < |stage| == |lists.status| && stage[t] == Nothing
      && (lists.status[t] == Running || lists.status[t] == Woken(side))
    }

    /** The first section of `_rt_mq_send_wait`. */
    method SendSection(t: nat, timeout: int, at: nat) returns (r: Outcome)
      requires Valid() && Ready(t, Sender) && at <= |lists.senders|
      modifies `free, `stage, `freeNodes, `place, lists
      ensures Valid() && View() == NodeTaken(old(View()), t, timeout, at)
      ensures r.Done? ==> old(freeNodes) != [] && stage == old(stage)[t := Filling(old(freeNodes)[0], false)]
      ensures !r.Done? ==> stage == old(stage)
      ensures r.Blocked? ==> Joined(Begun(old(lists.View()), t), lists.View(), t, Sender, at)
      ensures !r.Blocked? ==> lists.View() == Begun(old(lists.View()), t)
      ensures r == if old(freeNodes) != [] then Done else if timeout == 0 then Failed else Blocked
    {
      lists.Begin(t);
      if free == None {
        if timeout == 0 {
          return Failed;
        }
        lists.Suspend(t, Sender, at);
        return Blocked;
      }
      TakeFree(t, false);
      return Done;
    }

    /** `rt_mq_send_wait` */
    method Send(t: nat, message: Message, timeout: int, at: nat) returns (r: Outcome)
      requires Valid() && Ready(t, Sender) && lists.status[t] == Running && at <= |lists.senders|
      modifies `free, `stage, `buffer, `freeNodes, `place, lists
      ensures Valid() && |old(buffer)| == |old(stage)| && View() == Sent(msgSize, old(View()), t, message, timeout, at)
      ensures r ==
        if |message| > msgSize then Failed
        else if old(freeNodes) != [] then Done
        else if timeout == 0 then Failed
        else Blocked
      // the message that is sent is the one given
      ensures buffer == if |message| > msgSize then old(buffer) else old(buffer)[t := message]
      ensures r.Done? ==> old(freeNodes) != [] && stage == old(stage)[t := Filling(old(freeNodes)[0], false)]
      ensures !r.Done? ==> stage == old(stage)
    {
      if |message| > msgSize {
        return Failed;
      }
      SetBuffer(t, message);
      r := SendSection(t, timeout, at);
    }

    method SetBuffer(t: nat, message: Message)
      requires Valid() && t < |stage| && stage[t] == Nothing
      modifies `buffer
      ensures Valid() && buffer == old(buffer)[t := message]
    {
      buffer := buffer[t := message];
      forall u | 0 <= u < |stage| ensures Carried(u) { assert old(Carried(u)); }
    }

    /** The first section of `rt_mq_urgent`, which never waits. */
    method Urgent(t: nat, message: Message) returns (r: Outcome)
      requires Valid() && Ready(t, Sender) && lists.status[t] == Running
      modifies `free, `stage, `buffer, `freeNodes, `place
      ensures Valid() && |old(buffer)| == |old(stage)| && View() == SentUrgently(msgSize, old(View()), t, message)
      ensures r == if |message| > msgSize || old(freeNodes) == [] then Failed else Done
      ensures r.Done? ==> buffer == old(buffer)[t := message]
      ensures r.Done? ==> old(freeNodes) != [] && stage == old(stage)[t := Filling(old(freeNodes)[0], true)]
      ensures !r.Done? ==> buffer == old(buffer) && stage == old(stage)
    {
      if |message| > msgSize {
        return Failed;
      }
      if free == None {
        return Failed;
      }
      SetBuffer(t, message);
      TakeFree(t, true);
      return Done;
    }

    /** The second section of a send: the message is linked, and a receiver resumed. */
    method Link(t: nat)
      requires Valid() && t < |stage| && stage[t].Linking?
      modifies `next, `head, `tail, `entry, `stage, `queued, `place, `history, `due, lists
      ensures Valid() && |old(buffer)| == |old(stage)| && View() == MessageLinked(old(View()), t)
      ensures history == old(history) + [if old(stage)[t].urgent then PutFirst(buffer[t]) else Put(buffer[t])]
      ensures stage == old(stage)[t := Nothing] && WokeFirst(old(lists.View()), lists.View(), Receiver)
    {
      ghost var s := View();
      LinkNode(t);
      ghost var linked := View();
      assert linked == NodeLinked(s, t);
      WakeReceiver();
    }

    /** The end of a send: a receiver is resumed. */
    method WakeReceiver()
      requires Sound() && lists.Valid() && |stage| == |lists.status|
      requires forall t :: 0 <= t < |stage| && stage[t] != Nothing ==> lists.status[t] == Running
      requires entry > 0 && lists.NoneLost(entry - 1, |freeNodes|)
      modifies lists
      ensures Valid() && View() == old(View()).(waits := FirstWoken(old(View()).waits, Receiver))
      ensures WokeFirst(old(lists.View()), lists.View(), Receiver)
    {
      lists.ResumeAny(Receiver);
    }

    /** The first section of `_rt_mq_recv`. */
    method Recv(t: nat, timeout: int, at: nat) returns (r: Outcome)
      requires Valid() && Ready(t, Receiver) && at <= |lists.receivers|
      modifies `head, `tail, `entry, `stage, `queued, `place, `history, `due, `got, lists
      ensures Valid() && |old(got)| == |old(stage)| && View() == MessageTaken(old(View()), t, timeout, at)
      ensures r == if old(entry) > 0 then Done else if timeout == 0 then Failed else Blocked
      // the message that is due first, which is that of the first node
      ensures r.Done? ==> old(due) != [] && old(queued) != [] && |got| == |old(got)| && got[t] == old(due)[0]
      ensures r.Done? ==> stage == old(stage)[t := Copying(old(queued)[0])] && history == old(history) + [Got(got[t])]
      ensures !r.Done? ==> history == old(history) && stage == old(stage)
    {
      lists.Begin(t);
      if entry == 0 {
        if timeout == 0 {
          return Failed;
        }
        lists.Suspend(t, Receiver, at);
        return Blocked;
      }
      TakeHead(t);
      return Done;
    }

    /** The second section of a receive: the node is free again, and a sender resumed. */
    method Release(t: nat)
      requires Valid() && t < |stage| && stage[t].Releasing?
      modifies `next, `free, `stage, `freeNodes, `place, lists
      ensures Valid() && View() == NodeReleased(old(View()), t)
      ensures freeNodes == [old(stage)[t].node] + old(freeNodes) && stage == old(stage)[t := Nothing]
      ensures history == old(history) && WokeFirst(old(lists.View()), lists.View(), Sender)
    {
      ReleaseNode(t);
      lists.ResumeAny(Sender);
    }

    /** A waiting thread gives up: its timer, or something else, resumes it with an error. */
    method Expire(t: nat)
      requires Valid() && t < |lists.status| && lists.status[t].Waiting?
      modifies lists
      ensures Valid() && View() == Moved(msgSize, old(View()), DoExpire(t))
      ensures Departed(old(lists.View()), lists.View(), t)
    {
      lists.Expire(t);
      assert lists.status == old(lists.status)[t := Running];
      assert lists.NoneLost(entry, |freeNodes|) && View() == old(View()).(waits := lists.View());
    }

    /** `rt_mq_control` with RT_IPC_CMD_RESET */
    method Reset()
      requires Valid()
      modifies `next, `head, `tail, `free, `entry, `freeNodes, `queued, `place, `history, `due, lists
      ensures Valid() && entry == 0 && View() == Cleaned(old(View()))
      ensures due == [] && stage == old(stage) && NobodyWaits(old(lists.View()), lists.View())
    {
      lists.ResumeAll(Receiver);
      lists.ResumeAll(Sender);
      ReleaseAll();
    }

    // ---------- all runs ----------

    /** Performs `action` if it is possible in the current state, else nothing. */
    method Perform(action: Action)
      requires Valid()
      modifies this, lists
      ensures Valid() && View() == Moved(msgSize, old(View()), action)
    {
      match action
      case DoSend(_, _, _, _) => PerformSend(action);
      case DoSendAgain(_, _, _) => PerformSend(action);
      case DoUrgent(_, _) => PerformSend(action);
      case DoRecv(t, timeout, at) =>
        if && t < |stage| && stage[t] == Nothing && (lists.status[t] == Running || lists.status[t] == Woken(Receiver))
           && at <= |lists.receivers|
        {
          var _ := Recv(t, timeout, at);
        }
      case DoExpire(t) =>
        if t < |lists.status| && lists.status[t].Waiting? {
          Expire(t);
        }
      case DoReset =>
        Reset();
      case _ => PerformHeld(action);
    }

    method PerformSend(action: Action)
      requires Valid() && (action.DoSend? || action.DoSendAgain? || action.DoUrgent?)
      modifies this, lists
      ensures Valid() && View() == Moved(msgSize, old(View()), action)
    {
      match action
      case DoSend(t, message, timeout, at) =>
        if t < |stage| && stage[t] == Nothing && lists.status[t] == Running && at <= |lists.senders| {
          var _ := Send(t, message, timeout, at);
        }
      case DoSendAgain(t, timeout, at) =>
        if t < |stage| && stage[t] == Nothing && lists.status[t] == Woken(Sender) && at <= |lists.senders| {
          var _ := SendSection(t, timeout, at);
        }
      case DoUrgent(t, message) =>
        if t < |stage| && stage[t] == Nothing && lists.status[t] == Running {
          var _ := Urgent(t, message);
        }
    }

    /** The actions of a thread that holds a node. */
    method PerformHeld(action: Action)
      requires Valid() && (action.DoFill? || action.DoLink? || action.DoCopy? || action.DoRelease?)
      modifies this, lists
      ensures Valid() && View() == Moved(msgSize, old(View()), action)
    {
      match action
      case DoFill(t) =>
        if t < |stage| && stage[t].Filling? {
          Fill(t);
        }
      case DoLink(t) =>
        if t < |stage| && stage[t].Linking? {
          Link(t);
        }
      case DoCopy(t, size) =>
        if t < |stage| && stage[t].Copying? {
          var _ := Copy(t, size);
        }
      case DoRelease(t) =>
        if t < |stage| && stage[t].Releasing? {
          Release(t);
        }
    }

    /** Every run does to nodes, lists and threads what its actions, one after another, say; and the
        invariant holds throughout. */
    method Run(actions: seq<Action>)
      requires Valid()
      modifies this, lists
      ensures Valid() && View() == AfterAll(msgSize, old(View()), actions)
    {
      for i := 0 to |actions|
        invariant Valid() && View() == AfterAll(msgSize, old(View()), actions[..i])
      {
        assert actions[..i + 1][..i] == actions[..i];
        Perform(actions[i]);
      }
      assert actions[..|actions|] == actions;
    }

    /** A send that is not refused for its size, up to the end of the call: whatever is done meanwhile, the message that
        is linked, if the thread gets a node and fills it, is the one that the call was given. */
    method SendAndLink(t: nat, message: Message, timeout: int, at: nat, others: seq<Action>)
      returns (linked: bool, ghost before: History<Message>)
      requires Valid() && Ready(t, Sender) && lists.status[t] == Running && at <= |lists.senders|
      requires |message| <= msgSize && forall i :: 0 <= i < |others| ==> Meanwhile(others[i], t)
      modifies this, lists
      ensures Valid() && old(history) <= before
      ensures history == if linked then before + [Put(message)] else before
      ensures old(free).Some? ==> (linked <==> DoFill(t) in others)
    {
      var _ := Send(t, message, timeout, at);
      linked, before := RunAndLink(t, message, false, others);
    }

    /** The same for an urgent message, if it gets a node. */
    method UrgentAndLink(t: nat, message: Message, others: seq<Action>)
      returns (linked: bool, ghost before: History<Message>)
      requires Valid() && Ready(t, Sender) && lists.status[t] == Running
      requires |message| <= msgSize && free.Some? && forall i :: 0 <= i < |others| ==> Meanwhile(others[i], t)
      modifies this, lists
      ensures Valid() && old(history) <= before
      ensures history == if linked then before + [PutFirst(message)] else before
      ensures linked <==> DoFill(t) in others
    {
      var _ := Urgent(t, message);
      linked, before := RunAndLink(t, message, true, others);
    }

    method RunAndLink(t: nat, message: Message, urgent: bool, others: seq<Action>)
      returns (linked: bool, ghost before: History<Message>)
      requires Valid() && Sending(View(), t, message, urgent)
      requires forall i :: 0 <= i < |others| ==> Meanwhile(others[i], t)
      modifies this, lists
      ensures Valid() && old(history) <= before
      ensures history == if linked then before + [if urgent then PutFirst(message) else Put(message)] else before
      ensures HasNode(old(View()), t) && old(stage)[t].Filling? ==> (linked <==> DoFill(t) in others)
    {
      SendingGoesOn(msgSize, View(), others, t, message, urgent);
      Run(others);
      before, linked := history, stage[t].Linking?;
      if linked {
        Link(t);
      }
    }

    /** A receive that finds a message, up to the copying: whatever is done meanwhile, the bytes are those of the
        message that was due first when it was taken, cut to the size of the buffer. */
    method RecvAndCopy(t: nat, timeout: int, at: nat, others: seq<Action>, size: nat) returns (r: Message)
      requires Valid() && Ready(t, Receiver) && at <= |lists.receivers| && entry > 0
      requires forall i :: 0 <= i < |others| ==> !(others[i].DoCopy? && others[i].t == t)
      modifies this, lists
      ensures old(due) != [] && r == if |old(due)[0]| > size then old(due)[0][..size] else old(due)[0]
    {
      var _ := Recv(t, timeout, at);
      ReceivingGoesOn(msgSize, View(), others, t, got[t]);
      Run(others);
      r := Copy(t, size);
    }

    // ---------- what users can rely on ----------

    /** The nodes that the first `k` threads hold. */
    ghost function Held(k: nat): seq<nat>
      requires k <= |stage|
      reads `stage
    {
      if k == 0 then [] else Held(k - 1) + if stage[k - 1] == Nothing then [] else [stage[k - 1].node]
    }

    lemma {:induction false} HeldNodes(k: nat)
      requires Sound() && k <= |stage|
      ensures Distinct(Held(k))
      ensures forall n: nat :: n in Held(k) <==> n < |place| && place[n].With? && place[n].thread < k
    {
      if k > 0 {
        HeldNodes(k - 1);
        assert Carried(k - 1);
        forall n: nat | n < |place| && place[n] == With(k - 1) ensures Holds(k - 1, n) {
          assert Holds(place[n].thread, n);
        }
      }
    }

    /** Nodes are conserved: those on the two lists and those held between two sections are all. */
    lemma NodesConserved()
      requires Valid()
      ensures |freeNodes| + entry + |Held(|stage|)| == maxMsgs
    {
      HeldNodes(|stage|);
      forall n: nat | n < |place| && place[n].With? ensures place[n].thread < |stage| {
        assert Holds(place[n].thread, n);
      }
      AllNodes(place, freeNodes, queued, Held(|stage|));
    }

    /** No node is in two places. */
    lemma OnePlaceOnly(n: nat, t: nat)
      requires Valid() && Holds(t, n)
      ensures n < maxMsgs && n !in freeNodes && n !in queued && forall u :: u != t ==> !Holds(u, n)
    {
      HeldApart(t);
    }

    /** Once every resumed thread has run, receivers wait only if there is no message, and senders
        only if there is no free node. */
    lemma NoLostWakeUp()
      requires Valid() && forall t :: 0 <= t < |lists.status| ==> !lists.status[t].Woken?
      ensures lists.receivers != [] ==> head == None
      ensures lists.senders != [] ==> free == None
    {
      NoneWoken(lists.status, Receiver);
      NoneWoken(lists.status, Sender);
    }

    /** The messages on the message list, in the order of its pointers. */
    ghost function Contents(): seq<Message>
      requires Linked()
      reads this
    {
      seq(|queued|, i requires 0 <= i < |queued| && Linked() reads this => DataAt(i))
    }

    ghost function DataAt(i: nat): Message
      requires Linked() && i < |queued|
      reads this
    {
      assert queued[i] in queued;
      data[queued[i]]
    }

    /** First in, first out, down to the nodes. */
    lemma FifoInNodes()
      requires Valid() && forall i :: 0 <= i < |history| ==> history[i].Put? || history[i].Got?
      ensures Taken(history) + Contents() == Deliveries.Linked(history)
    {
      assert Contents() == due;
      FirstInFirstOut(history);
    }

    /** No message is lost, repeated or made up, down to the nodes. */
    lemma NothingLostInNodes()
      requires Valid() && forall i :: 0 <= i < |history| ==> !history[i].Cleared?
      ensures multiset(Taken(history)) + multiset(Contents()) == multiset(Deliveries.Linked(history))
    {
      assert Contents() == due;
      NothingLost(history);
    }
  }
}
