/**
  The multiprocessor scheduler (rt-thread/src/scheduler_mp.c) with up to 32 priorities: a ready queue
  for threads that may run anywhere, and one for the threads bound to each processor.
 */
module MultiScheduler {
  import opened KernelLists
  import opened PriorityBits
  import opened ReadyQueue
  import opened Scheduler
  import opened Wrappers

  type Owner = Option<nat>    // the processor that a thread is bound to, if any

  const NO_PRIORITY: int := 0xFFFF_FFFF    // what the lookup finds in an empty queue

  /** The priority that the lookup finds. */
  function Urgency(r: Ready): int {
    if r.group == 0 then NO_PRIORITY else Highest(r)
  }

  /** Priority `p` is the most urgent with a ready thread. */
  ghost predicate MostUrgent(r: Ready, p: nat) {
    p < |r.table| && r.table[p] != [] && forall q :: 0 <= q < p ==> r.table[q] == []
  }

  ghost predicate LessUrgent(r: Ready, p: nat) {
    forall q :: 0 <= q <= p && q < |r.table| ==> r.table[q] == []
  }

  lemma UrgencyIs(r: Ready, p: nat)
    requires Agrees(r) && p < PRIORITIES
    ensures MostUrgent(r, p) ==> Urgency(r) == p
    ensures LessUrgent(r, p) ==> Urgency(r) > p
  {
    HighestIsLeast(r);
  }

  /** The threads as the queue of `o` sees them: which of its own are ready. */
  ghost function Seen(stat: seq<Stat>, bind: seq<Owner>, o: Owner): (s: seq<Stat>)
    requires |stat| == |bind|
    ensures |s| == |stat|
    ensures forall t :: 0 <= t < |s| ==> s[t] == if stat[t] == IsReady && bind[t] == o then IsReady else Initial
  {
    seq(|stat|, t requires 0 <= t < |stat| == |bind| => if stat[t] == IsReady && bind[t] == o then IsReady else Initial)
  }

  /** The queue of `o` is in order. */
  ghost predicate InOrder(r: Ready, o: Owner, stat: seq<Stat>, priority: seq<nat>, bind: seq<Owner>) {
    Agrees(r) && |stat| == |priority| == |bind| && AllListed(r.table, Seen(stat, bind, o), priority)
  }

  lemma InsertInOrder(r: Ready, o: Owner, stat: seq<Stat>, priority: seq<nat>, bind: seq<Owner>, t: nat, last: bool)
    requires InOrder(r, o, stat, priority, bind) && t < |stat| && stat[t] != IsReady && priority[t] < PRIORITIES
    ensures InOrder(if bind[t] == o then Inserted(r, priority[t], t, last) else r,
                    o, stat[t := IsReady], priority, bind)
  {
    if bind[t] == o {
      InsertedAgrees(r, priority[t], t, last);
      InsertKeepsListed(r.table, Seen(stat, bind, o), priority, t, last);
      assert Seen(stat[t := IsReady], bind, o) == Seen(stat, bind, o)[t := IsReady];
    } else {
      assert Seen(stat[t := IsReady], bind, o) == Seen(stat, bind, o);
    }
  }

  lemma RemoveInOrder(r: Ready, o: Owner, stat: seq<Stat>, priority: seq<nat>, bind: seq<Owner>, t: nat, now: Stat)
    requires InOrder(r, o, stat, priority, bind) && t < |stat| && now != IsReady && priority[t] < PRIORITIES
    ensures InOrder(if bind[t] == o then Removed(r, priority[t], t) else r, o, stat[t := now], priority, bind)
  {
    if bind[t] == o {
      RemovedAgrees(r, priority[t], t);
      RemoveKeepsListed(r.table, Seen(stat, bind, o), priority, t, Initial);
      assert Seen(stat[t := now], bind, o) == Seen(stat, bind, o)[t := Initial];
    } else {
      assert Seen(stat[t := now], bind, o) == Seen(stat, bind, o);
    }
  }

  /** The priority of a thread that is not ready does not matter to any queue. */
  lemma PriorityInOrder(r: Ready, o: Owner, stat: seq<Stat>, priority: seq<nat>, bind: seq<Owner>, t: nat, p: nat)
    requires InOrder(r, o, stat, priority, bind) && t < |stat| && stat[t] != IsReady
    ensures InOrder(r, o, stat, priority[t := p], bind)
  {
    PriorityKeepsListed(r.table, Seen(stat, bind, o), priority, t, p);
  }

  /** A ready thread is on the queue it belongs to, and so no more urgent than its first. */
  lemma ReadyIsListed(r: Ready, o: Owner, stat: seq<Stat>, priority: seq<nat>, bind: seq<Owner>, t: nat)
    requires InOrder(r, o, stat, priority, bind) && t < |stat| && stat[t] == IsReady && bind[t] == o
    requires priority[t] < PRIORITIES
    ensures r.group != 0 && Urgency(r) <= priority[t]
  {
    assert ListedAt(r.table[priority[t]], Seen(stat, bind, o), priority, priority[t]);
    HighestIsLeast(r);
  }

  /** The first thread of a queue. */
  lemma FirstIsReady(r: Ready, o: Owner, stat: seq<Stat>, priority: seq<nat>, bind: seq<Owner>)
    requires InOrder(r, o, stat, priority, bind) && r.group != 0
    ensures 0 <= Urgency(r) < PRIORITIES && r.table[Urgency(r)] != []
    ensures
      var t := r.table[Urgency(r)][0];
      t < |stat| && stat[t] == IsReady && bind[t] == o && priority[t] == Urgency(r)
  {
    HighestIsLeast(r);
    var h: nat := Highest(r);
    assert ListedAt(r.table[h], Seen(stat, bind, o), priority, h) && r.table[h][0] in r.table[h];
  }

  lemma RotatedBySteps(r: Ready, t: nat, p: nat)
    requires |r.table| == PRIORITIES && p < PRIORITIES
    ensures r.table[p] != [] ==>
      Removed(Inserted(r, p, t, true), p, r.table[p][0]).table == r.table[p := r.table[p][1..] + [t]]
  {
    if r.table[p] != [] {
      assert (r.table[p] + [t])[1..] == r.table[p][1..] + [t];
    }
  }

  /** The processors that are sent an interrupt when processor `cpu` makes a thread ready: all others that may
      run it. */
  function Others(o: Owner, cpu: nat, cpus: nat): (s: set<nat>)
    ensures forall c :: c in s <==> 0 <= c < cpus && c != cpu && (o == None || o == Some(c))
  {
    set c: nat | c < cpus && c != cpu && (o == None || o == Some(c))
  }

  /** `current` and `oncpu` say the same, processor `but` apart, which has no thread; and only threads on a processor
      run. */
  ghost predicate OnProcessors(stat: seq<Stat>, current: seq<nat>, oncpu: seq<Owner>, but: Owner) {
    && |stat| == |oncpu| && (forall c :: 0 <= c < |current| ==> current[c] < |stat|)
    && (forall c :: 0 <= c < |current| && but != Some(c) ==>
      oncpu[current[c]] == Some(c) && stat[current[c]] != IsReady)
    && (forall t :: 0 <= t < |stat| && oncpu[t].Some? ==>
      oncpu[t].value < |current| && oncpu[t] != but && current[oncpu[t].value] == t)
    && (forall t :: 0 <= t < |stat| && stat[t] == IsRunning ==> oncpu[t].Some?)
  }

  ghost predicate Serves(stat: seq<Stat>, current: seq<nat>, priority: seq<nat>, bind: seq<Owner>, cpu: nat)
    requires |stat| == |priority| == |bind| && cpu < |current| && current[cpu] < |stat|
  {
    forall t :: 0 <= t < |stat| && stat[t] == IsReady && (bind[t] == None || bind[t] == Some(cpu)) ==>
      stat[current[cpu]] == IsRunning && priority[current[cpu]] <= priority[t]
  }

  /** A thread leaves its processor. */
  lemma Leaves(stat: seq<Stat>, current: seq<nat>, oncpu: seq<Owner>, cpu: nat, now: Stat)
    requires OnProcessors(stat, current, oncpu, None) && cpu < |current| && now != IsRunning
    ensures OnProcessors(stat[current[cpu] := now], current, oncpu[current[cpu] := None], Some(cpu))
  {
  }

  /** A ready thread comes to a processor without one. */
  lemma Enters(stat: seq<Stat>, current: seq<nat>, oncpu: seq<Owner>, cpu: nat, to: nat)
    requires OnProcessors(stat, current, oncpu, Some(cpu)) && cpu < |current| && to < |stat| && stat[to] == IsReady
    ensures OnProcessors(stat[to := IsRunning], current[cpu := to], oncpu[to := Some(cpu)], None)
  {
  }

  class Multiprocessor {
    var global: Ready          // rt_thread_priority_table and its word
    var local: seq<Ready>      // by processor: priority_table and priority_group
    var stat: seq<Stat>        // by thread
    var yielding: seq<bool>
    var priority: seq<nat>
    var bind: seq<Owner>       // bind_cpu
    var oncpu: seq<Owner>
    var lockNest: seq<int>     // scheduler_lock_nest, as the scheduler finds it when its own lock is taken
    var current: seq<nat>      // by processor: current_thread
    var irqNest: seq<nat>
    var irqSwitch: seq<bool>   // irq_switch_flag
    var ipi: set<nat>          // processors with a pending RT_SCHEDULE_IPI

    ghost predicate Queues()
      reads `global, `local, `stat, `priority, `bind
    {
      && InOrder(global, None, stat, priority, bind)
      && forall c :: 0 <= c < |local| ==> InOrder(local[c], Some(c), stat, priority, bind)
    }

    ghost predicate Sound()
      reads this
    {
      && |stat| == |yielding| == |priority| == |bind| == |oncpu| == |lockNest|
      && |local| == |current| == |irqNest| == |irqSwitch|
      && (forall t :: 0 <= t < |stat| ==> priority[t] < PRIORITIES && (bind[t].Some? ==> bind[t].value < |local|))
      && (forall c :: 0 <= c < |current| ==> current[c] < |stat|)
      && Queues()
    }

    /** `oncpu` and `current` say the same, and only threads on a processor run. */
    ghost predicate Valid()
      reads this
    {
      Sound() && OnProcessors(stat, current, oncpu, None)
    }

    /** Processor `c` runs thread `c`; no other thread has been started yet. */
    constructor (cpus: nat, threads: nat)
      requires cpus <= threads
      ensures Valid() && |current| == cpus && |stat| == threads
      ensures forall c :: 0 <= c < cpus ==> current[c] == c && irqNest[c] == 0 && !irqSwitch[c]
      ensures ipi == {} && forall t :: 0 <= t < |stat| ==> lockNest[t] == 1 && bind[t] == None && priority[t] == 0
      ensures forall t :: 0 <= t < |stat| ==> stat[t] == if t < cpus then IsRunning else Initial
    {
      global, local := EMPTY, seq(cpus, _ => EMPTY);
      stat := seq(threads, t => if t < cpus then IsRunning else Initial);
      yielding, priority := seq(threads, _ => false), seq(threads, _ => 0);
      bind, oncpu := seq(threads, _ => None), seq(threads, t => if t < cpus then Some(t) else None);
      lockNest := seq(threads, _ => 1);
      current, irqNest, irqSwitch, ipi := seq(cpus, c => c), seq(cpus, _ => 0), seq(cpus, _ => false), {};
      new;
      EmptyAgrees();
      assert forall o: Owner, p :: 0 <= p < PRIORITIES ==> ListedAt([], Seen(stat, bind, o), priority, p);
    }

    /** `rt_schedule_insert_thread` on processor `cpu` */
    method InsertThread(t: nat, cpu: nat)
      requires Sound() && t < |stat| && stat[t] != IsReady
      modifies `global, `local, `stat, `ipi
      ensures Sound() && ipi == if oncpu[t].Some? then old(ipi) else old(ipi) + Others(bind[t], cpu, |current|)
      ensures oncpu[t].Some? ==> stat == old(stat)[t := IsRunning] && global == old(global) && local == old(local)
      ensures oncpu[t].None? ==> stat == old(stat)[t := IsReady]
      ensures oncpu[t].None? && bind[t].None? ==>
        local == old(local) && global == Inserted(old(global), priority[t], t, yielding[t])
      ensures oncpu[t].None? && bind[t].Some? ==>
        global == old(global)
        && local == old(local)[bind[t].value := Inserted(old(local)[bind[t].value], priority[t], t, yielding[t])]
    {
      if oncpu[t].Some? {
        MarkRunning(t);
      } else {
        Link(t, cpu);
      }
    }

    /** The branch for a thread that is on a processor still, or again. */
    method MarkRunning(t: nat)
      requires Sound() && t < |stat| && stat[t] != IsReady
      modifies `stat
      ensures Sound() && stat == old(stat)[t := IsRunning]
    {
      forall o: Owner ensures Seen(stat[t := IsRunning], bind, o) == Seen(stat, bind, o) { }
      stat := stat[t := IsRunning];
    }

    /** The branch for a thread that is linked on the list of its priority. */
    method Link(t: nat, cpu: nat)
      requires Sound() && t < |stat| && stat[t] != IsReady
      modifies `global, `local, `stat, `ipi
      ensures Sound() && stat == old(stat)[t := IsReady] && ipi == old(ipi) + Others(bind[t], cpu, |current|)
      ensures bind[t].None? ==> local == old(local) && global == Inserted(old(global), priority[t], t, yielding[t])
      ensures bind[t].Some? ==>
        && global == old(global)
        && local == old(local)[bind[t].value := Inserted(old(local)[bind[t].value], priority[t], t, yielding[t])]
    {
      InsertInOrder(global, None, stat, priority, bind, t, yielding[t]);
      forall c | 0 <= c < |local|
        ensures InOrder(if bind[t] == Some(c) then Inserted(local[c], priority[t], t, yielding[t]) else local[c],
                        Some(c), stat[t := IsReady], priority, bind)
      {
        InsertInOrder(local[c], Some(c), stat, priority, bind, t, yielding[t]);
      }
      stat := stat[t := IsReady];
      ipi := ipi + Others(bind[t], cpu, |current|);
      if bind[t].None? {
        global := Inserted(global, priority[t], t, yielding[t]);
      } else {
        local := local[bind[t].value := Inserted(local[bind[t].value], priority[t], t, yielding[t])];
      }
    }

    /** `rt_schedule_remove_thread`, and the state that its callers then give the thread */
    method RemoveThread(t: nat, now: Stat)
      requires Sound() && t < |stat| && now != IsReady
      modifies `global, `local, `stat
      ensures Sound() && stat == old(stat)[t := now]
      ensures bind[t].None? ==> local == old(local) && global == Removed(old(global), priority[t], t)
      ensures bind[t].Some? ==>
        global == old(global)
        && local == old(local)[bind[t].value := Removed(old(local)[bind[t].value], priority[t], t)]
    {
      RemoveInOrder(global, None, stat, priority, bind, t, now);
      forall c | 0 <= c < |local|
        ensures InOrder(if bind[t] == Some(c) then Removed(local[c], priority[t], t) else local[c],
                        Some(c), stat[t := now], priority, bind)
      {
        RemoveInOrder(local[c], Some(c), stat, priority, bind, t, now);
      }
      stat := stat[t := now];
      if bind[t].None? {
        global := Removed(global, priority[t], t);
      } else {
        local := local[bind[t].value := Removed(local[bind[t].value], priority[t], t)];
      }
    }

    // ---------- rt_schedule ----------

    /** Thread `t` may run on processor `cpu`. */
    predicate MayRunOn(t: nat, cpu: nat)
      requires t < |bind|
      reads `bind
    {
      bind[t] == None || bind[t] == Some(cpu)
    }

    /** The thread on the processor runs, may run there, and is more urgent than all others that are ready for it. */
    ghost predicate Leads(cpu: nat)
      requires Sound() && cpu < |current|
      reads this
    {
      && stat[current[cpu]] == IsRunning && MayRunOn(current[cpu], cpu)
      && forall t :: 0 <= t < |stat| && stat[t] == IsReady && MayRunOn(t, cpu) ==> priority[current[cpu]] < priority[t]
    }

    /** A ready thread may run on the processor, and the one on it has to make way: it does not run any more, or may not
        run here, or is less urgent, or as urgent and yields. */
    ghost predicate Challenged(cpu: nat)
      requires cpu < |current| && current[cpu] < |stat| == |yielding| == |bind| == |priority|
      reads `current, `stat, `yielding, `bind, `priority
    {
      var cur := current[cpu];
      exists t :: 0 <= t < |stat| && stat[t] == IsReady && MayRunOn(t, cpu)
        && (|| stat[cur] != IsRunning || !MayRunOn(cur, cpu)
            || priority[t] < priority[cur] || (priority[t] == priority[cur] && yielding[cur]))
    }

    /** No ready thread that may run on the processor is more urgent than the one on it, which runs if there is any. */
    ghost predicate NoneMoreUrgent(cpu: nat)
      requires Sound() && cpu < |current|
      reads this
    {
      Serves(stat, current, priority, bind, cpu)
    }

    /** The scheduler of the processor is not locked, and not in an interrupt. */
    predicate Open(cpu: nat)
      requires cpu < |current| == |irqNest| && current[cpu] < |lockNest|
      reads `current, `irqNest, `lockNest
    {
      irqNest[cpu] == 0 && lockNest[current[cpu]] == 1
    }

    /** `_scheduler_get_highest_priority_thread` */
    method HighestThread(cpu: nat) returns (to: nat, highest: int)
      requires Sound() && cpu < |local| && (global.group != 0 || local[cpu].group != 0)
      ensures Best(cpu, to) && priority[to] == highest
      ensures highest == if Urgency(global) < Urgency(local[cpu]) then Urgency(global) else Urgency(local[cpu])
      ensures Urgency(global) < Urgency(local[cpu]) ==>
        bind[to] == None && 0 <= highest < |global.table| && global.table[highest] != []
        && to == global.table[highest][0]
      // on a tie, a thread that is bound to the processor
      ensures Urgency(local[cpu]) <= Urgency(global) ==>
        bind[to] == Some(cpu) && 0 <= highest < |local[cpu].table| && local[cpu].table[highest] != []
        && to == local[cpu].table[highest][0]
    {
      if global.group != 0 { FirstIsReady(global, None, stat, priority, bind); }
      if local[cpu].group != 0 { FirstIsReady(local[cpu], Some(cpu), stat, priority, bind); }
      forall t: nat | t < |stat| && stat[t] == IsReady && MayRunOn(t, cpu)
        ensures (if bind[t].None? then Urgency(global) else Urgency(local[cpu])) <= priority[t]
      {
        if bind[t].None? {
          ReadyIsListed(global, None, stat, priority, bind, t);
        } else {
          ReadyIsListed(local[cpu], Some(cpu), stat, priority, bind, t);
        }
      }
      if Urgency(global) < Urgency(local[cpu]) {
        highest := Urgency(global);
        to := global.table[highest][0];
      } else {
        highest := Urgency(local[cpu]);
        to := local[cpu].table[highest][0];
      }
    }

    /** Processor `cpu` is between two threads; all else is as it should be. */
    ghost predicate Between(cpu: nat)
      reads this
    {
      Sound() && cpu < |current| && OnProcessors(stat, current, oncpu, Some(cpu))
    }

    /** The branches of `rt_schedule`: the thread goes on, */
    method Continue(cpu: nat)
      requires Valid() && cpu < |current| && stat[current[cpu]] == IsRunning
      modifies `oncpu, `yielding
      ensures Valid() && oncpu == old(oncpu)
    {
      var cur := current[cpu];
      oncpu := oncpu[cur := None];
      yielding := yielding[cur := false];
      oncpu := oncpu[cur := Some(cpu)];
    }

    /** it becomes ready, */
    method Displace(cpu: nat)
      requires Valid() && cpu < |current| && stat[current[cpu]] == IsRunning
      modifies `oncpu, `yielding, `global, `local, `stat, `ipi
      ensures Between(cpu) && stat == old(stat)[current[cpu] := IsReady]
      ensures ipi == old(ipi) + Others(bind[current[cpu]], cpu, |current|)
      ensures bind[current[cpu]] == None ==>
        local == old(local)
        && global == Inserted(old(global), priority[current[cpu]], current[cpu], old(yielding)[current[cpu]])
    {
      var cur := current[cpu];
      Leaves(stat, current, oncpu, cpu, IsReady);
      oncpu := oncpu[cur := None];
      InsertThread(cur, cpu);
      yielding := yielding[cur := false];
    }

    /** or it has left the ready queue already; */
    method Detach(cpu: nat)
      requires Valid() && cpu < |current| && stat[current[cpu]] != IsRunning
      modifies `oncpu
      ensures Between(cpu)
    {
      Leaves(stat, current, oncpu, cpu, stat[current[cpu]]);
      oncpu := oncpu[current[cpu] := None];
    }

    /** and the switch to another thread. */
    method SwitchTo(cpu: nat, to: nat)
      requires Between(cpu) && to < |stat| && stat[to] == IsReady
      modifies `oncpu, `current, `global, `local, `stat
      ensures Valid() && current == old(current)[cpu := to] && stat == old(stat)[to := IsRunning]
      ensures bind[to] == None ==> local == old(local) && global == Removed(old(global), priority[to], to)
    {
      Enters(stat, current, oncpu, cpu, to);
      oncpu := oncpu[to := Some(cpu)];
      current := current[cpu := to];
      RemoveThread(to, IsRunning);
    }

    /** What a scheduling on processor `cpu` makes of the states `was` and of the signals `before`: nothing; or
        another thread runs now; or it does and `from` has become ready, of which other processors are told. */
    ghost predicate Switched(was: seq<Stat>, before: set<nat>, cpu: nat, from: nat)
      reads `stat, `bind, `current, `ipi
    {
      || (stat == was && ipi == before)
      || (cpu < |current| && current[cpu] < |was| && stat == was[current[cpu] := IsRunning] && ipi == before)
      || (&& cpu < |current| && current[cpu] < |was| && from < |was| && from < |bind|
          && stat == was[from := IsReady][current[cpu] := IsRunning]
          && ipi == before + Others(bind[from], cpu, |current|))
    }

    /** `to` is ready for the processor, and none is more urgent. */
    ghost predicate Best(cpu: nat, to: nat)
      requires Sound()
      reads this
    {
      && to < |stat| && stat[to] == IsReady && MayRunOn(to, cpu)
      && forall t :: 0 <= t < |stat| && stat[t] == IsReady && MayRunOn(t, cpu) ==> priority[to] <= priority[t]
    }

    /** The running thread makes way for another one, which is at least as urgent, or the only one that
        may run here. */
    method Exchange(cpu: nat, to: nat)
      requires Valid() && cpu < |current| && stat[current[cpu]] == IsRunning && Best(cpu, to)
      requires MayRunOn(current[cpu], cpu) ==> priority[to] <= priority[current[cpu]]
      modifies `oncpu, `yielding, `global, `local, `stat, `current, `ipi
      ensures Valid() && current == old(current)[cpu := to] && stat[to] == IsRunning && NoneMoreUrgent(cpu)
      ensures Switched(old(stat), old(ipi), cpu, old(current)[cpu])
      ensures bind[to] == None && bind[old(current)[cpu]] == None ==>
        && local == old(local) && priority[to] < PRIORITIES && priority[old(current)[cpu]] < PRIORITIES
        && global == Removed(Inserted(old(global), priority[old(current)[cpu]], old(current)[cpu],
                                      old(yielding)[old(current)[cpu]]), priority[to], to)
    {
      ghost var was, cur := stat, current[cpu];
      Displace(cpu);
      SwitchTo(cpu, to);
      StillBest(cpu, to, was, cur);
    }

    /** After `to` has taken the place of `cur`. */
    lemma StillBest(cpu: nat, to: nat, was: seq<Stat>, cur: nat)
      requires Sound() && cpu < |current| && to == current[cpu] && cur < |was| == |stat|
      requires stat == was[cur := IsReady][to := IsRunning] && (MayRunOn(cur, cpu) ==> priority[to] <= priority[cur])
      requires forall t :: 0 <= t < |was| && was[t] == IsReady && MayRunOn(t, cpu) ==> priority[to] <= priority[t]
      ensures NoneMoreUrgent(cpu)
    {
    }

    /** Both threads are unbound and of the same priority, and `to` is the first on its list. */
    predicate HeadOf(to: nat, from: nat)
      requires to < |bind| == |priority| && from < |bind|
      reads `bind, `priority, `global
    {
      && bind[to] == None && bind[from] == None && priority[to] == priority[from] && priority[to] < |global.table|
      && global.table[priority[to]] != [] && to == global.table[priority[to]][0]
    }

    /** The part of `rt_schedule` for a processor that is not locked when something is ready. */
    method Reschedule(cpu: nat)
      requires Valid() && cpu < |current| && (global.group != 0 || local[cpu].group != 0)
      modifies `oncpu, `yielding, `global, `local, `stat, `current, `ipi
      ensures Valid() && |current| == |old(current)| && NoneMoreUrgent(cpu) && stat[current[cpu]] == IsRunning
      ensures Switched(old(stat), old(ipi), cpu, old(current)[cpu])
      ensures forall c :: 0 <= c < |current| && c != cpu ==> current[c] == old(current)[c]
      ensures !old(Challenged(cpu)) ==> stat == old(stat) && current == old(current) && ipi == old(ipi)
      ensures old(Challenged(cpu)) ==> current[cpu] != old(current)[cpu] && stat[current[cpu]] == IsRunning
      ensures old(Challenged(cpu)) ==> stat[old(current)[cpu]] != IsRunning
      ensures old(Yields(cpu)) ==> local == old(local)
      ensures old(Yields(cpu)) ==> Rotated(cpu, old(global).table, old(current)[cpu], priority[old(current)[cpu]])
    {
      var to, highest := BestThread(cpu);
      if stat[current[cpu]] == IsRunning {
        Contend(cpu, to, highest);
      } else {
        assert Challenged(cpu) && !Yields(cpu) by {
          assert stat[to] == IsReady && MayRunOn(to, cpu);
        }
        Replace(cpu, to);
      }
    }

    /** The best thread that is ready; where the running one yields to others, the first of those. */
    method BestThread(cpu: nat) returns (to: nat, highest: int)
      requires Valid() && cpu < |current| && (global.group != 0 || local[cpu].group != 0)
      ensures Best(cpu, to) && priority[to] == highest && (Turn(cpu) ==> HeadOf(to, current[cpu]))
    {
      UrgencyIs(global, priority[current[cpu]]);
      UrgencyIs(local[cpu], priority[current[cpu]]);
      to, highest := HighestThread(cpu);
    }

    /** The thread that runs goes on, or makes way for the best of those that are ready. */
    method Contend(cpu: nat, to: nat, highest: int)
      requires Valid() && cpu < |current| && stat[current[cpu]] == IsRunning && Best(cpu, to) && priority[to] == highest
      modifies `oncpu, `yielding, `global, `local, `stat, `current, `ipi
      ensures Valid() && |current| == |old(current)| && NoneMoreUrgent(cpu) && stat[current[cpu]] == IsRunning
      ensures Switched(old(stat), old(ipi), cpu, old(current)[cpu])
      ensures forall c :: 0 <= c < |current| && c != cpu ==> current[c] == old(current)[c]
      ensures !old(Challenged(cpu)) ==> stat == old(stat) && current == old(current) && ipi == old(ipi)
      ensures old(Challenged(cpu)) ==> current[cpu] != old(current)[cpu] && stat[current[cpu]] == IsRunning
      ensures old(Challenged(cpu)) ==> stat[old(current)[cpu]] != IsRunning
      ensures old(yielding)[old(current)[cpu]] && old(HeadOf(to, current[cpu])) ==> local == old(local)
      ensures old(yielding)[old(current)[cpu]] && old(HeadOf(to, current[cpu])) ==>
        Rotated(cpu, old(global).table, old(current)[cpu], priority[to])
    {
      var cur := current[cpu];
      ContendIs(cpu, to);
      if MayRunOn(cur, cpu) && (priority[cur] < highest || (priority[cur] == highest && !yielding[cur])) {
        Continue(cpu);
      } else {
        MakeWay(cpu, to);
      }
    }

    /** The thread makes way; if it yields, it goes to the end of its list. */
    method MakeWay(cpu: nat, to: nat)
      requires Valid() && cpu < |current| && stat[current[cpu]] == IsRunning && Best(cpu, to)
      requires MayRunOn(current[cpu], cpu) ==> priority[to] <= priority[current[cpu]]
      modifies `oncpu, `yielding, `global, `local, `stat, `current, `ipi
      ensures Valid() && current == old(current)[cpu := to] && NoneMoreUrgent(cpu)
      ensures stat[to] == IsRunning && stat[old(current)[cpu]] != IsRunning && to != old(current)[cpu]
      ensures Switched(old(stat), old(ipi), cpu, old(current)[cpu])
      ensures old(yielding)[old(current)[cpu]] && old(HeadOf(to, current[cpu])) ==> local == old(local)
      ensures old(yielding)[old(current)[cpu]] && old(HeadOf(to, current[cpu])) ==>
        Rotated(cpu, old(global).table, old(current)[cpu], priority[to])
    {
      ghost var g, cur := global, current[cpu];
      Exchange(cpu, to);
      RotatedBySteps(g, cur, priority[cur]);
    }

    /** What the test comes to. */
    lemma ContendIs(cpu: nat, to: nat)
      requires Sound() && cpu < |current| && stat[current[cpu]] == IsRunning && Best(cpu, to)
      ensures
        var cur := current[cpu];
        var asUrgent := priority[cur] < priority[to] || (priority[cur] == priority[to] && !yielding[cur]);
        Challenged(cpu) <==> !(MayRunOn(cur, cpu) && asUrgent)
    {
    }

    lemma LeadsUnchallenged(cpu: nat)
      requires Sound() && cpu < |current|
      ensures Leads(cpu) ==> !Challenged(cpu)
    {
    }

    /** Another thread takes the place of one that no longer runs. */
    method Replace(cpu: nat, to: nat)
      requires Valid() && cpu < |current| && stat[current[cpu]] != IsRunning && Best(cpu, to)
      modifies `oncpu, `global, `local, `stat, `current
      ensures Valid() && current == old(current)[cpu := to] && NoneMoreUrgent(cpu) && to != old(current)[cpu]
      ensures stat == old(stat)[to := IsRunning] && stat[old(current)[cpu]] != IsRunning
      ensures Switched(old(stat), old(ipi), cpu, old(current)[cpu])
    {
      Detach(cpu);
      SwitchTo(cpu, to);
    }

    /** `rt_schedule` on processor `cpu` */
    method Schedule(cpu: nat)
      requires Valid() && cpu < |current|
      modifies this
      ensures Valid() && |current| == |old(current)| && priority == old(priority) && bind == old(bind)
      ensures lockNest == old(lockNest) && irqNest == old(irqNest)
      ensures irqSwitch == if irqNest[cpu] > 0 then old(irqSwitch)[cpu := true] else old(irqSwitch)
      ensures !old(Open(cpu)) ==> global == old(global) && local == old(local) && stat == old(stat)
      ensures !old(Open(cpu)) ==> current == old(current) && oncpu == old(oncpu) && ipi == old(ipi)
      ensures forall c :: 0 <= c < |current| && c != cpu ==> current[c] == old(current)[c]
      ensures old(Open(cpu)) ==> NoneMoreUrgent(cpu)
      // the running thread goes on if it is more urgent than all others
      ensures old(Leads(cpu)) ==> stat == old(stat) && current == old(current) && ipi == old(ipi)
      // and goes on as well if it does not yield and others are as urgent, but not more
      ensures
        && old(stat[current[cpu]]) == IsRunning && old(MayRunOn(current[cpu], cpu)) && !old(yielding[current[cpu]])
        && (forall t :: 0 <= t < |old(stat)| && old(stat)[t] == IsReady && old(MayRunOn(t, cpu)) ==>
          priority[old(current)[cpu]] <= priority[t])
        ==> stat == old(stat) && current == old(current) && ipi == old(ipi)
      // and makes way exactly if it is challenged
      ensures !old(Challenged(cpu)) ==> stat == old(stat) && current == old(current) && ipi == old(ipi)
      ensures old(Open(cpu)) && old(Challenged(cpu)) ==>
        current[cpu] != old(current)[cpu] && stat[current[cpu]] == IsRunning
      ensures old(Open(cpu)) && old(Challenged(cpu)) ==> stat[old(current)[cpu]] != IsRunning
      ensures Switched(old(stat), old(ipi), cpu, old(current)[cpu])
      // an unbound thread that yields goes to the end of its list
      ensures old(Open(cpu)) && old(Yields(cpu)) ==> stat[current[cpu]] == IsRunning && local == old(local)
      ensures old(Open(cpu)) && old(Yields(cpu)) ==>
        Rotated(cpu, old(global).table, old(current)[cpu], priority[old(current)[cpu]])
    {
      if irqNest[cpu] > 0 {
        irqSwitch := irqSwitch[cpu := true];
        return;
      }
      if lockNest[current[cpu]] == 1 {
        Choose(cpu);
      }
    }

    /** `rt_scheduler_do_irq_switch`, at the end of an interrupt */
    method IrqSwitch(cpu: nat)
      requires Valid() && cpu < |current|
      modifies this
      ensures Valid() && |current| == |old(current)| && priority == old(priority) && bind == old(bind)
      ensures lockNest == old(lockNest) && irqNest == old(irqNest)
      ensures irqSwitch == if old(Open(cpu)) then old(irqSwitch)[cpu := false] else old(irqSwitch)
      ensures !(old(Open(cpu)) && old(irqSwitch)[cpu]) ==>
        stat == old(stat) && current == old(current) && ipi == old(ipi)
      ensures forall c :: 0 <= c < |current| && c != cpu ==> current[c] == old(current)[c]
      ensures old(Open(cpu)) && old(irqSwitch)[cpu] ==> NoneMoreUrgent(cpu)
      ensures old(Leads(cpu)) ==> stat == old(stat) && current == old(current) && ipi == old(ipi)
      // a thread that does not yield goes on if others are as urgent, but not more
      ensures
        && old(stat[current[cpu]]) == IsRunning && old(MayRunOn(current[cpu], cpu)) && !old(yielding[current[cpu]])
        && (forall t :: 0 <= t < |old(stat)| && old(stat)[t] == IsReady && old(MayRunOn(t, cpu)) ==>
          priority[old(current)[cpu]] <= priority[t])
        ==> stat == old(stat) && current == old(current) && ipi == old(ipi)
      ensures !old(Challenged(cpu)) ==> stat == old(stat) && current == old(current) && ipi == old(ipi)
      ensures old(Open(cpu)) && old(irqSwitch)[cpu] && old(Challenged(cpu)) ==>
        current[cpu] != old(current)[cpu] && stat[current[cpu]] == IsRunning
      ensures old(Open(cpu)) && old(irqSwitch)[cpu] && old(Challenged(cpu)) ==> stat[old(current)[cpu]] != IsRunning
      ensures Switched(old(stat), old(ipi), cpu, old(current)[cpu])
    {
      if !irqSwitch[cpu] {
        return;
      }
      if lockNest[current[cpu]] == 1 && irqNest[cpu] == 0 {
        irqSwitch := irqSwitch[cpu := false];
        Choose(cpu);
      }
    }

    /** What both do if the scheduler of the processor is not locked. */
    method Choose(cpu: nat)
      requires Valid() && cpu < |current|
      modifies `oncpu, `yielding, `global, `local, `stat, `current, `ipi
      ensures Valid() && |current| == |old(current)| && NoneMoreUrgent(cpu)
      ensures Switched(old(stat), old(ipi), cpu, old(current)[cpu])
      ensures forall c :: 0 <= c < |current| && c != cpu ==> current[c] == old(current)[c]
      ensures old(Leads(cpu)) ==> stat == old(stat) && current == old(current) && ipi == old(ipi)
      // a thread that does not yield goes on if others are as urgent, but not more
      ensures
        && old(stat[current[cpu]]) == IsRunning && old(MayRunOn(current[cpu], cpu)) && !old(yielding[current[cpu]])
        && (forall t :: 0 <= t < |old(stat)| && old(stat)[t] == IsReady && old(MayRunOn(t, cpu)) ==>
          priority[old(current)[cpu]] <= priority[t])
        ==> stat == old(stat) && current == old(current) && ipi == old(ipi)
      ensures !old(Challenged(cpu)) ==> stat == old(stat) && current == old(current) && ipi == old(ipi)
      ensures old(Challenged(cpu)) ==> current[cpu] != old(current)[cpu] && stat[current[cpu]] == IsRunning
      ensures old(Challenged(cpu)) ==> stat[old(current)[cpu]] != IsRunning
      ensures old(Yields(cpu)) ==> stat[current[cpu]] == IsRunning && local == old(local)
      ensures old(Yields(cpu)) ==> Rotated(cpu, old(global).table, old(current)[cpu], priority[old(current)[cpu]])
    {
      LeadsUnchallenged(cpu);
      HighestIsLeast(global);
      if global.group != 0 || local[cpu].group != 0 {
        Reschedule(cpu);
      } else {
        NothingReady(cpu);
      }
    }

    /** If both words are zero there is no ready thread that may run on the processor. */
    lemma NothingReady(cpu: nat)
      requires Sound() && cpu < |current| && global.group == 0 && local[cpu].group == 0
      ensures forall t :: 0 <= t < |stat| && stat[t] == IsReady ==> !MayRunOn(t, cpu)
    {
      forall t: nat | t < |stat| && stat[t] == IsReady ensures !MayRunOn(t, cpu) {
        if bind[t].None? {
          ReadyIsListed(global, None, stat, priority, bind, t);
        } else if bind[t] == Some(cpu) {
          ReadyIsListed(local[cpu], Some(cpu), stat, priority, bind, t);
        }
      }
    }

    /** The thread on the processor runs, may run anywhere and yields to others of its priority, all of
        which may run anywhere too. */
    ghost predicate Yields(cpu: nat)
      requires cpu < |current| == |local| && current[cpu] < |stat| == |yielding| == |bind| == |priority|
      reads this
    {
      Turn(cpu) && yielding[current[cpu]]
    }

    /** The first of the list runs, and thread `from` is at the end of the list. */
    ghost predicate Rotated(cpu: nat, table: seq<seq<nat>>, from: nat, p: nat)
      requires cpu < |current|
      reads `global, `current
    {
      p < |table| && table[p] != [] && current[cpu] == table[p][0] && global.table == table[p := table[p][1..] + [from]]
    }

    // ---------- what other parts of the kernel do to threads ----------

    /** `rt_thread_resume` on processor `cpu` */
    method Resume(t: nat, cpu: nat)
      requires Valid() && t < |stat|
      modifies `global, `local, `stat, `ipi
      ensures Valid()
      ensures old(stat[t]) != Suspended ==> stat == old(stat) && ipi == old(ipi)
      ensures old(stat[t]) == Suspended ==> MadeReady(t, cpu, old(stat), old(ipi))
    {
      if stat[t] != Suspended {
        return;
      }
      InsertThread(t, cpu);
    }

    /** The end of `rt_thread_startup`, which resumes the thread, on processor `cpu` */
    method Startup(t: nat, cpu: nat)
      requires Valid() && t < |stat|
      modifies `global, `local, `stat, `ipi
      ensures Valid()
      ensures old(stat[t]) != Initial ==> stat == old(stat) && ipi == old(ipi)
      ensures old(stat[t]) == Initial ==> MadeReady(t, cpu, old(stat), old(ipi))
    {
      if stat[t] != Initial {
        return;
      }
      InsertThread(t, cpu);
    }

    /** Thread `t` has become ready, and other processors were told; or it goes on, if it still is on one. */
    ghost predicate MadeReady(t: nat, cpu: nat, was: seq<Stat>, before: set<nat>)
      requires t < |was| && t < |oncpu| && t < |bind|
      reads this
    {
      if oncpu[t].Some? then stat == was[t := IsRunning] && ipi == before
      else stat == was[t := IsReady] && ipi == before + Others(bind[t], cpu, |current|)
    }

    /** `rt_thread_suspend_with_flag` of the thread on the processor */
    method SuspendSelf(cpu: nat)
      requires Valid() && cpu < |current|
      modifies `global, `local, `stat
      ensures Valid()
      ensures stat == if old(stat)[current[cpu]] == IsRunning then old(stat)[current[cpu] := Suspended] else old(stat)
    {
      if stat[current[cpu]] == IsRunning {
        RemoveThread(current[cpu], Suspended);
      }
    }

    /** `rt_thread_control` with RT_THREAD_CTRL_CHANGE_PRIORITY, on processor `cpu` */
    method ChangePriority(t: nat, p: nat, cpu: nat)
      requires Valid() && t < |stat| && p < PRIORITIES
      modifies `global, `local, `stat, `priority, `ipi
      ensures Valid() && stat == old(stat) && priority == old(priority)[t := p]
      ensures ipi == if stat[t] == IsReady then old(ipi) + Others(bind[t], cpu, |current|) else old(ipi)
    {
      if stat[t] == IsReady {
        Relink(t, p, cpu);
      } else {
        SetPriority(t, p);
      }
    }

    /** The branch for a thread that is ready. */
    method Relink(t: nat, p: nat, cpu: nat)
      requires Sound() && t < |stat| && stat[t] == IsReady && oncpu[t] == None && p < PRIORITIES
      modifies `global, `local, `stat, `priority, `ipi
      ensures Sound() && stat == old(stat) && priority == old(priority)[t := p]
      ensures ipi == old(ipi) + Others(bind[t], cpu, |current|)
    {
      RemoveThread(t, Initial);
      SetPriority(t, p);
      InsertThread(t, cpu);
    }

    method SetPriority(t: nat, p: nat)
      requires Sound() && t < |stat| && stat[t] != IsReady && p < PRIORITIES
      modifies `priority
      ensures Sound() && priority == old(priority)[t := p]
    {
      PriorityInOrder(global, None, stat, priority, bind, t, p);
      forall c | 0 <= c < |local| ensures InOrder(local[c], Some(c), stat, priority[t := p], bind) {
        PriorityInOrder(local[c], Some(c), stat, priority, bind, t, p);
      }
      priority := priority[t := p];
    }

    // ---------- critical sections and interrupts ----------

    /** `rt_enter_critical` by the thread on the processor */
    method EnterCritical(cpu: nat)
      requires Valid() && cpu < |current|
      modifies `lockNest
      ensures Valid() && lockNest == old(lockNest)[current[cpu] := old(lockNest)[current[cpu]] + 1]
    {
      lockNest := lockNest[current[cpu] := lockNest[current[cpu]] + 1];
    }

    /** `rt_exit_critical`, up to the call of the scheduler, which is due if `unlocked` */
    method ExitCritical(cpu: nat) returns (unlocked: bool)
      requires Valid() && cpu < |current|
      modifies `lockNest
      ensures Valid() && (unlocked <==> old(lockNest)[current[cpu]] == 2)
      ensures
        var n := old(lockNest)[current[cpu]];
        lockNest == if n > 1 then old(lockNest)[current[cpu] := n - 1] else old(lockNest)
    {
      unlocked := false;
      if lockNest[current[cpu]] > 1 {
        lockNest := lockNest[current[cpu] := lockNest[current[cpu]] - 1];
        unlocked := lockNest[current[cpu]] == 1;
      }
    }

    method EnterIrq(cpu: nat)
      requires Valid() && cpu < |current|
      modifies `irqNest
      ensures Valid() && irqNest == old(irqNest)[cpu := old(irqNest)[cpu] + 1]
    {
      irqNest := irqNest[cpu := irqNest[cpu] + 1];
    }

    method LeaveIrq(cpu: nat)
      requires Valid() && cpu < |current| && irqNest[cpu] > 0
      modifies `irqNest
      ensures Valid() && irqNest == old(irqNest)[cpu := old(irqNest)[cpu] - 1]
    {
      irqNest := irqNest[cpu := irqNest[cpu] - 1];
    }

    /** `rt_scheduler_ipi_handler`, in an interrupt */
    method HandleIpi(cpu: nat)
      requires Valid() && cpu < |current| && irqNest[cpu] > 0
      modifies this
      ensures Valid() && ipi == old(ipi) - {cpu} && irqSwitch == old(irqSwitch)[cpu := true]
      ensures stat == old(stat) && current == old(current) && priority == old(priority) && bind == old(bind)
      ensures lockNest == old(lockNest) && irqNest == old(irqNest) && oncpu == old(oncpu)
    {
      ipi := ipi - {cpu};
      Schedule(cpu);
    }

    // ---------- yielding ----------

    /** `rt_thread_yield` on processor `cpu` */
    method Yield(cpu: nat)
      requires Valid() && cpu < |current|
      modifies this
      ensures Valid() && |current| == |old(current)| && priority == old(priority) && bind == old(bind)
      ensures lockNest == old(lockNest) && irqNest == old(irqNest)
      ensures irqSwitch == if irqNest[cpu] > 0 then old(irqSwitch)[cpu := true] else old(irqSwitch)
      ensures !old(Open(cpu)) ==> stat == old(stat) && current == old(current) && ipi == old(ipi)
      ensures forall c :: 0 <= c < |current| && c != cpu ==> current[c] == old(current)[c]
      ensures old(Open(cpu)) ==> NoneMoreUrgent(cpu)
      ensures Switched(old(stat), old(ipi), cpu, old(current)[cpu])
      ensures old(Open(cpu)) && old(Turn(cpu)) ==> stat[current[cpu]] == IsRunning && local == old(local)
      ensures old(Open(cpu)) && old(Turn(cpu)) ==>
        Rotated(cpu, old(global).table, old(current)[cpu], priority[old(current)[cpu]])
    {
      yielding := yielding[current[cpu] := true];
      Schedule(cpu);
    }

    /** It is the turn of the thread on the processor among unbound threads of its priority, the most
        urgent that are ready for the processor. */
    ghost predicate Turn(cpu: nat)
      requires cpu < |current| == |local| && current[cpu] < |stat| == |bind| == |priority|
      reads this
    {
      var t := current[cpu];
      stat[t] == IsRunning && bind[t] == None && MostUrgent(global, priority[t]) && LessUrgent(local[cpu], priority[t])
    }

    /** Only threads that are not locked, on one processor, yielding to each other at priority `p`. */
    ghost predicate Yielding(cpu: nat, p: nat)
      reads this
    {
      && Valid() && cpu < |current| && irqNest[cpu] == 0 && Turn(cpu) && priority[current[cpu]] == p
      && forall t :: 0 <= t < |lockNest| ==> lockNest[t] == 1
    }

    /** The thread on the processor and the others of its priority are `ring`, from position `k` on. */
    ghost predicate At(cpu: nat, p: nat, ring: seq<nat>, k: nat)
      reads this
    {
      Yielding(cpu, p) && k < |ring| && [current[cpu]] + global.table[p] == Turned(ring, k)
    }

    method YieldOnce(cpu: nat, p: nat, ghost ring: seq<nat>, ghost k: nat)
      requires At(cpu, p, ring, k)
      modifies this
      ensures At(cpu, p, ring, if k + 1 < |ring| then k + 1 else 0)
    {
      UrgencyIs(global, p);
      FirstIsReady(global, None, stat, priority, bind);
      TurnOnce(ring, k, current[cpu], global.table[p]);
      Yield(cpu);
    }

    /** Round robin: with `ring` the thread on the processor and the others of its priority, in the order
        of their list, the thread at position `k` of the ring runs after `k` yields, and so on round the
        ring. */
    method YieldRepeatedly(cpu: nat, p: nat, n: nat, ghost ring: seq<nat>)
      requires At(cpu, p, ring, 0)
      modifies this
      ensures At(cpu, p, ring, Seat(n, |ring|)) && current[cpu] == ring[Seat(n, |ring|)]
      // every thread of the ring once, and the first again
      ensures n <= |ring| ==> current[cpu] == ring[if n < |ring| then n else 0]
    {
      var i := 0;
      while i < n
        invariant i <= n && At(cpu, p, ring, Seat(i, |ring|))
      {
        YieldOnce(cpu, p, ring, Seat(i, |ring|));
        i := i + 1;
      }
      assert Turned(ring, Seat(n, |ring|))[0] == ring[Seat(n, |ring|)];
      assert ([current[cpu]] + global.table[p])[0] == current[cpu];
      if n <= |ring| { EverySeatInTurn(n, |ring|); }
    }
  }

  /** The ring from position `k` on, and round to it. */
  function Turned(ring: seq<nat>, k: nat): seq<nat>
    requires k <= |ring|
  {
    ring[k..] + ring[..k]
  }

  /** The position in a ring of `n` that `i` steps lead to, from position 0. */
  function Seat(i: nat, n: nat): (k: nat)
    requires n > 0
    ensures k < n
  {
    if i == 0 then 0 else if Seat(i - 1, n) + 1 < n then Seat(i - 1, n) + 1 else 0
  }

  /** Position `k` is reached after `k` steps, and position 0 again after the whole round. */
  lemma {:induction false} EverySeatInTurn(k: nat, n: nat)
    requires 0 < n && k <= n
    ensures Seat(k, n) == if k < n then k else 0
  {
    if k > 0 {
      EverySeatInTurn(k - 1, n);
    }
  }

  lemma TurnOnce(ring: seq<nat>, k: nat, cur: nat, list: seq<nat>)
    requires k < |ring| && list != [] && [cur] + list == Turned(ring, k)
    ensures [list[0]] + (list[1..] + [cur]) == Turned(ring, if k + 1 < |ring| then k + 1 else 0)
  {
    assert [list[0]] + (list[1..] + [cur]) == list + [cur];
    assert ([cur] + list)[1..] == list;
    assert list == Turned(ring, k)[1..];
    if k + 1 < |ring| {
      assert ring[k..] == [ring[k]] + ring[k + 1..];
      assert ring[..k + 1] == ring[..k] + [ring[k]];
    } else {
      assert Turned(ring, 0) == ring;
      assert ring == ring[..k] + [ring[k]];
    }
  }
}
