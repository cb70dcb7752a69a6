/**
  The uniprocessor scheduler (rt-thread/src/scheduler_up.c) and the operations of
  rt-thread/src/thread.c that work on its ready queue.
 */
module Scheduler {
  import opened KernelLists
  import opened PriorityBits
  import opened ReadyQueue

  datatype Stat = Initial | IsReady | IsRunning | Suspended | Closed

  // ---------- which threads are on which list ----------

  /** `l` holds exactly the ready threads of priority `p`. */
  ghost predicate ListedAt(l: seq<nat>, stat: seq<Stat>, priority: seq<nat>, p: nat)
    requires |stat| == |priority|
  {
    && Distinct(l)
    && (forall t: nat :: t < |stat| ==> (t in l <==> stat[t] == IsReady && priority[t] == p))
    && (forall t :: t in l ==> t < |stat|)
  }

  ghost predicate AllListed(table: seq<seq<nat>>, stat: seq<Stat>, priority: seq<nat>)
    requires |stat| == |priority|
  {
    forall p {:trigger ListedAt(table[p], stat, priority, p)} :: 0 <= p < |table| ==>
      ListedAt(table[p], stat, priority, p)
  }

  lemma InsertKeepsListed(table: seq<seq<nat>>, stat: seq<Stat>, priority: seq<nat>, t: nat, last: bool)
    requires |stat| == |priority| && AllListed(table, stat, priority)
    requires t < |stat| && stat[t] != IsReady && priority[t] < |table|
    ensures AllListed(table[priority[t] := if last then table[priority[t]] + [t] else [t] + table[priority[t]]],
                      stat[t := IsReady], priority)
  {
    var p := priority[t];
    var table' := table[p := if last then table[p] + [t] else [t] + table[p]];
    forall q: nat | q < |table'| ensures ListedAt(table'[q], stat[t := IsReady], priority, q) {
      assert ListedAt(table[q], stat, priority, q);
    }
  }

  lemma RemoveKeepsListed(table: seq<seq<nat>>, stat: seq<Stat>, priority: seq<nat>, t: nat, now: Stat)
    requires |stat| == |priority| && AllListed(table, stat, priority)
    requires t < |stat| && now != IsReady && priority[t] < |table|
    ensures AllListed(table[priority[t] := Without(table[priority[t]], t)], stat[t := now], priority)
  {
    var p := priority[t];
    var table' := table[p := Without(table[p], t)];
    assert ListedAt(table[p], stat, priority, p);
    WithoutKeepsDistinct(table[p], t);
    forall q: nat | q < |table'| ensures ListedAt(table'[q], stat[t := now], priority, q) {
      assert ListedAt(table[q], stat, priority, q);
    }
  }

  lemma PriorityKeepsListed(table: seq<seq<nat>>, stat: seq<Stat>, priority: seq<nat>, t: nat, p: nat)
    requires |stat| == |priority| && AllListed(table, stat, priority) && t < |stat| && stat[t] != IsReady
    ensures AllListed(table, stat, priority[t := p])
  {
    forall q: nat | q < |table| ensures ListedAt(table[q], stat, priority[t := p], q) {
      assert ListedAt(table[q], stat, priority, q);
    }
  }

  datatype Action =
    | DoResume(t: nat) | DoSuspendSelf | DoChangePriority(t: nat, p: nat) | DoYield
    | DoSchedule | DoEnterCritical | DoExitCritical

  /** The actions that end in `rt_schedule`: a yield, and leaving a critical section, do if nothing locks it. */
  predicate Schedules(a: Action) {
    a == DoSchedule || a == DoYield || a == DoExitCritical
  }

  /** A processor without the priority word: the lists say who is ready. */
  datatype Snapshot = Snapshot(
    table: seq<seq<nat>>,
    stat: seq<Stat>,
    yielding: seq<bool>,
    priority: seq<nat>,
    current: nat,
    lockNest: int)

  predicate Fits(s: Snapshot) {
    && |s.table| == PRIORITIES && |s.stat| == |s.yielding| == |s.priority| && s.current < |s.stat|
    && forall t :: 0 <= t < |s.priority| ==> s.priority[t] < PRIORITIES
  }

  /** Thread `t` becomes ready: at the end of its list if it yields, else at the head. */
  function MadeReady(s: Snapshot, t: nat): Snapshot
    requires Fits(s) && t < |s.stat|
  {
    if t == s.current then s.(stat := s.stat[t := IsRunning])
    else
      var p := s.priority[t];
      var l := if s.yielding[t] then s.table[p] + [t] else [t] + s.table[p];
      s.(table := s.table[p := l], stat := s.stat[t := IsReady])
  }

  function Unlisted(s: Snapshot, t: nat, now: Stat): Snapshot
    requires Fits(s) && t < |s.stat|
  {
    s.(table := s.table[s.priority[t] := Without(s.table[s.priority[t]], t)], stat := s.stat[t := now])
  }

  /** The thread on the processor runs and is the most urgent, or as urgent and does not yield. */
  predicate Stays(s: Snapshot)
    requires Fits(s)
  {
    var top := FirstList(s.table, 0);
    s.stat[s.current] == IsRunning
    && (s.priority[s.current] < top || (s.priority[s.current] == top && !s.yielding[s.current]))
  }

  /** One unlocked scheduling: the first thread of the first list that is not empty runs, unless the
      thread on the processor stays; a thread that is displaced no longer yields. */
  function Scheduled(s: Snapshot): Snapshot
    requires Fits(s)
  {
    var top := FirstList(s.table, 0);
    if s.lockNest != 0 || top == PRIORITIES then s
    else
      var running := s.stat[s.current] == IsRunning;
      var s1 := if running then s.(yielding := s.yielding[s.current := false]) else s;
      var to := s.table[top][0];
      if Stays(s) || to >= |s.stat| then s1
      else
        var s2 := s1.(current := to);
        Unlisted(if running then MadeReady(s2, s.current) else s2, to, IsRunning)
  }

  /** `rt_int16_t`, for numbers that are out of range by less than 2^16 */
  function Short(n: int): int {
    if n >= 0x8000 then n - 0x1_0000 else if n < -0x8000 then n + 0x1_0000 else n
  }

  /** What an action makes of a processor. */
  function Moved(s: Snapshot, a: Action): Snapshot {
    if !Fits(s) then s
    else
      match a
      case DoResume(t) => if t < |s.stat| && s.stat[t] == Suspended then MadeReady(s, t) else s
      case DoSuspendSelf => if s.stat[s.current] == IsRunning then s.(stat := s.stat[s.current := Suspended]) else s
      case DoChangePriority(t, p) =>
        if !(t < |s.stat| && p < PRIORITIES) then s
        else if s.stat[t] == IsReady then MadeReady(Unlisted(s, t, Initial).(priority := s.priority[t := p]), t)
        else s.(priority := s.priority[t := p])
      case DoYield => Scheduled(s.(yielding := s.yielding[s.current := true]))
      case DoSchedule => Scheduled(s)
      case DoEnterCritical => s.(lockNest := Short(s.lockNest + 1))
      case DoExitCritical =>
        var nest := Short(s.lockNest - 1);
        if nest <= 0 then Scheduled(s.(lockNest := 0)) else s.(lockNest := nest)
  }

  function AfterAll(s: Snapshot, actions: seq<Action>): Snapshot {
    if actions == [] then s else Moved(AfterAll(s, actions[..|actions| - 1]), actions[|actions| - 1])
  }

  // ---------- nested critical sections ----------

  lemma {:induction false} EnteredOften(s: Snapshot, n: nat)
    requires Fits(s) && s.lockNest == 0 && n < 0x1_0000
    ensures AfterAll(s, seq(n, _ => DoEnterCritical)) == s.(lockNest := Short(n))
  {
    if n > 0 {
      EnteredOften(s, n - 1);
      var actions := seq(n, _ => DoEnterCritical);
      assert actions[..n - 1] == seq(n - 1, _ => DoEnterCritical);
    }
  }

  /** After up to 65535 nested entries, the first exit, which is not the last one, leaves the scheduler locked if and
      only if there were no more than 32768: the count is a signed word. */
  lemma FirstExitKeepsLock(s: Snapshot, n: nat)
    requires Fits(s) && s.lockNest == 0 && 1 < n < 0x1_0000
    ensures Moved(AfterAll(s, seq(n, _ => DoEnterCritical)), DoExitCritical).lockNest != 0 <==> n <= 0x8000
  {
    EnteredOften(s, n);
  }

  class Processor {
    var ready: Ready
    var stat: seq<Stat>        // by thread: stat without its flags
    var yielding: seq<bool>    // by thread: RT_THREAD_STAT_YIELD
    var priority: seq<nat>     // by thread: current_priority
    var current: nat           // rt_current_thread
    var currentPriority: nat   // rt_current_priority
    var lockNest: int          // rt_scheduler_lock_nest

    function View(): Snapshot
      reads this
    {
      Snapshot(ready.table, stat, yielding, priority, current, lockNest)
    }

    /** The word and the lists agree with each other, and the lists with the threads. */
    ghost predicate Sound()
      reads this
    {
      && Agrees(ready) && |stat| == |yielding| == |priority|
      && (forall t :: 0 <= t < |priority| ==> priority[t] < PRIORITIES)
      && AllListed(ready.table, stat, priority)
      && current < |stat|
    }

    ghost predicate Valid()
      reads this
    {
      && Sound() && stat[current] != IsReady
      && forall t :: 0 <= t < |stat| && stat[t] == IsRunning ==> t == current
    }

    /** Threads that are neither on the processor nor ready; thread 0 runs. */
    constructor (threads: nat)
      requires 0 < threads
      ensures Valid() && |stat| == threads && current == 0 && stat[0] == IsRunning && lockNest == 0
    {
      ready := EMPTY;
      stat := seq(threads, i => if i == 0 then IsRunning else Initial);
      yielding := seq(threads, _ => false);
      priority := seq(threads, _ => 0);
      current, currentPriority, lockNest := 0, 0, 0;
      EmptyAgrees();
    }

    /** `rt_schedule_insert_thread` */
    method InsertThread(t: nat)
      requires Sound() && t < |stat| && stat[t] != IsReady
      modifies `ready, `stat
      ensures Sound() && Fits(old(View())) && View() == MadeReady(old(View()), t)
      ensures t == current ==> stat == old(stat)[t := IsRunning] && ready == old(ready)
      ensures t != current ==>
        stat == old(stat)[t := IsReady] && ready == Inserted(old(ready), priority[t], t, yielding[t])
    {
      if t == current {
        forall p: nat | p < PRIORITIES ensures ListedAt(ready.table[p], stat[t := IsRunning], priority, p) {
          assert ListedAt(ready.table[p], stat, priority, p);
        }
        stat := stat[t := IsRunning];
        return;
      }
      InsertedAgrees(ready, priority[t], t, yielding[t]);
      InsertKeepsListed(ready.table, stat, priority, t, yielding[t]);
      stat := stat[t := IsReady];
      ready := Inserted(ready, priority[t], t, yielding[t]);
    }

    /** `rt_schedule_remove_thread`, and the state that all its callers then give the thread */
    method RemoveThread(t: nat, now: Stat)
      requires Sound() && t < |stat| && now != IsReady
      modifies `ready, `stat
      ensures Sound() && stat == old(stat)[t := now] && ready == Removed(old(ready), priority[t], t)
      ensures Fits(old(View())) && View() == Unlisted(old(View()), t, now)
    {
      RemovedAgrees(ready, priority[t], t);
      RemoveKeepsListed(ready.table, stat, priority, t, now);
      ready := Removed(ready, priority[t], t);
      stat := stat[t := now];
    }

    // ---------- rt_schedule ----------

    /** No ready thread is more urgent than the one on the processor. */
    ghost predicate NoneMoreUrgent()
      requires Sound()
      reads this
    {
      forall t :: 0 <= t < |stat| && stat[t] == IsReady ==> priority[current] <= priority[t]
    }

    /** The running thread goes on: it is more urgent than all others, or as urgent and does not yield. */
    predicate GoesOn(highest: int)
      requires current < |stat| == |priority| == |yielding|
      reads this
    {
      stat[current] == IsRunning
      && (priority[current] < highest || (priority[current] == highest && !yielding[current]))
    }

    /** A thread is ready, and the one on the processor has to make way: it does not run any more, or is less urgent,
        or as urgent and yields. */
    ghost predicate Challenged()
      requires current < |stat| == |priority| == |yielding|
      reads `stat, `priority, `yielding, `current
    {
      exists t :: 0 <= t < |stat| && stat[t] == IsReady
        && (|| stat[current] != IsRunning
            || priority[t] < priority[current] || (priority[t] == priority[current] && yielding[current]))
    }

    /** What the test comes to. */
    lemma GoesOnIs(to: nat)
      requires Sound() && stat[current] != IsReady && ready.group != 0 && to in ready.table[Top(ready)]
      ensures GoesOn(Top(ready)) <==> !Challenged()
      ensures to < |stat| && stat[to] == IsReady
    {
      assert ListedAt(ready.table[Top(ready)], stat, priority, Top(ready));
      forall t | 0 <= t < |stat| && stat[t] == IsReady ensures Top(ready) <= priority[t] { NoneAbove(t); }
      assert stat[to] == IsReady && priority[to] == Top(ready);
    }

    /** The running thread makes way for another one. */
    ghost predicate MakesWay()
      requires Sound() && ready.group != 0
      reads this
    {
      stat[current] == IsRunning && !GoesOn(Top(ready))
    }

    /** The running thread is as urgent as the first that is ready. */
    ghost predicate AmongFirst()
      requires Sound() && ready.group != 0
      reads this
    {
      stat[current] == IsRunning && priority[current] == Top(ready)
    }

    /** The lists of more urgent threads than the highest priority are empty. */
    lemma NoneAbove(t: nat)
      requires Sound() && t < |stat| && stat[t] == IsReady
      ensures ready.group != 0 && Top(ready) <= priority[t]
    {
      assert ListedAt(ready.table[priority[t]], stat, priority, priority[t]);
      HighestIsLeast(ready);
    }

    /** `rt_schedule` */
    method Schedule()
      requires Valid()
      modifies `ready, `stat, `yielding, `current, `currentPriority
      ensures Valid() && Fits(old(View())) && View() == Scheduled(old(View()))
      ensures lockNest != 0 ==>
        ready == old(ready) && stat == old(stat) && yielding == old(yielding) && current == old(current)
      // nothing is ready: nothing changes
      ensures lockNest == 0 && old(ready).group == 0 ==>
        ready == old(ready) && stat == old(stat) && current == old(current)
      // otherwise the chosen thread runs
      ensures lockNest == 0 && old(ready).group != 0 ==>
        stat[current] == IsRunning
        && current == (if old(GoesOn(Top(ready))) then old(current) else old(ready).table[Top(old(ready))][0])
      // which is another one exactly if the thread is challenged: it goes on if it does not yield and is as urgent
      ensures lockNest == 0 ==> (current != old(current) <==> old(Challenged()))
      ensures
        && old(stat[current]) == IsRunning && !old(yielding[current])
        && (forall t :: 0 <= t < |old(stat)| && old(stat)[t] == IsReady ==> priority[old(current)] <= priority[t])
        ==> current == old(current) && stat == old(stat) && ready.table == old(ready).table
      // in any case no ready thread is more urgent
      ensures lockNest == 0 ==> NoneMoreUrgent()
      // a thread that is displaced goes to the head of its list, whether it yields or not
      ensures lockNest == 0 && old(ready).group != 0 && old(MakesWay()) ==>
        ready.table == Displaced(old(ready).table, old(current), priority[old(current)], Top(old(ready)))
    {
      SearchesAgree(ready);
      if lockNest == 0 && ready.group != 0 {
        Choose();
      } else if lockNest == 0 {
        forall t | 0 <= t < |stat| && stat[t] == IsReady ensures false { NoneAbove(t); }
      }
    }

    /** Nothing but the flag of the thread changes for one that goes on. */
    ghost predicate AsBefore(was: Snapshot)
      reads this
    {
      current == was.current && stat == was.stat && ready.table == was.table
    }

    /** The part of `rt_schedule` for a scheduler that is not locked when something is ready. */
    method Choose()
      requires Valid() && lockNest == 0 && ready.group != 0
      modifies `ready, `stat, `yielding, `current, `currentPriority
      ensures Valid() && Fits(old(View())) && View() == Scheduled(old(View())) && stat[current] == IsRunning
      ensures NoneMoreUrgent()
      ensures current == if old(GoesOn(Top(ready))) then old(current) else old(ready).table[Top(old(ready))][0]
      ensures current != old(current) <==> old(Challenged())
      ensures !old(Challenged()) ==> AsBefore(old(View()))
      ensures old(MakesWay()) ==>
        ready.table == Displaced(old(ready).table, old(current), priority[old(current)], Top(old(ready)))
    {
      SearchesAgree(ready);
      HighestIsLeast(ready);
      GoesOnIs(ready.table[Top(ready)][0]);
      var to, highest, needInsertFrom := Candidate();
      if to != current {
        Switch(to, highest, needInsertFrom);
      } else {
        GoOn();
      }
    }

    /** The branch of `rt_schedule` for the running thread, which is on no list. */
    method GoOn()
      requires Valid() && stat[current] == IsRunning
      requires ready.group != 0 && priority[current] <= Top(ready)
      modifies `ready, `stat
      ensures Valid() && ready.table == old(ready).table && stat == old(stat) && NoneMoreUrgent()
    {
      forall t | 0 <= t < |stat| && stat[t] == IsReady ensures Top(ready) <= priority[t] { NoneAbove(t); }
      assert ListedAt(ready.table[priority[current]], stat, priority, priority[current]);
      RemoveThread(current, IsRunning);
    }

    /** The thread that is to run: the running one if it goes on, else the first of the most urgent list. */
    method Candidate() returns (to: nat, highest: nat, needInsertFrom: bool)
      requires Valid() && ready.group != 0
      modifies `yielding
      ensures Valid() && highest == Top(ready)
      ensures to == if old(GoesOn(Top(ready))) then current else ready.table[highest][0]
      ensures needInsertFrom == old(MakesWay()) && (to == current <==> old(GoesOn(Top(ready))))
      ensures yielding == if stat[current] == IsRunning then old(yielding)[current := false] else old(yielding)
    {
      needInsertFrom := false;
      highest := Top(ready);
      to := ready.table[highest][0];
      assert ListedAt(ready.table[highest], stat, priority, highest) && to in ready.table[highest];
      if stat[current] == IsRunning {
        if priority[current] < highest {
          to := current;
        } else if priority[current] == highest && !yielding[current] {
          to := current;
        } else {
          needInsertFrom := true;
        }
        yielding := yielding[current := false];
      }
    }

    /** The branch of `rt_schedule` that switches to another thread. */
    method Switch(to: nat, highest: nat, needInsertFrom: bool)
      requires Valid() && ready.group != 0 && highest == Top(ready) && to == ready.table[highest][0]
      requires needInsertFrom == (stat[current] == IsRunning)
      requires needInsertFrom ==> priority[current] >= highest && !yielding[current]
      modifies `ready, `stat, `current, `currentPriority
      ensures Valid() && current == to && stat[current] == IsRunning && NoneMoreUrgent()
      ensures needInsertFrom ==>
        ready.table == Displaced(old(ready).table, old(current), priority[old(current)], highest)
      ensures
        var s := old(View()).(current := to);
        Fits(s) && old(current) < |s.stat| && to < |s.stat|
        && View() == Unlisted(if needInsertFrom then MadeReady(s, old(current)) else s, to, IsRunning)
    {
      assert ListedAt(ready.table[highest], stat, priority, highest) && to in ready.table[highest];
      forall t | 0 <= t < |stat| && stat[t] == IsReady ensures highest <= priority[t] { NoneAbove(t); }
      currentPriority := highest;
      var from := current;
      current := to;
      if needInsertFrom {
        DisplacedBySteps(ready, from, priority[from], highest);
        InsertThread(from);
      }
      RemoveThread(to, IsRunning);
    }

    // ---------- what other parts of the kernel do to threads ----------

    /** `rt_thread_resume` of a thread that is suspended */
    method Resume(t: nat)
      requires Valid() && t < |stat|
      modifies `ready, `stat
      ensures Valid() && View() == Moved(old(View()), DoResume(t))
      ensures old(stat[t]) != Suspended ==> View() == old(View())
      ensures old(stat[t]) == Suspended ==> stat == old(stat)[t := if t == current then IsRunning else IsReady]
      ensures old(stat[t]) == Suspended && t != current ==>
        var p, table := priority[t], old(ready).table;
        ready.table == table[p := if yielding[t] then table[p] + [t] else [t] + table[p]]
    {
      if stat[t] != Suspended {
        return;
      }
      InsertThread(t);
    }

    /** `rt_thread_suspend_with_flag` of the calling thread */
    method SuspendSelf()
      requires Valid()
      modifies `ready, `stat
      ensures Valid() && View() == Moved(old(View()), DoSuspendSelf)
      ensures ready.table == old(ready).table
      ensures stat == if old(stat[current]) == IsRunning then old(stat)[current := Suspended] else old(stat)
    {
      if stat[current] != IsReady && stat[current] != IsRunning {
        return;
      }
      assert ListedAt(ready.table[priority[current]], stat, priority, priority[current]);
      RemoveThread(current, Suspended);
    }

    /** `rt_thread_control` with RT_THREAD_CTRL_CHANGE_PRIORITY */
    method ChangePriority(t: nat, p: nat)
      requires Valid() && t < |stat| && p < PRIORITIES
      modifies `ready, `stat, `priority
      ensures Valid() && stat == old(stat) && priority == old(priority)[t := p]
      ensures View() == Moved(old(View()), DoChangePriority(t, p))
      ensures stat[t] == IsReady ==>
        ready.table[p] != [] && t == ready.table[p][if yielding[t] then |ready.table[p]| - 1 else 0]
      ensures stat[t] != IsReady ==> ready.table == old(ready).table
    {
      if stat[t] == IsReady {
        RemoveThread(t, Initial);
        PriorityKeepsListed(ready.table, stat, priority, t, p);
        priority := priority[t := p];
        InsertThread(t);
      } else {
        PriorityKeepsListed(ready.table, stat, priority, t, p);
        priority := priority[t := p];
      }
    }

    /** `rt_thread_yield` */
    method Yield()
      requires Valid()
      modifies `ready, `stat, `yielding, `current, `currentPriority
      ensures Valid() && (lockNest == 0 ==> NoneMoreUrgent()) && View() == Moved(old(View()), DoYield)
      ensures lockNest == 0 && old(ready).group != 0 && old(AmongFirst()) ==>
        && stat[current] == IsRunning && current == old(ready).table[Top(old(ready))][0]
        && ready.table == Displaced(old(ready).table, old(current), priority[old(current)], Top(old(ready)))
      ensures lockNest != 0 ==> stat == old(stat) && current == old(current) && ready == old(ready)
      // the thread makes way to any that is as urgent
      ensures lockNest == 0 ==>
        (current != old(current) <==>
          exists t ::
            && 0 <= t < |old(stat)| && old(stat)[t] == IsReady
            && (old(stat)[old(current)] == IsRunning ==> priority[t] <= priority[old(current)]))
    {
      yielding := yielding[current := true];
      Schedule();
    }

    /** `rt_enter_critical` */
    method EnterCritical()
      requires Valid()
      modifies `lockNest
      ensures Valid() && View() == Moved(old(View()), DoEnterCritical)
      ensures -0x8000 <= old(lockNest) < 0x7fff ==> lockNest == old(lockNest) + 1
    {
      lockNest := Short(lockNest + 1);
    }

    /** `rt_exit_critical` */
    method ExitCritical()
      requires Valid()
      modifies `ready, `stat, `yielding, `current, `currentPriority, `lockNest
      ensures Valid() && View() == Moved(old(View()), DoExitCritical)
      ensures lockNest == 0 ==> NoneMoreUrgent() && (current != old(current) <==> old(Challenged()))
      ensures 1 < old(lockNest) < 0x8000 ==> lockNest == old(lockNest) - 1
      ensures -0x8000 < old(lockNest) <= 1 ==> lockNest == 0
      ensures lockNest != 0 ==> stat == old(stat) && current == old(current) && ready == old(ready)
    {
      lockNest := Short(lockNest - 1);
      if lockNest <= 0 {
        lockNest := 0;
        Schedule();
      }
    }

    method Perform(action: Action)
      requires Valid()
      modifies this
      ensures Valid() && View() == Moved(old(View()), action)
      ensures Schedules(action) && lockNest == 0 ==> NoneMoreUrgent()
    {
      match action
      case DoResume(t) => if t < |stat| { Resume(t); }
      case DoSuspendSelf => SuspendSelf();
      case DoChangePriority(t, p) => if t < |stat| && p < PRIORITIES { ChangePriority(t, p); }
      case DoYield => Yield();
      case DoSchedule => Schedule();
      case DoEnterCritical => EnterCritical();
      case DoExitCritical => ExitCritical();
    }

    /** Throughout every run the processor, which looks at the priority word, does what the lists alone
        ask for; and after a run that ends in a scheduling, a yield or the exit from a critical section,
        and leaves the scheduler unlocked, no ready thread is more urgent than the one on the processor. */
    method Run(actions: seq<Action>)
      requires Valid()
      modifies this
      ensures Valid() && View() == AfterAll(old(View()), actions)
      ensures actions != [] && Schedules(actions[|actions| - 1]) && lockNest == 0 ==> NoneMoreUrgent()
    {
      for i := 0 to |actions|
        invariant Valid() && View() == AfterAll(old(View()), actions[..i])
        invariant i > 0 && Schedules(actions[i - 1]) && lockNest == 0 ==> NoneMoreUrgent()
      {
        assert actions[..i + 1][..i] == actions[..i];
        Perform(actions[i]);
      }
      assert actions[..|actions|] == actions;
    }

    // ---------- yielding ----------

    /** A thread that yields is put in front of its list: however often they yield, the processor goes
        to and fro between it and the thread that was first, and no third thread of that priority runs. */
    method YieldRepeatedly(n: nat)
      requires Valid() && lockNest == 0 && stat[current] == IsRunning
      requires ready.group != 0 && Top(ready) == priority[current]
      modifies `ready, `stat, `yielding, `current, `currentPriority
      ensures Valid() && stat[current] == IsRunning
      ensures var l := old(ready).table[priority[old(current)]];
        && current == (if n % 2 == 0 then old(current) else l[0])
        && ready.table ==
          old(ready).table[priority[old(current)] := [if n % 2 == 0 then l[0] else old(current)] + l[1..]]
    {
      ghost var a, p, table := current, priority[current], ready.table;
      ghost var b, rest := table[p][0], table[p][1..];
      assert ListedAt(table[p], stat, priority, p) && b in table[p];
      assert table[p] == [b] + rest;
      assert ready.table == table[p := [b] + rest];
      var i := 0;
      while i < n
        invariant i <= n && Valid() && stat[current] == IsRunning
        invariant current == (if i % 2 == 0 then a else b)
        invariant ready.table == table[p := [if i % 2 == 0 then b else a] + rest]
      {
        SameTop(table, p);
        assert ready.table[p][1..] == rest;
        YieldToFirst();
        i := i + 1;
      }
    }

    /** A yield to a thread of the same priority. */
    method YieldToFirst()
      requires Valid() && lockNest == 0 && stat[current] == IsRunning && ready.group != 0
      requires Top(ready) == priority[current]
      modifies `ready, `stat, `yielding, `current, `currentPriority
      ensures Valid() && stat[current] == IsRunning && current == old(ready).table[Top(old(ready))][0]
      ensures ready.table == Displaced(old(ready).table, old(current), priority[old(current)], Top(old(ready)))
    {
      Yield();
    }

    /** The list of priority `p` is still the most urgent one. */
    lemma SameTop(table: seq<seq<nat>>, p: nat)
      requires Sound() && p < PRIORITIES == |table| && ready.table[p] != []
      requires forall q :: 0 <= q < p ==> table[q] == [] && ready.table[q] == table[q]
      ensures ready.group != 0 && Top(ready) == p
    {
      HighestIsLeast(ready);
    }
  }
}
