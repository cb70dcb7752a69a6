/**
  Runs of several processors (rt-thread/src/scheduler_mp.c): whether each of them comes to know of every thread
  that it should run. The steps of all processors are interleaved in any order; each is a critical section under
  the lock that all share.
 */
module MultiRuns {
  import opened KernelLists
  import opened MultiScheduler
  import opened Scheduler
  import opened Wrappers

  /** A step of processor `cpu`. */
  datatype Step =
    | Startup(cpu: nat, t: nat)
    | Resume(cpu: nat, t: nat)
    | SuspendSelf(cpu: nat)
    | ChangePriority(cpu: nat, t: nat, p: nat)
    | CallScheduler(cpu: nat)
    | Yield(cpu: nat)
    | EnterCritical(cpu: nat)
    | ExitCritical(cpu: nat)
    | EnterIrq(cpu: nat)
    | HandleIpi(cpu: nat)
    | LeaveIrq(cpu: nat)
    | IrqSwitch(cpu: nat)

  /** On processor `d`, which does nothing itself, a more urgent thread can only wait after a scheduling on processor
      `c` if `d` was told. */
  lemma OthersStay(stat: seq<Stat>, stat2: seq<Stat>, current: seq<nat>, current2: seq<nat>, oncpu: seq<Owner>,
                   priority: seq<nat>, bind: seq<Owner>, c: nat, d: nat, ipi2: set<nat>)
    requires OnProcessors(stat, current, oncpu, None) && |priority| == |bind| == |stat| == |stat2|
    requires c < |current| == |current2| && d < |current| && c != d && current2[d] == current[d] && current2[c] < |stat|
    requires
      || stat2 == stat || stat2 == stat[current2[c] := IsRunning]
      || (&& stat2 == stat[current[c] := IsReady][current2[c] := IsRunning]
          && Others(bind[current[c]], c, |current|) <= ipi2)
    requires Serves(stat, current, priority, bind, d)
    ensures Serves(stat2, current2, priority, bind, d) || d in ipi2
  {
    assert oncpu[current[d]] == Some(d) && oncpu[current[c]] == Some(c);
  }

  /** After processor `c` made thread `t` ready and told others, or suspended its own. */
  lemma OthersStayOrTold(stat: seq<Stat>, stat2: seq<Stat>, current: seq<nat>, oncpu: seq<Owner>, priority: seq<nat>,
                         bind: seq<Owner>, t: nat, c: nat, d: nat, ipi2: set<nat>)
    requires OnProcessors(stat, current, oncpu, None) && |priority| == |bind| == |stat| && t < |stat|
    requires c < |current| && d < |current| && c != d && Serves(stat, current, priority, bind, d)
    requires
      || stat2 == stat || (t == current[c] && stat2 == stat[t := Suspended])
      || (if oncpu[t].Some? then stat2 == stat[t := IsRunning]
          else stat2 == stat[t := IsReady] && Others(bind[t], c, |current|) <= ipi2)
    ensures Serves(stat2, current, priority, bind, d) || d in ipi2
  {
    assert oncpu[current[d]] == Some(d) && oncpu[current[c]] == Some(c);
  }

  /** After thread `t` got another priority on processor `c`. */
  lemma OthersStayOrHear(stat: seq<Stat>, current: seq<nat>, oncpu: seq<Owner>, priority: seq<nat>, bind: seq<Owner>,
                         t: nat, p: nat, c: nat, d: nat, ipi2: set<nat>)
    requires OnProcessors(stat, current, oncpu, None) && |priority| == |bind| == |stat| && t < |stat| && d < |current|
    requires Serves(stat, current, priority, bind, d) && c != d
    requires stat[t] == IsReady ==> Others(bind[t], c, |current|) <= ipi2
    ensures Serves(stat, current, priority[t := p], bind, d) || d in ipi2 || (oncpu[t] == Some(d) && p > priority[t])
  {
    assert oncpu[current[d]] == Some(d);
  }

  class Machine {
    const mp: Multiprocessor
    /** Processors whose own code has done what calls for a scheduling and has not called the scheduler since. */
    ghost var owing: set<nat>
    /** Processors whose thread was made less urgent by another processor and that have not chosen a thread since. */
    ghost var demoted: set<nat>

    /** The processor runs what it should, or it will look again: an interrupt is pending or was taken and the switch
        is still to be made, or its scheduler is locked, or its own code is going to call the scheduler; or nobody
        has told it that its thread is less urgent now. */
    ghost predicate Covered(c: nat)
      requires mp.Sound() && c < |mp.current|
      reads this, mp
    {
      || mp.NoneMoreUrgent(c) || c in mp.ipi || mp.irqSwitch[c] || mp.lockNest[mp.current[c]] != 1
      || c in owing || c in demoted
    }

    ghost predicate Valid()
      reads this, mp
    {
      && mp.Valid() && (forall t :: 0 <= t < |mp.lockNest| ==> mp.lockNest[t] >= 1)
      && forall c {:trigger Covered(c)} :: 0 <= c < |mp.current| ==> Covered(c)
    }

    constructor (cpus: nat, threads: nat)
      requires cpus <= threads
      ensures Valid() && fresh(mp) && |mp.current| == cpus && |mp.stat| == threads
      ensures owing == {} && demoted == {}
    {
      mp := new Multiprocessor(cpus, threads);
      owing, demoted := {}, {};
    }

    // ---------- steps ----------

    method Startup(c: nat, t: nat)
      requires Valid() && c < |mp.current| && t < |mp.stat|
      modifies this, mp
      ensures Valid() && |mp.current| == |old(mp.current)| && |mp.stat| == |old(mp.stat)|
      ensures owing == old(owing) + {c} && demoted == old(demoted)
    {
      mp.Startup(t, c);
      owing := owing + {c};
      forall d | 0 <= d < |mp.current| ensures Covered(d) {
        assert old(Covered(d));
        if d != c && old(mp.NoneMoreUrgent(d)) {
          OthersStayOrTold(old(mp.stat), mp.stat, mp.current, mp.oncpu, mp.priority, mp.bind, t, c, d, mp.ipi);
        }
      }
    }

    method Resume(c: nat, t: nat)
      requires Valid() && c < |mp.current| && t < |mp.stat|
      modifies this, mp
      ensures Valid() && |mp.current| == |old(mp.current)| && |mp.stat| == |old(mp.stat)|
      ensures owing == old(owing) + {c} && demoted == old(demoted)
    {
      mp.Resume(t, c);
      owing := owing + {c};
      forall d | 0 <= d < |mp.current| ensures Covered(d) {
        assert old(Covered(d));
        if d != c && old(mp.NoneMoreUrgent(d)) {
          OthersStayOrTold(old(mp.stat), mp.stat, mp.current, mp.oncpu, mp.priority, mp.bind, t, c, d, mp.ipi);
        }
      }
    }

    method SuspendSelf(c: nat)
      requires Valid() && c < |mp.current|
      modifies this, mp
      ensures Valid() && |mp.current| == |old(mp.current)| && |mp.stat| == |old(mp.stat)|
      ensures owing == old(owing) + {c} && demoted == old(demoted)
    {
      mp.SuspendSelf(c);
      owing := owing + {c};
      forall d | 0 <= d < |mp.current| ensures Covered(d) {
        assert old(Covered(d));
        if d != c && old(mp.NoneMoreUrgent(d)) {
          OthersStayOrTold(old(mp.stat), mp.stat, mp.current, mp.oncpu, mp.priority, mp.bind, mp.current[c], c, d,
                           mp.ipi);
        }
      }
    }

    /** The processor other than `c` on which thread `t` is, if the priority `p` makes it less urgent. */
    ghost function Demotes(c: nat, t: nat, p: nat): set<nat>
      requires mp.Sound() && t < |mp.stat|
      reads mp
    {
      var o := mp.oncpu[t];
      if o.Some? && o != Some(c) && p > mp.priority[t] then {o.value} else {}
    }

    /** Nobody tells another processor that its thread is less urgent now. */
    method ChangePriority(c: nat, t: nat, p: nat)
      requires Valid() && c < |mp.current| && t < |mp.stat| && p < PRIORITIES
      modifies this, mp
      ensures Valid() && |mp.current| == |old(mp.current)| && |mp.stat| == |old(mp.stat)|
      ensures owing == old(owing) + {c}
      ensures demoted == old(demoted) + old(Demotes(c, t, p))
    {
      demoted := demoted + Demotes(c, t, p);
      mp.ChangePriority(t, p, c);
      owing := owing + {c};
      forall d | 0 <= d < |mp.current| ensures Covered(d) {
        assert old(Covered(d));
        if d != c && old(mp.NoneMoreUrgent(d)) {
          OthersStayOrHear(mp.stat, mp.current, mp.oncpu, old(mp.priority), mp.bind, t, p, c, d, mp.ipi);
        }
      }
    }

    /** A scheduling on processor `c` leaves the others covered. */
    twostate lemma OthersCovered(c: nat)
      requires old(mp.Valid()) && mp.Valid() && c < |mp.current| == old(|mp.current|) && |mp.stat| == old(|mp.stat|)
      requires mp.priority == old(mp.priority) && mp.bind == old(mp.bind) && mp.lockNest == old(mp.lockNest)
      requires mp.Switched(old(mp.stat), old(mp.ipi), c, old(mp.current)[c]) && old(mp.ipi) <= mp.ipi
      requires forall d :: 0 <= d < |mp.current| && d != c ==>
        mp.current[d] == old(mp.current)[d] && mp.irqSwitch[d] == old(mp.irqSwitch)[d]
      requires owing >= old(owing) - {c} && demoted >= old(demoted) - {c}
      requires forall d {:trigger old(Covered(d))} :: 0 <= d < |mp.current| ==> old(Covered(d))
      ensures forall d {:trigger Covered(d)} :: 0 <= d < |mp.current| && d != c ==> Covered(d)
    {
      forall d | 0 <= d < |mp.current| && d != c ensures Covered(d) {
        assert old(Covered(d));
        if old(mp.NoneMoreUrgent(d)) {
          OthersStay(old(mp.stat), mp.stat, old(mp.current), mp.current, old(mp.oncpu), mp.priority, mp.bind, c, d,
                     mp.ipi);
        }
      }
    }

    method Schedule(c: nat)
      requires Valid() && c < |mp.current|
      modifies this, mp
      ensures Valid() && |mp.current| == |old(mp.current)| && |mp.stat| == |old(mp.stat)|
      ensures owing == old(owing) - {c}
      ensures demoted == if old(mp.Open(c)) then old(demoted) - {c} else old(demoted)
    {
      if mp.Open(c) {
        demoted := demoted - {c};
      }
      owing := owing - {c};
      mp.Schedule(c);
      assert old(Covered(c));
      OthersCovered(c);
    }

    method Yield(c: nat)
      requires Valid() && c < |mp.current|
      modifies this, mp
      ensures Valid() && |mp.current| == |old(mp.current)| && |mp.stat| == |old(mp.stat)|
      ensures owing == old(owing) - {c}
      ensures demoted == if old(mp.Open(c)) then old(demoted) - {c} else old(demoted)
    {
      if mp.Open(c) {
        demoted := demoted - {c};
      }
      owing := owing - {c};
      mp.Yield(c);
      assert old(Covered(c));
      OthersCovered(c);
    }

    method IrqSwitch(c: nat)
      requires Valid() && c < |mp.current|
      modifies this, mp
      ensures Valid() && |mp.current| == |old(mp.current)| && |mp.stat| == |old(mp.stat)|
      ensures owing == old(owing)
      ensures demoted == if old(mp.Open(c)) && old(mp.irqSwitch)[c] then old(demoted) - {c} else old(demoted)
    {
      if mp.Open(c) && mp.irqSwitch[c] {
        demoted := demoted - {c};
      }
      mp.IrqSwitch(c);
      assert old(Covered(c));
      OthersCovered(c);
    }

    method EnterCritical(c: nat)
      requires Valid() && c < |mp.current|
      modifies this, mp
      ensures Valid() && |mp.current| == |old(mp.current)| && |mp.stat| == |old(mp.stat)|
      ensures owing == old(owing) && demoted == old(demoted)
    {
      mp.EnterCritical(c);
      forall d | 0 <= d < |mp.current| ensures Covered(d) {
        assert old(Covered(d)) && mp.oncpu[mp.current[d]] == Some(d);
      }
    }

    method ExitCritical(c: nat)
      requires Valid() && c < |mp.current|
      modifies this, mp
      ensures Valid() && |mp.current| == |old(mp.current)| && |mp.stat| == |old(mp.stat)|
      ensures demoted == old(demoted)
      ensures owing == if old(mp.lockNest[mp.current[c]]) == 2 then old(owing) + {c} else old(owing)
    {
      var unlocked := mp.ExitCritical(c);
      if unlocked {
        owing := owing + {c};
      }
      forall d | 0 <= d < |mp.current| ensures Covered(d) {
        assert old(Covered(d)) && mp.oncpu[mp.current[d]] == Some(d);
      }
    }

    method EnterIrq(c: nat)
      requires Valid() && c < |mp.current|
      modifies this, mp
      ensures Valid() && |mp.current| == |old(mp.current)| && |mp.stat| == |old(mp.stat)|
      ensures owing == old(owing) && demoted == old(demoted)
    {
      mp.EnterIrq(c);
      forall d | 0 <= d < |mp.current| ensures Covered(d) { assert old(Covered(d)); }
    }

    method LeaveIrq(c: nat)
      requires Valid() && c < |mp.current| && mp.irqNest[c] > 0
      modifies this, mp
      ensures Valid() && |mp.current| == |old(mp.current)| && |mp.stat| == |old(mp.stat)|
      ensures owing == old(owing) && demoted == old(demoted)
    {
      mp.LeaveIrq(c);
      forall d | 0 <= d < |mp.current| ensures Covered(d) { assert old(Covered(d)); }
    }

    method HandleIpi(c: nat)
      requires Valid() && c < |mp.current| && mp.irqNest[c] > 0
      modifies this, mp
      ensures Valid() && |mp.current| == |old(mp.current)| && |mp.stat| == |old(mp.stat)|
      ensures owing == old(owing) && demoted == old(demoted)
    {
      mp.HandleIpi(c);
      forall d | 0 <= d < |mp.current| ensures Covered(d) { assert old(Covered(d)); }
    }

    predicate Possible(a: Step)
      reads mp
    {
      && a.cpu < |mp.current| && |mp.irqNest| == |mp.current|
      && match a
         case Startup(_, t) => t < |mp.stat|
         case Resume(_, t) => t < |mp.stat|
         case ChangePriority(_, t, p) => t < |mp.stat| && p < PRIORITIES
         case HandleIpi(c) => mp.irqNest[c] > 0
         case LeaveIrq(c) => mp.irqNest[c] > 0
         case _ => true
    }

    /** What step `a` makes of `owing`. */
    ghost function NowOwing(a: Step): set<nat>
      requires mp.Sound() && Possible(a)
      reads this, mp
    {
      match a
      case CallScheduler(c) => owing - {c}
      case Yield(c) => owing - {c}
      case ExitCritical(c) => if mp.lockNest[mp.current[c]] == 2 then owing + {c} else owing
      case EnterCritical(_) => owing
      case EnterIrq(_) => owing
      case HandleIpi(_) => owing
      case LeaveIrq(_) => owing
      case IrqSwitch(_) => owing
      case _ => owing + {a.cpu}
    }

    /** And of `demoted`. */
    ghost function NowDemoted(a: Step): set<nat>
      requires mp.Sound() && Possible(a)
      reads this, mp
    {
      match a
      case ChangePriority(c, t, p) => demoted + Demotes(c, t, p)
      case CallScheduler(c) => if mp.Open(c) then demoted - {c} else demoted
      case Yield(c) => if mp.Open(c) then demoted - {c} else demoted
      case IrqSwitch(c) => if mp.Open(c) && mp.irqSwitch[c] then demoted - {c} else demoted
      case _ => demoted
    }

    /** Performs `a` if it is possible in the current state, else nothing. */
    method Perform(a: Step)
      requires Valid()
      modifies this, mp
      ensures Valid() && owing == (if old(Possible(a)) then old(NowOwing(a)) else old(owing))
      ensures demoted == if old(Possible(a)) then old(NowDemoted(a)) else old(demoted)
    {
      if !Possible(a) {
        return;
      }
      match a
      case Startup(c, t) => Startup(c, t);
      case Resume(c, t) => Resume(c, t);
      case SuspendSelf(c) => SuspendSelf(c);
      case ChangePriority(c, t, p) => ChangePriority(c, t, p);
      case CallScheduler(c) => Schedule(c);
      case Yield(c) => Yield(c);
      case EnterCritical(c) => EnterCritical(c);
      case ExitCritical(c) => ExitCritical(c);
      case EnterIrq(c) => EnterIrq(c);
      case HandleIpi(c) => HandleIpi(c);
      case LeaveIrq(c) => LeaveIrq(c);
      case IrqSwitch(c) => IrqSwitch(c);
    }

    /** After every run, of all processors in any interleaving, each of them is covered: once nothing is pending,
        each runs a thread as urgent as any that waits and may run there, unless another processor has demoted its
        own. None is demoted if nobody changes a priority. */
    method Run(steps: seq<Step>)
      requires Valid()
      modifies this, mp
      ensures Valid()
      ensures Quiet() ==> forall c :: 0 <= c < |mp.current| && c !in demoted ==> mp.NoneMoreUrgent(c)
      ensures (forall n :: 0 <= n < |steps| ==> !steps[n].ChangePriority?) ==> demoted <= old(demoted)
    {
      for n := 0 to |steps|
        invariant Valid()
        invariant (forall k :: 0 <= k < n ==> !steps[k].ChangePriority?) ==> demoted <= old(demoted)
      {
        Perform(steps[n]);
      }
      if Quiet() {
        forall c | 0 <= c < |mp.current| && c !in demoted ensures mp.NoneMoreUrgent(c) { NoneMissed(c); }
      }
    }

    /** Nothing is pending on any processor. */
    ghost predicate Quiet()
      requires mp.Sound()
      reads this, mp
    {
      && owing == {} && forall c :: 0 <= c < |mp.current| ==>
        c !in mp.ipi && !mp.irqSwitch[c] && mp.lockNest[mp.current[c]] == 1
    }

    /** Then no processor runs a thread while a more urgent one that may run there waits; except those
        whose thread another processor has made less urgent. */
    lemma NoneMissed(c: nat)
      requires Valid() && Quiet() && c < |mp.current| && c !in demoted
      ensures mp.NoneMoreUrgent(c)
    {
      assert Covered(c);
    }
  }

  /** Threads 0 and 1 run on two processors, and thread 2 is in state `third`. */
  ghost predicate Are(mp: Multiprocessor, third: Stat, priority: seq<nat>, ipi: set<nat>, flag: bool)
    reads mp
  {
    && mp.Valid() && mp.current == [0, 1] && mp.stat == [IsRunning, IsRunning, third] && mp.priority == priority
    && mp.bind == [None, None, None] && mp.lockNest == [1, 1, 1] && mp.ipi == ipi
    && mp.irqSwitch == [false, flag] && mp.irqNest == [0, 0]
  }

  method TwoThreads() returns (mp: Multiprocessor)
    ensures fresh(mp) && Are(mp, Initial, [0, 0, 5], {}, false)
  {
    mp := new Multiprocessor(2, 3);
    mp.ChangePriority(2, 5, 0);
  }

  /** Thread 2, of priority 5, is started on processor 0, which goes on with thread 0. */
  method ThirdThread() returns (mp: Multiprocessor)
    ensures fresh(mp) && Are(mp, IsReady, [0, 0, 5], {1}, false)
  {
    mp := TwoThreads();
    mp.Startup(2, 0);
    assert Others(None, 0, 2) == {1};
    CallScheduler(mp, [0, 0, 5], {1}, false);
  }

  method CallScheduler(mp: Multiprocessor, ghost priority: seq<nat>, ghost ipi: set<nat>, ghost flag: bool)
    requires Are(mp, IsReady, priority, ipi, flag) && |priority| == 3 && priority[0] < priority[2]
    modifies mp
    ensures Are(mp, IsReady, priority, ipi, flag)
  {
    assert mp.Leads(0);
    mp.Schedule(0);
  }

  /** Processor 1 is told of it, and goes on with thread 1. */
  method Hear(mp: Multiprocessor)
    requires Are(mp, IsReady, [0, 0, 5], {1}, false)
    modifies mp
    ensures Are(mp, IsReady, [0, 0, 5], {}, false)
  {
    mp.EnterIrq(1);
    mp.HandleIpi(1);
    mp.LeaveIrq(1);
    assert Are(mp, IsReady, [0, 0, 5], {}, true);
    assert mp.Leads(1);
    mp.IrqSwitch(1);
  }

  /** Processor 0 makes thread 1 less urgent than thread 2 and calls the scheduler: nothing is pending anywhere then,
      and processor 1 goes on with thread 1. */
  method Demote() returns (mp: Multiprocessor)
    ensures fresh(mp) && Are(mp, IsReady, [0, 10, 5], {}, false) && !mp.NoneMoreUrgent(1)
  {
    mp := ThirdThread();
    Hear(mp);
    mp.ChangePriority(1, 10, 0);
    assert Are(mp, IsReady, [0, 10, 5], {}, false);
    CallScheduler(mp, [0, 10, 5], {}, false);
    assert mp.stat[2] == IsReady;
  }
}
