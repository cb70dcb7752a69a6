/**
  What exact inheritance means for chains of blocked threads: a thread that is not deadlocked runs
  at the most urgent initial priority among itself and all threads blocked on it, directly or
  through other owners. For a thread on a ring of threads that wait for each other, the equations
  that the calls maintain allow a priority that no thread asks for.
 */
module MutexChains {
  import opened Wrappers
  import opened KernelLists
  import opened MutexState

  /** Thread `u` is blocked on a mutex that `t` owns. */
  predicate WaitsFor(s: State, u: Tid, t: Tid)
    requires WellSized(s)
  {
    u < |s.init| && s.suspended[u] && s.pending[u].Some? && s.owner[s.pending[u].value] == Some(t)
  }

  /** `c` leads from a blocked thread along the owners, each thread waiting for the next. */
  ghost predicate Chain(s: State, c: seq<Tid>)
    requires WellSized(s)
  {
    && c != [] && Below(c, |s.init|)
    && (forall i :: 0 <= i < |c| - 1 ==> WaitsFor(s, c[i], c[i + 1]))
  }

  ghost predicate ChainTo(s: State, c: seq<Tid>, t: Tid)
    requires WellSized(s)
  {
    Chain(s, c) && c[|c| - 1] == t
  }

  /** Thread `t` waits, through other threads, for itself. */
  ghost predicate OnRing(s: State, t: Tid)
    requires WellSized(s)
  {
    exists c :: ChainTo(s, c, t) && |c| > 1 && c[0] == t
  }

  /** The priority of `t` is the minimum over all threads transitively blocked on it, itself included. */
  ghost predicate IsChainMinimum(s: State, t: Tid)
    requires WellSized(s) && t < |s.init|
  {
    && (forall c :: ChainTo(s, c, t) ==> s.cur[t] <= s.init[c[0]])
    && (exists c :: ChainTo(s, c, t) && s.cur[t] == s.init[c[0]])
  }

  /** Along a chain threads only get more urgent, even while timed-out waiters are not cleaned up
      and on deadlocked chains. */
  lemma {:induction false} ChainRaises(s: State, c: seq<Tid>)
    requires Valid(s) && Chain(s, c)
    ensures s.cur[c[|c| - 1]] <= s.cur[c[0]] <= s.init[c[0]]
  {
    assert OwnerUrgent(s, c[0]);
    if |c| > 1 {
      assert WaitsFor(s, c[0], c[1]);
      var m := s.pending[c[0]].value;
      assert BlockedOn(s, c[0], m);
      assert OwnerUrgent(s, c[1]) && QueueInOrder(s, m);
      var i :| 0 <= i < |s.waiters[m]| && s.waiters[m][i] == c[0];
      assert s.cur[s.waiters[m][0]] <= s.cur[s.waiters[m][i]];
      assert forall j :: 0 <= j < |c[1..]| - 1 ==> WaitsFor(s, c[1..][j], c[1..][j + 1]) by {
        forall j | 0 <= j < |c[1..]| - 1 ensures WaitsFor(s, c[1..][j], c[1..][j + 1]) {
          assert WaitsFor(s, c[j + 1], c[j + 2]);
        }
      }
      ChainRaises(s, c[1..]);
    }
  }

  lemma {:induction false} DistinctIsShort(c: seq<nat>, n: nat)
    requires Distinct(c) && Below(c, n)
    ensures |c| <= n
  {
    if n == 0 {
    } else if n - 1 in c {
      var r := Without(c, n - 1);
      WithoutKeepsDistinct(c, n - 1);
      var i := WithoutSplits(c, n - 1);
      forall j | 0 <= j < |r| ensures r[j] < n - 1 { assert r[j] in r && r[j] in c; }
      DistinctIsShort(r, n - 1);
    } else {
      forall j | 0 <= j < |c| ensures c[j] < n - 1 { assert c[j] in c; }
      DistinctIsShort(c, n - 1);
    }
  }

  /** Each thread waits for one owner at most, so chains that meet stay together. */
  lemma {:induction false} ChainsMeet(s: State, c: seq<Tid>, i: nat, j: nat, k: nat)
    requires WellSized(s) && Chain(s, c) && i < j && j + k < |c| && c[i] == c[j]
    ensures c[i + k] == c[j + k]
  {
    if k > 0 {
      ChainsMeet(s, c, i, j, k - 1);
      assert WaitsFor(s, c[i + k - 1], c[i + k - 1 + 1]) && WaitsFor(s, c[j + k - 1], c[j + k - 1 + 1]);
    }
  }

  /** Part of a chain. */
  lemma ChainFrom(s: State, c: seq<Tid>, i: nat)
    requires WellSized(s) && Chain(s, c) && i < |c|
    ensures Chain(s, c[i..])
  {
    var d := c[i..];
    forall k | 0 <= k < |d| - 1 ensures WaitsFor(s, d[k], d[k + 1]) { assert WaitsFor(s, c[i + k], c[i + k + 1]); }
  }

  /** No thread occurs twice on a chain to a thread that is on no ring. */
  lemma ChainIsDistinct(s: State, c: seq<Tid>, t: Tid)
    requires WellSized(s) && ChainTo(s, c, t) && !OnRing(s, t)
    ensures Distinct(c)
  {
    forall i, j | 0 <= i < j < |c| ensures c[i] != c[j] {
      if c[i] == c[j] { RingFound(s, c, t, i, j); }
    }
  }

  lemma RingFound(s: State, c: seq<Tid>, t: Tid, i: nat, j: nat)
    requires WellSized(s) && ChainTo(s, c, t) && i < j < |c| && c[i] == c[j]
    ensures OnRing(s, t)
  {
    var n := |c| - 1;
    ChainsMeet(s, c, i, j, n - j);
    ChainFrom(s, c, n - (j - i));
    assert ChainTo(s, c[n - (j - i)..], t);
  }

  /** A thread more urgent than by itself owes it to the first waiter of one of its mutexes. */
  lemma LenderOf(s: State, t: Tid) returns (u: Tid)
    requires Valid(s) && Exact(s) && NoCeilings(s) && t < |s.init| && s.cur[t] != s.init[t]
    ensures WaitsFor(s, u, t) && s.cur[u] == s.cur[t]
  {
    assert ExactThread(s, t) && OwnerUrgent(s, t);
    var m :| m in s.taken[t] && s.cur[t] == Lent(m, s.prio, s.ceiling);
    assert ExactMutex(s, m) && s.owner[m] == Some(t);
    u := s.waiters[m][0];
    assert u in s.waiters[m] && BlockedOn(s, u, m);
  }

  /** Following the lenders from the front of a chain ends at a thread that lends its own priority. */
  lemma {:induction false} SourceOf(s: State, c: seq<Tid>, t: Tid) returns (d: seq<Tid>)
    requires Valid(s) && Exact(s) && NoCeilings(s) && ChainTo(s, c, t) && !OnRing(s, t)
    ensures ChainTo(s, d, t) && s.init[d[0]] == s.cur[c[0]]
    decreases |s.init| - |c|
  {
    if s.cur[c[0]] == s.init[c[0]] {
      d := c;
    } else {
      var u := LenderOf(s, c[0]);
      var e := [u] + c;
      forall i | 0 <= i < |e| - 1 ensures WaitsFor(s, e[i], e[i + 1]) {
        if i > 0 { assert WaitsFor(s, c[i - 1], c[i]); }
      }
      ChainIsDistinct(s, e, t);
      DistinctIsShort(e, |s.init|);
      d := SourceOf(s, e, t);
    }
  }

  /** Transitive priority inheritance, for every thread that does not wait for itself. */
  lemma InheritsFromChain(s: State, t: Tid)
    requires Valid(s) && Exact(s) && NoCeilings(s) && t < |s.init| && !OnRing(s, t)
    ensures IsChainMinimum(s, t)
  {
    forall c | ChainTo(s, c, t) ensures s.cur[t] <= s.init[c[0]] { ChainRaises(s, c); }
    assert ChainTo(s, [t], t);
    var d := SourceOf(s, [t], t);
    assert ChainTo(s, d, t);
  }
}
