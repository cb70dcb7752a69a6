/**
  The search itself: `resolve_all_calls` and `calc_all_wcs` of rt-thread/tools/WCS.py, which write
  their results into dictionaries that all calls share.
 */
module WorstStack {
  import opened Wrappers
  import opened WorstStackGraph

  class Analysis {
    const fxns: Graph
    var rCalls: map<Key, seq<Key>>           // 'r_calls'
    var unresolved: map<Key, set<string>>    // 'unresolved_calls'
    var wcs: map<Key, Wcs>                   // 'wcs', once it is known
    var parents: seq<Key>
    ghost var rank: map<Key, nat>
    ghost var clock: nat

    ghost function Results(): Found
      reads this
    {
      Found(wcs, unresolved, rank, clock)
    }

    /** The list of resolved calls of `k` is complete. */
    ghost predicate Resolved(k: Key)
      reads `rCalls
    {
      && k in fxns && k in rCalls
      && (forall c :: c in rCalls[k] <==> Calls(fxns, k, c))
    }

    /** And so is the set of names that are not resolved. */
    ghost predicate Entered(k: Key)
      reads `rCalls, `unresolved
    {
      Resolved(k) && k in unresolved && unresolved[k] == Unresolved(fxns, k)
    }

    ghost predicate AllResolved()
      reads `rCalls
    {
      forall k {:trigger Resolved(k)} :: k in fxns ==> Resolved(k)
    }

    ghost predicate Valid()
      reads this
    {
      && unresolved.Keys == fxns.Keys && AllResolved()
      && Right(fxns, Results())
    }

    /** A function without a result that is not in `stack` has not been entered. */
    ghost predicate Untouched(stack: seq<Key>)
      reads this
      requires unresolved.Keys == fxns.Keys
    {
      forall k :: k in fxns && k !in wcs && k !in stack ==> unresolved[k] == Unresolved(fxns, k)
    }

    constructor (fxns: Graph)
      requires WellFormed(fxns)
      ensures this.fxns == fxns && parents == [] && clock == 1
      ensures wcs == map k | k in fxns && fxns[k].manual :: Finite(fxns[k].localStack)
      ensures rank == map k | k in fxns && fxns[k].manual :: 0
    {
      this.fxns := fxns;
      rCalls, unresolved, parents := map[], map[], [];
      wcs := map k | k in fxns && fxns[k].manual :: Finite(fxns[k].localStack);
      rank, clock := map k | k in fxns && fxns[k].manual :: 0, 1;
    }

    // ---------- resolve_all_calls ----------

    method ResolveCalls(k: Key)
      requires k in fxns
      modifies `rCalls, `unresolved
      ensures rCalls.Keys == old(rCalls).Keys + {k} && unresolved.Keys == old(unresolved).Keys + {k}
      ensures Entered(k) && forall j {:trigger Entered(j)} :: j != k && old(Entered(j)) ==> Entered(j)
    {
      var found, open := [], {};
      var todo := fxns[k].calls;
      while todo != {}
        invariant todo <= fxns[k].calls
        invariant forall c :: c in found <==> Calls(fxns, k, c) && c.name !in todo
        invariant open == Unresolved(fxns, k) - todo
        decreases todo
      {
        var call :| call in todo;
        var r := FindFxn(fxns, fxns[k].unit, call);
        if r.Some? {
          found := found + [r.value];
        } else {
          open := open + {call};
        }
        todo := todo - {call};
      }
      rCalls, unresolved := rCalls[k := found], unresolved[k := open];
    }

    method ResolveAllCalls()
      requires WellFormed(fxns) && parents == [] && clock == 1
      requires wcs == map k | k in fxns && fxns[k].manual :: Finite(fxns[k].localStack)
      requires rank == map k | k in fxns && fxns[k].manual :: 0
      modifies `rCalls, `unresolved
      ensures Valid() && Untouched([])
    {
      rCalls, unresolved := map[], map[];
      var todo := fxns.Keys;
      while todo != {}
        invariant todo <= fxns.Keys
        invariant rCalls.Keys == fxns.Keys - todo && unresolved.Keys == fxns.Keys - todo
        invariant forall k {:trigger Entered(k)} :: k in rCalls ==> Entered(k)
        decreases todo
      {
        var k :| k in todo;
        ResolveCalls(k);
        todo := todo - {k};
      }
      FirstResults();
      forall k | k in fxns ensures Entered(k) { }
    }

    /** The results that the search begins with, for functions whose stack was given by hand. */
    lemma FirstResults()
      requires WellFormed(fxns) && clock == 1
      requires wcs == map k | k in fxns && fxns[k].manual :: Finite(fxns[k].localStack)
      requires rank == map k | k in fxns && fxns[k].manual :: 0
      requires unresolved.Keys == fxns.Keys && forall k {:trigger Entered(k)} :: k in fxns ==> Entered(k)
      ensures Right(fxns, Results())
    {
      forall k | k in wcs ensures RightAt(fxns, Results(), k) { assert Entered(k); }
    }

    // ---------- calc_all_wcs ----------

    /** The search is at `a`, called by the last of `parents`, each of which calls the next; none of
        them is finished. */
    ghost predicate At(a: Key)
      reads this
    {
      && a in fxns && CallPath(fxns, parents + [a])
      && forall p :: p in parents ==> p !in wcs && !fxns[p].hasPtrCall
    }

    method MarkUnbounded(a: Key, ghost f0: Found)
      requires Valid() && a in fxns && Unbounded(fxns, a) && (a in wcs ==> wcs[a].UnboundedStack?)
      requires Keeps(f0, Results(), parents)
      modifies `wcs
      ensures Valid() && wcs == old(wcs)[a := UnboundedStack] && Keeps(f0, Results(), parents)
    {
      AddUnbounded(fxns, Results(), a);
      wcs := wcs[a := UnboundedStack];
    }

    /** `calc_wcs` */
    method CalcWcs(a: Key)
      requires Valid() && At(a) && Untouched(parents)
      modifies `unresolved, `wcs, `parents, `rank, `clock
      ensures Valid() && Keeps(old(Results()), Results(), parents) && parents == old(parents) && Untouched(parents)
      ensures a in wcs
      // a result for a function that still is on the stack means that the search is on its way back to it
      ensures forall p :: p in parents && p in wcs ==> wcs[p].UnboundedStack? && wcs[a].UnboundedStack?
      decreases fxns.Keys - (set p | p in parents), 3
    {
      if a in wcs {
        return;
      }
      if fxns[a].hasPtrCall {
        assert Endless(fxns, [a]);
        MarkUnbounded(a, Results());
        return;
      }
      if a in parents {
        OnStackUnbounded(fxns, parents, a);
        MarkUnbounded(a, Results());
        return;
      }
      SumCalls(a);
    }

    /** The part of `calc_wcs` for a function that is neither finished, nor on the stack, nor calls
        through a pointer: all calls are gathered. */
    method SumCalls(a: Key)
      requires Valid() && At(a) && Untouched(parents) && a !in wcs && a !in parents && !fxns[a].hasPtrCall
      modifies `unresolved, `wcs, `parents, `rank, `clock
      ensures Valid() && Keeps(old(Results()), Results(), parents) && parents == old(parents) && Untouched(parents)
      ensures a in wcs
      ensures forall p :: p in parents && p in wcs ==> wcs[p].UnboundedStack? && wcs[a].UnboundedStack?
      decreases fxns.Keys - (set p | p in parents), 2
    {
      assert Resolved(a);
      ghost var f0 := Results();
      var callMax := 0;
      var i := 0;
      while i < |rCalls[a]|
        invariant Summing(a, i, callMax, f0) && parents == old(parents)
      {
        var done;
        done, callMax := AddCall(a, i, callMax, f0);
        if done {
          return;
        }
        i := i + 1;
      }
      assert rCalls[a][..i] == rCalls[a];
      Finish(a, callMax, f0);
    }

    /** The first `i` calls of `a` are gathered, and `callMax` is the largest result for them; `f0` are the results
        from before the first one. */
    ghost predicate Summing(a: Key, i: nat, callMax: nat, f0: Found)
      reads this
    {
      && Valid() && At(a) && a !in wcs && a !in parents && !fxns[a].hasPtrCall && a in rCalls && i <= |rCalls[a]|
      && Keeps(f0, Results(), parents) && Untouched(parents + [a])
      && a in unresolved && Gathered(fxns, Results(), a, rCalls[a][..i], callMax)
    }

    /** The body of the loop over the calls. */
    method AddCall(a: Key, i: nat, callMax: nat, ghost f0: Found) returns (done: bool, m: nat)
      requires Summing(a, i, callMax, f0) && i < |rCalls[a]|
      requires forall k :: k in f0.wcs && k in f0.open ==> k in unresolved
      modifies `unresolved, `wcs, `parents, `rank, `clock
      ensures parents == old(parents) && unresolved.Keys == old(unresolved).Keys
      ensures !done ==> Summing(a, i + 1, m, f0)
      ensures done ==> Valid() && Keeps(f0, Results(), parents) && Untouched(parents) && a in wcs
      ensures done ==> forall p :: p in parents + [a] && p in wcs ==> wcs[p].UnboundedStack?
      decreases fxns.Keys - (set p | p in parents), 1
    {
      var c := rCalls[a][i];
      assert Resolved(a);
      assert rCalls[a][..i + 1] == rCalls[a][..i] + [c];
      ghost var f := Results();
      Descend(a, c, f0);
      if wcs[c].UnboundedStack? {
        PassOn(a, c, f0);
        return true, callMax;
      }
      m := Gather(a, c, f, rCalls[a][..i], callMax, f0);
      done := false;
    }

    /** The branch for a call of an unbounded function. */
    method PassOn(a: Key, c: Key, ghost f0: Found)
      requires Valid() && Calls(fxns, a, c) && c in wcs && wcs[c].UnboundedStack?
      requires (a in wcs ==> wcs[a].UnboundedStack?)
      requires Keeps(f0, Results(), parents)
      modifies `wcs
      ensures Valid() && wcs == old(wcs)[a := UnboundedStack] && Keeps(f0, Results(), parents)
    {
      assert RightAt(fxns, Results(), c);
      CallerUnbounded(fxns, a, c);
      MarkUnbounded(a, f0);
    }

    /** The last assignment of `calc_wcs`. */
    method Finish(a: Key, callMax: nat, ghost f0: Found)
      requires Keeps(f0, Results(), parents)
      requires Valid() && a in fxns && a !in wcs && !fxns[a].hasPtrCall && Untouched(parents + [a])
      requires a in rCalls && Gathered(fxns, Results(), a, rCalls[a], callMax)
      modifies `wcs, `rank, `clock
      ensures Valid() && Results() == Added(old(Results()), a, callMax + fxns[a].localStack)
      ensures Untouched(parents) && Keeps(f0, Results(), parents)
    {
      assert Resolved(a);
      GatheredAll(fxns, Results(), a, rCalls[a], callMax);
      AddFinite(fxns, Results(), a, callMax);
      wcs := wcs[a := Finite(callMax + fxns[a].localStack)];
      rank, clock := rank[a := clock], clock + 1;
    }

    /** The end of the loop body: the maximum so far, and the names of calls that are not resolved. */
    method Gather(a: Key, c: Key, ghost f: Found, ghost calls: seq<Key>, callMax: nat, ghost f0: Found) returns (m: nat)
      requires Keeps(f0, Results(), parents) && a !in parents && a !in f0.wcs
      requires Valid() && a in fxns && a !in wcs && a in f.open && f.open[a] == unresolved[a]
      requires c in wcs && wcs[c].Finite?
      requires Untouched(parents + [a]) && Keeps(f, Results(), parents) && Gathered(fxns, f, a, calls, callMax)
      modifies `unresolved
      ensures Valid() && c in old(unresolved) && a in old(unresolved)
      ensures Results() == Noting(old(Results()), a, c) && Keeps(f0, Results(), parents)
      ensures Untouched(parents + [a]) && Gathered(fxns, Results(), a, calls + [c], m)
    {
      assert RightAt(fxns, Results(), c);
      NextGathered(fxns, f, Results(), a, calls, callMax, c, parents);
      m := Max(callMax, wcs[c].bytes);
      OpenGrows(fxns, Results(), a, unresolved[a] + unresolved[c]);
      unresolved := unresolved[a := unresolved[a] + unresolved[c]];
    }

    /** The recursive call of `calc_wcs` for `c`, with `a` pushed on `parents`. */
    method Descend(a: Key, c: Key, ghost f0: Found)
      requires Valid() && At(a) && a !in parents && a !in wcs && !fxns[a].hasPtrCall && a in rCalls && c in rCalls[a]
      requires Untouched(parents + [a]) && Keeps(f0, Results(), parents)
      requires forall k :: k in f0.wcs && k in f0.open ==> k in unresolved
      modifies `unresolved, `wcs, `parents, `rank, `clock
      ensures Valid() && parents == old(parents) && Untouched(parents + [a]) && unresolved[a] == old(unresolved)[a]
      ensures Keeps(old(Results()), Results(), parents) && Keeps(f0, Results(), parents)
      ensures c in wcs
      ensures forall p :: p in parents + [a] && p in wcs ==> wcs[p].UnboundedStack? && wcs[c].UnboundedStack?
      decreases fxns.Keys - (set p | p in parents), 0
    {
      assert Resolved(a);
      Deeper(a, c);
      parents := parents + [a];
      ghost var f := Results();
      CalcWcs(c);
      parents := parents[..|parents| - 1];
      KeepsTransitive(f0, f, Results(), parents);
    }

    /** The search goes on from `a` to `c`. */
    lemma Deeper(a: Key, c: Key)
      requires At(a) && Calls(fxns, a, c) && a !in parents
      ensures CallPath(fxns, parents + [a] + [c])
      ensures fxns.Keys - (set p | p in parents + [a]) < fxns.Keys - (set p | p in parents)
    {
      var s := parents + [a] + [c];
      forall i | 0 <= i < |s| - 1 ensures Calls(fxns, s[i], s[i + 1]) {
        if i < |parents| { assert Calls(fxns, (parents + [a])[i], (parents + [a])[i + 1]); }
      }
      assert a in fxns.Keys - (set p | p in parents) && a !in fxns.Keys - (set p | p in parents + [a]);
    }

    /** The loops of `calc_all_wcs` over all functions, in any order. */
    method CalcAllWcs()
      requires Valid() && Untouched([]) && parents == []
      modifies `unresolved, `wcs, `parents, `rank, `clock
      ensures Valid() && fxns.Keys <= wcs.Keys
    {
      var todo := fxns.Keys;
      while todo != {}
        invariant todo <= fxns.Keys && Valid() && Untouched([]) && parents == [] && fxns.Keys - todo <= wcs.Keys
        decreases todo
      {
        var k :| k in todo;
        CalcWcs(k);
        todo := todo - {k};
      }
    }
  }

  /** The two passes over a call graph that has been read in. */
  method Analyse(fxns: Graph) returns (wcs: map<Key, Wcs>, unresolved: map<Key, set<string>>)
    requires WellFormed(fxns)
    ensures wcs.Keys == fxns.Keys && unresolved.Keys == fxns.Keys
    ensures forall a :: a in fxns ==> (wcs[a] == UnboundedStack <==> Unbounded(fxns, a))
    ensures forall a :: a in fxns && wcs[a].Finite? ==> IsWorst(fxns, a, wcs[a].bytes)
    ensures forall a, n :: a in fxns && wcs[a].Finite? ==> (n in unresolved[a] <==> LeadsOut(fxns, a, n))
  {
    var analysis := new Analysis(fxns);
    analysis.ResolveAllCalls();
    analysis.CalcAllWcs();
    ghost var f := analysis.Results();
    forall a | a in f.wcs
      ensures a in fxns && (f.wcs[a] == UnboundedStack <==> Unbounded(fxns, a))
      ensures f.wcs[a].Finite? ==>
        IsWorst(fxns, a, f.wcs[a].bytes) && a in f.open && forall n :: n in f.open[a] <==> LeadsOut(fxns, a, n)
    {
      assert RightAt(fxns, f, a);
      ResultsAreRight(fxns, f, a);
    }
    return analysis.wcs, analysis.unresolved;
  }
}
