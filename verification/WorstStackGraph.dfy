/**
  Worst-case stack analysis (rt-thread/tools/WCS.py): a memoised depth-first search over the call
  graph of a program, which may be cyclic and may have calls that cannot be resolved.
 */
module WorstStackGraph {
  import opened Wrappers

  /** The two dictionaries of the call graph: a function is global, or local to a translation unit. */
  datatype Key = Global(name: string) | Local(name: string, unit: string)

  /** A function as read from the compiler's output, or (`manual`) from a file of given stack sizes. */
  datatype Fxn = Fxn(unit: string, calls: set<string>, hasPtrCall: bool, localStack: nat, manual: bool)

  type Graph = map<Key, Fxn>

  /** What `read_manual` enters: no calls at all. */
  ghost predicate WellFormed(g: Graph) {
    forall k :: k in g && g[k].manual ==> g[k].calls == {} && !g[k].hasPtrCall
  }

  /** `find_fxn`: a global function hides a local one. */
  function FindFxn(g: Graph, unit: string, name: string): (r: Option<Key>)
    ensures r.Some? ==> r.value in g && r.value.name == name && (r.value.Local? ==> r.value.unit == unit)
    ensures r.None? <==> Global(name) !in g && Local(name, unit) !in g
    ensures Global(name) in g ==> r == Some(Global(name))
  {
    if Global(name) in g then Some(Global(name))
    else if Local(name, unit) in g then Some(Local(name, unit))
    else None
  }

  ghost predicate Calls(g: Graph, a: Key, b: Key) {
    a in g && b.name in g[a].calls && FindFxn(g, g[a].unit, b.name) == Some(b)
  }

  /** The calls of `a` that lead out of the graph. */
  ghost function Unresolved(g: Graph, a: Key): set<string>
    requires a in g
  {
    set c | c in g[a].calls && FindFxn(g, g[a].unit, c).None?
  }

  // ---------- the specification: all call paths ----------

  ghost predicate CallPath(g: Graph, p: seq<Key>) {
    p != [] && (forall k :: k in p ==> k in g) && forall i :: 0 <= i < |p| - 1 ==> Calls(g, p[i], p[i + 1])
  }

  function StackOf(g: Graph, p: seq<Key>): nat
    requires forall k :: k in p ==> k in g
  {
    if p == [] then 0 else g[p[0]].localStack + StackOf(g, p[1..])
  }

  /** A call path that makes the stack depth unknown: it ends in a function that calls through a
      pointer, or in one that is already on the path. */
  ghost predicate Endless(g: Graph, p: seq<Key>) {
    CallPath(g, p) && (g[p[|p| - 1]].hasPtrCall || p[|p| - 1] in p[..|p| - 1])
  }

  ghost predicate Unbounded(g: Graph, a: Key) {
    exists p :: Endless(g, p) && p[0] == a
  }

  /** `w` is the largest stack depth of all call paths from `a`. */
  ghost predicate IsWorst(g: Graph, a: Key, w: nat) {
    && (forall p :: CallPath(g, p) && p[0] == a ==> StackOf(g, p) <= w)
    && (exists p :: CallPath(g, p) && p[0] == a && StackOf(g, p) == w)
  }

  /** Some call path from `a` leads to a call of `name` that is not resolved. */
  ghost predicate LeadsOut(g: Graph, a: Key, name: string) {
    exists p :: CallPath(g, p) && p[0] == a && name in Unresolved(g, p[|p| - 1])
  }

  /** The worst depth does not depend on how it was found. */
  lemma WorstIsUnique(g: Graph, a: Key, w: nat, v: nat)
    requires IsWorst(g, a, w) && IsWorst(g, a, v)
    ensures w == v
  {
    var p :| CallPath(g, p) && p[0] == a && StackOf(g, p) == w;
    var q :| CallPath(g, q) && q[0] == a && StackOf(g, q) == v;
    assert StackOf(g, p) <= v && StackOf(g, q) <= w;
  }

  // ---------- extending paths ----------

  lemma Prepend(g: Graph, a: Key, p: seq<Key>)
    requires CallPath(g, p) && Calls(g, a, p[0])
    ensures CallPath(g, [a] + p) && StackOf(g, [a] + p) == g[a].localStack + StackOf(g, p)
  {
    var q := [a] + p;
    assert q[1..] == p;
    forall i | 0 <= i < |q| - 1 ensures Calls(g, q[i], q[i + 1]) {
      if i > 0 { assert Calls(g, p[i - 1], p[i]); }
    }
  }

  lemma Tail(g: Graph, p: seq<Key>)
    requires CallPath(g, p) && |p| > 1
    ensures CallPath(g, p[1..]) && Calls(g, p[0], p[1])
  {
    var q := p[1..];
    forall i | 0 <= i < |q| - 1 ensures Calls(g, q[i], q[i + 1]) {
      assert Calls(g, p[i + 1], p[i + 2]);
    }
  }

  lemma CallerUnbounded(g: Graph, a: Key, b: Key)
    requires Calls(g, a, b) && Unbounded(g, b)
    ensures Unbounded(g, a)
  {
    var p :| Endless(g, p) && p[0] == b;
    Prepend(g, a, p);
    var q := [a] + p;
    assert q[|q| - 1] == p[|p| - 1];
    if p[|p| - 1] in p[..|p| - 1] {
      var i :| 0 <= i < |p| - 1 && p[i] == p[|p| - 1];
      assert q[..|q| - 1][i + 1] == p[i];
    }
    assert Endless(g, q);
  }

  /** A function met again on the stack is recursive. */
  lemma OnStackUnbounded(g: Graph, parents: seq<Key>, a: Key)
    requires CallPath(g, parents + [a]) && a in parents
    ensures Unbounded(g, a)
  {
    var i :| 0 <= i < |parents| && parents[i] == a;
    var s := parents + [a];
    var p := s[i..];
    forall j | 0 <= j < |p| - 1 ensures Calls(g, p[j], p[j + 1]) {
      assert Calls(g, s[i + j], s[i + j + 1]);
    }
    assert p[..|p| - 1][0] == a;
    assert Endless(g, p);
  }

  // ---------- what the search has found so far ----------

  datatype Wcs = Finite(bytes: nat) | UnboundedStack

  /** The results found so far, and for the finite ones the order in which they were found. */
  datatype Found = Found(wcs: map<Key, Wcs>, open: map<Key, set<string>>, rank: map<Key, nat>, clock: nat)

  /** The result for `k` follows from the earlier results of all functions it calls. */
  ghost predicate Settled(g: Graph, f: Found, k: Key)
    requires k in f.wcs && f.wcs[k].Finite?
  {
    && k in g && k in f.open && k in f.rank && f.rank[k] < f.clock && !g[k].hasPtrCall
    && g[k].localStack <= f.wcs[k].bytes
    && (forall c :: Calls(g, k, c) ==> Earlier(g, f, k, c))
    && (f.wcs[k].bytes == g[k].localStack || exists c :: Calls(g, k, c) && Deepest(g, f, k, c))
    && (forall n :: n in f.open[k] <==>
      n in Unresolved(g, k) || exists c :: Calls(g, k, c) && c in f.open && n in f.open[c])
  }

  ghost predicate Earlier(g: Graph, f: Found, k: Key, c: Key)
    requires k in g && k in f.rank && k in f.wcs && f.wcs[k].Finite?
  {
    && c in f.wcs && f.wcs[c].Finite? && c in f.rank && f.rank[c] < f.rank[k]
    && g[k].localStack + f.wcs[c].bytes <= f.wcs[k].bytes
  }

  ghost predicate Deepest(g: Graph, f: Found, k: Key, c: Key)
    requires k in g && k in f.wcs && f.wcs[k].Finite?
  {
    c in f.wcs && f.wcs[c].Finite? && g[k].localStack + f.wcs[c].bytes == f.wcs[k].bytes
  }

  ghost predicate RightAt(g: Graph, f: Found, k: Key)
    requires k in f.wcs
  {
    if f.wcs[k].Finite? then Settled(g, f, k) else k in g && Unbounded(g, k)
  }

  ghost predicate Right(g: Graph, f: Found) {
    forall k {:trigger RightAt(g, f, k)} :: k in f.wcs ==> RightAt(g, f, k)
  }

  // ---------- what the search does to it ----------

  lemma AddUnbounded(g: Graph, f: Found, a: Key)
    requires Right(g, f) && a in g && Unbounded(g, a) && (a in f.wcs ==> f.wcs[a].UnboundedStack?)
    ensures Right(g, f.(wcs := f.wcs[a := UnboundedStack]))
  {
    var f' := f.(wcs := f.wcs[a := UnboundedStack]);
    forall k | k in f'.wcs ensures RightAt(g, f', k) {
      if k in f.wcs {
        SettledStays(g, f, f', k);
      }
    }
  }

  /** More names noted for a function without a result. */
  lemma OpenGrows(g: Graph, f: Found, a: Key, names: set<string>)
    requires Right(g, f) && a !in f.wcs
    ensures Right(g, f.(open := f.open[a := names]))
  {
    var f' := f.(open := f.open[a := names]);
    forall k | k in f'.wcs ensures RightAt(g, f', k) {
      if k in f.wcs {
        SettledStays(g, f, f', k);
      }
    }
  }

  /** What is known at the end of the loop of `calc_wcs` over the functions that `a` calls. */
  ghost predicate Summed(g: Graph, f: Found, a: Key, callMax: nat)
    requires a in g && a in f.open
  {
    && (forall c :: Calls(g, a, c) ==> Below(f, c, callMax))
    && (callMax == 0 || exists c :: Calls(g, a, c) && Below(f, c, callMax) && f.wcs[c].bytes == callMax)
    && (forall n :: n in f.open[a] <==>
      n in Unresolved(g, a) || exists c :: Calls(g, a, c) && c in f.open && n in f.open[c])
  }

  ghost predicate Below(f: Found, c: Key, callMax: nat) {
    c in f.wcs && f.wcs[c].Finite? && f.wcs[c].bytes <= callMax && c in f.rank && f.rank[c] < f.clock && c in f.open
  }

  /** One of `calls` has the result `m`. */
  ghost predicate Attained(f: Found, calls: seq<Key>, m: nat) {
    exists c :: c in calls && c in f.wcs && f.wcs[c] == Finite(m)
  }

  ghost predicate Noted(f: Found, calls: seq<Key>, n: string) {
    exists c :: c in calls && c in f.open && n in f.open[c]
  }

  function Added(f: Found, a: Key, bytes: nat): Found {
    f.(wcs := f.wcs[a := Finite(bytes)], rank := f.rank[a := f.clock], clock := f.clock + 1)
  }

  lemma AddFinite(g: Graph, f: Found, a: Key, callMax: nat)
    requires Right(g, f) && a in g && !g[a].hasPtrCall && a !in f.wcs && a in f.open && Summed(g, f, a, callMax)
    ensures Right(g, Added(f, a, callMax + g[a].localStack))
  {
    var f' := Added(f, a, callMax + g[a].localStack);
    forall k | k in f'.wcs ensures RightAt(g, f', k) {
      if k != a {
        SettledStays(g, f, f', k);
      } else {
        forall c | Calls(g, a, c) ensures Earlier(g, f', a, c) { assert Below(f, c, callMax); }
        if callMax > 0 {
          var c :| Calls(g, a, c) && Below(f, c, callMax) && f.wcs[c].bytes == callMax;
          assert Deepest(g, f', a, c);
        }
      }
    }
  }

  /** What a call of `calc_wcs` leaves alone: results, and the names noted for functions that have a
      result or are on the stack. */
  ghost predicate Keeps(f: Found, f': Found, stack: seq<Key>) {
    && f.clock <= f'.clock
    && (forall k :: k in f.wcs ==> k in f'.wcs && f'.wcs[k] == f.wcs[k])
    && (forall k :: k in f.wcs && k in f.rank ==> k in f'.rank && f'.rank[k] == f.rank[k])
    && (forall k :: k in f.open && (k in f.wcs || k in stack) ==> k in f'.open && f'.open[k] == f.open[k])
  }

  lemma KeepsTransitive(f: Found, f': Found, f'': Found, stack: seq<Key>)
    requires Keeps(f, f', stack) && Keeps(f', f'', stack)
    requires forall k :: k in f.wcs && k in f.open ==> k in f'.open
    ensures Keeps(f, f'', stack)
  {
  }

  /** The loop of `calc_wcs` for `a` has gone through `calls`. */
  ghost predicate Gathered(g: Graph, f: Found, a: Key, calls: seq<Key>, callMax: nat)
    requires a in g && a in f.open
  {
    && (forall c :: c in calls ==> Below(f, c, callMax))
    && (callMax == 0 || Attained(f, calls, callMax))
    && (forall n :: n in f.open[a] <==> n in Unresolved(g, a) || Noted(f, calls, n))
  }

  function Noting(f: Found, a: Key, d: Key): Found
    requires a in f.open && d in f.open
  {
    f.(open := f.open[a := f.open[a] + f.open[d]])
  }

  /** One more call has been gathered: `d` is done, and what was gathered before is as it was. */
  lemma NextGathered(g: Graph, f: Found, f': Found, a: Key, calls: seq<Key>, callMax: nat, d: Key, stack: seq<Key>)
    requires Keeps(f, f', stack) && a in g && a in f.open && a in f'.open && f'.open[a] == f.open[a]
    requires Gathered(g, f, a, calls, callMax) && a !in f'.wcs && d in f'.wcs && f'.wcs[d].Finite?
    requires Below(f', d, f'.wcs[d].bytes)
    ensures Gathered(g, Noting(f', a, d), a, calls + [d], Max(callMax, f'.wcs[d].bytes))
  {
    var f1 := Noting(f', a, d);
    var m := Max(callMax, f'.wcs[d].bytes);
    forall c | c in calls + [d] ensures Below(f1, c, m) {
      if c in calls { assert Below(f, c, callMax); }
    }
    if m > 0 {
      NextAttained(f, f', calls, callMax, d, stack);
      var c :| c in calls + [d] && c in f'.wcs && f'.wcs[c] == Finite(m);
      assert c in f1.wcs && f1.wcs[c] == Finite(m);
    }
    forall n ensures n in f1.open[a] <==> n in Unresolved(g, a) || Noted(f1, calls + [d], n) {
      NextNoted(f, f', a, calls, callMax, d, stack, n);
    }
  }

  lemma NextAttained(f: Found, f': Found, calls: seq<Key>, callMax: nat, d: Key, stack: seq<Key>)
    requires Keeps(f, f', stack) && (callMax == 0 || Attained(f, calls, callMax)) && d in f'.wcs && f'.wcs[d].Finite?
    ensures var m := Max(callMax, f'.wcs[d].bytes); m == 0 || Attained(f', calls + [d], m)
  {
    if callMax > f'.wcs[d].bytes {
      var c :| c in calls && c in f.wcs && f.wcs[c] == Finite(callMax);
      assert c in calls + [d] && f'.wcs[c] == Finite(callMax);
    } else {
      assert d in calls + [d];
    }
  }

  lemma NextNoted(f: Found, f': Found, a: Key, calls: seq<Key>, callMax: nat, d: Key, stack: seq<Key>, n: string)
    requires Keeps(f, f', stack) && a !in f'.wcs && a in f'.open && d in f'.wcs && d in f'.open
    requires forall c :: c in calls ==> Below(f, c, callMax)
    ensures Noted(Noting(f', a, d), calls + [d], n) <==> Noted(f, calls, n) || n in f'.open[d]
  {
    var f1 := Noting(f', a, d);
    if Noted(f1, calls + [d], n) {
      var c :| c in calls + [d] && c in f1.open && n in f1.open[c];
      if c in calls { assert Below(f, c, callMax) && c != a && f1.open[c] == f.open[c]; }
    }
    if Noted(f, calls, n) {
      var c :| c in calls && c in f.open && n in f.open[c];
      assert Below(f, c, callMax) && c != a && f1.open[c] == f.open[c];
      assert c in calls + [d];
    }
    if n in f'.open[d] {
      assert d in calls + [d] && n in f1.open[d];
    }
  }

  /** All calls have been gathered. */
  lemma GatheredAll(g: Graph, f: Found, a: Key, calls: seq<Key>, callMax: nat)
    requires a in g && a in f.open && Gathered(g, f, a, calls, callMax) && forall c :: c in calls <==> Calls(g, a, c)
    ensures Summed(g, f, a, callMax)
  {
    forall n
      ensures n in f.open[a] <==>
        n in Unresolved(g, a) || exists c :: Calls(g, a, c) && c in f.open && n in f.open[c]
    {
      assert Noted(f, calls, n) <==> exists c :: Calls(g, a, c) && c in f.open && n in f.open[c];
    }
  }

  lemma SettledStays(g: Graph, f: Found, f': Found, k: Key)
    requires Right(g, f) && k in f.wcs && f.clock <= f'.clock
    requires forall j :: j in f.wcs ==> j in f'.wcs && f'.wcs[j] == f.wcs[j]
    requires forall j :: j in f.wcs && j in f.rank ==> j in f'.rank && f'.rank[j] == f.rank[j]
    requires forall j :: j in f.wcs && j in f.open ==> j in f'.open && f'.open[j] == f.open[j]
    ensures RightAt(g, f', k)
  {
    assert RightAt(g, f, k);
    if f.wcs[k].UnboundedStack? {
      return;
    }
    forall c | Calls(g, k, c) ensures Earlier(g, f', k, c) && c in f.open && f'.open[c] == f.open[c] {
      assert Earlier(g, f, k, c) && RightAt(g, f, c);
    }
    if f.wcs[k].bytes != g[k].localStack {
      var c :| Calls(g, k, c) && Deepest(g, f, k, c);
      assert Deepest(g, f', k, c);
    }
  }

  /** Every path from a function with a finite result is within that result, and has an end. */
  lemma {:induction false} WithinResult(g: Graph, f: Found, p: seq<Key>)
    requires Right(g, f) && CallPath(g, p) && p[0] in f.wcs && f.wcs[p[0]].Finite?
    ensures StackOf(g, p) <= f.wcs[p[0]].bytes && !Endless(g, p)
    ensures p[0] in f.rank && forall k :: k in p[1..] ==> k in f.rank && f.rank[k] < f.rank[p[0]]
    ensures p[0] in f.open && Unresolved(g, p[|p| - 1]) <= f.open[p[0]]
  {
    assert RightAt(g, f, p[0]);
    if |p| == 1 {
      assert p[1..] == [];
    } else {
      Tail(g, p);
      assert Earlier(g, f, p[0], p[1]);
      WithinResult(g, f, p[1..]);
      var q := p[1..];
      forall k | k in q ensures k in f.rank && f.rank[k] < f.rank[p[0]] {
        if k != q[0] { assert k in q[1..]; }
      }
      assert !Endless(g, q) && p[|p| - 1] == q[|q| - 1];
    }
  }

  /** Some path from a function with a finite result uses exactly that much. */
  lemma {:induction false} ReachesResult(g: Graph, f: Found, a: Key) returns (p: seq<Key>)
    requires Right(g, f) && a in f.wcs && f.wcs[a].Finite?
    ensures CallPath(g, p) && p[0] == a && StackOf(g, p) == f.wcs[a].bytes
    decreases if a in f.rank then f.rank[a] else 0
  {
    assert RightAt(g, f, a);
    if f.wcs[a].bytes == g[a].localStack {
      p := [a];
      assert p[1..] == [];
    } else {
      var c :| Calls(g, a, c) && Deepest(g, f, a, c);
      assert Earlier(g, f, a, c) && RightAt(g, f, c);
      p := ReachesResult(g, f, c);
      Prepend(g, a, p);
      p := [a] + p;
    }
  }

  lemma {:induction false} ReachesOpen(g: Graph, f: Found, a: Key, n: string) returns (p: seq<Key>)
    requires Right(g, f) && a in f.wcs && f.wcs[a].Finite? && a in f.open && n in f.open[a]
    ensures CallPath(g, p) && p[0] == a && n in Unresolved(g, p[|p| - 1])
    decreases if a in f.rank then f.rank[a] else 0
  {
    assert RightAt(g, f, a);
    if n in Unresolved(g, a) {
      p := [a];
    } else {
      var c :| Calls(g, a, c) && c in f.open && n in f.open[c];
      assert Earlier(g, f, a, c) && RightAt(g, f, c);
      p := ReachesOpen(g, f, c, n);
      Prepend(g, a, p);
      p := [a] + p;
    }
  }

  /** The results are what the specification says: unbounded exactly where a pointer call or a cycle
      can be reached, else the maximum over all call paths; and the open calls are those that some
      call path leads to. */
  lemma ResultsAreRight(g: Graph, f: Found, a: Key)
    requires Right(g, f) && a in f.wcs
    ensures f.wcs[a] == UnboundedStack <==> Unbounded(g, a)
    ensures f.wcs[a].Finite? ==> IsWorst(g, a, f.wcs[a].bytes)
    ensures f.wcs[a].Finite? ==> a in f.open && forall n :: n in f.open[a] <==> LeadsOut(g, a, n)
  {
    assert RightAt(g, f, a);
    if f.wcs[a].Finite? {
      forall p | CallPath(g, p) && p[0] == a
        ensures StackOf(g, p) <= f.wcs[a].bytes && !Endless(g, p) && Unresolved(g, p[|p| - 1]) <= f.open[a]
      {
        WithinResult(g, f, p);
      }
      var p := ReachesResult(g, f, a);
      forall n | n in f.open[a] ensures LeadsOut(g, a, n) {
        var q := ReachesOpen(g, f, a, n);
      }
    }
  }
}
