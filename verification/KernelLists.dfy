/** Lists of kernel objects, as sequences of their indices: `rt_list_remove`, `rt_list_insert_before`
    and what they keep; and the number of priorities that the kernel is built with. */
module KernelLists {
  const PRIORITIES: nat := 32    // RT_THREAD_PRIORITY_MAX

  ghost predicate Distinct(w: seq<nat>) {
    forall i, j :: 0 <= i < j < |w| ==> w[i] != w[j]
  }

  ghost predicate Below(w: seq<nat>, n: nat) {
    forall i :: 0 <= i < |w| ==> w[i] < n
  }

  /** The list `w` with object `t` unlinked; unchanged when `t` is not on it. */
  function Without(w: seq<nat>, t: nat): (r: seq<nat>)
    ensures t !in w ==> r == w
    ensures forall x :: x in r ==> x in w
    ensures forall x :: x in w && x != t ==> x in r
  {
    if w == [] then [] else if w[0] == t then w[1..] else [w[0]] + Without(w[1..], t)
  }

  lemma {:induction false} WithoutSplits(w: seq<nat>, t: nat) returns (i: nat)
    requires t in w
    ensures i < |w| && w[i] == t && Without(w, t) == w[..i] + w[i + 1..]
  {
    if w[0] == t {
      i := 0;
    } else {
      var j := WithoutSplits(w[1..], t);
      i := j + 1;
      assert w[..i] + w[i + 1..] == [w[0]] + (w[1..][..j] + w[1..][j + 1..]);
    }
  }

  /** `r` is `w` without one place, at which `t` is. */
  ghost predicate CutOut(w: seq<nat>, t: nat, r: seq<nat>) {
    exists i :: 0 <= i < |w| && w[i] == t && r == w[..i] + w[i + 1..]
  }

  lemma WithoutCuts(w: seq<nat>, t: nat)
    requires t in w
    ensures CutOut(w, t, Without(w, t))
  {
    var i := WithoutSplits(w, t);
  }

  lemma WithoutKeepsDistinct(w: seq<nat>, t: nat)
    requires Distinct(w)
    ensures Distinct(Without(w, t)) && t !in Without(w, t)
  {
    if t in w {
      var i := WithoutSplits(w, t);
    }
  }

  lemma WithoutBelow(w: seq<nat>, t: nat, n: nat)
    requires Below(w, n)
    ensures Below(Without(w, t), n)
  {
    var r := Without(w, t);
    forall i | 0 <= i < |r| ensures r[i] < n { assert r[i] in w; }
  }

  /** The list `w` with `t` linked in at position `k`. */
  function LinkAt(w: seq<nat>, t: nat, k: nat): (r: seq<nat>)
    requires k <= |w|
    ensures |r| == |w| + 1 && r[k] == t
    ensures forall i :: 0 <= i < k ==> r[i] == w[i]
    ensures forall i :: k < i < |r| ==> r[i] == w[i - 1]
  {
    w[..k] + [t] + w[k..]
  }

  lemma LinkAtMembers(w: seq<nat>, t: nat, k: nat)
    requires k <= |w|
    ensures forall x :: x in LinkAt(w, t, k) <==> x in w || x == t
    ensures t !in w && Distinct(w) ==> Distinct(LinkAt(w, t, k))
  {
    var r := LinkAt(w, t, k);
    forall x | x in w ensures x in r {
      var i :| 0 <= i < |w| && w[i] == x;
      assert r[if i < k then i else i + 1] == x;
    }
  }

  /** `q` lists exactly the indices that are marked `mark`, each once. */
  ghost predicate Marked<T(!new)>(marks: seq<T>, q: seq<nat>, mark: T) {
    Distinct(q) && (forall t: nat :: t < |marks| ==> (t in q <==> marks[t] == mark))
    && forall t :: t in q ==> t < |marks|
  }

  lemma {:induction false} Pigeonhole(q: seq<nat>, n: nat)
    requires Distinct(q) && forall t :: t in q ==> t < n
    ensures |q| <= n
  {
    if q == [] {
      return;
    }
    assert q[0] in q;
    if n - 1 in q {
      var i := WithoutSplits(q, n - 1);
      WithoutKeepsDistinct(q, n - 1);
      Pigeonhole(Without(q, n - 1), n - 1);
    } else {
      Pigeonhole(q, n - 1);
    }
  }

  lemma {:induction false} Covering(q: seq<nat>, n: nat)
    requires Distinct(q) && forall t: nat :: t < n ==> t in q
    ensures |q| >= n
  {
    if n > 0 {
      assert n - 1 in q;
      var i := WithoutSplits(q, n - 1);
      WithoutKeepsDistinct(q, n - 1);
      Covering(Without(q, n - 1), n - 1);
    }
  }
}
