/**
  The ready queue of the schedulers (rt-thread/src/scheduler_up.c, scheduler_mp.c) with up to 32
  priorities: a list of threads for each, and a word with a bit for each list that is not empty.
 */
module ReadyQueue {
  import opened FindFirstSet
  import opened KernelLists
  import opened PriorityBits

  datatype Ready = Ready(
    table: seq<seq<nat>>,   // rt_thread_priority_table
    group: bv32)            // rt_thread_ready_priority_group

  ghost predicate Agrees(r: Ready) {
    |r.table| == PRIORITIES && forall p {:trigger AgreesAt(r, p)} :: 0 <= p < PRIORITIES ==> AgreesAt(r, p)
  }

  ghost predicate AgreesAt(r: Ready, p: nat)
    requires p < PRIORITIES == |r.table|
  {
    Has(r.group, p) <==> r.table[p] != []
  }

  const EMPTY := Ready(seq(PRIORITIES, _ => []), 0)

  /** Thread `t` is linked at the end or at the head of the list of priority `p`. */
  function Inserted(r: Ready, p: nat, t: nat, last: bool): Ready
    requires p < PRIORITIES == |r.table|
  {
    Ready(r.table[p := if last then r.table[p] + [t] else [t] + r.table[p]], r.group | Bit(p))
  }

  /** Thread `t` is unlinked from its list, the list of priority `p` if it is on one. */
  function Removed(r: Ready, p: nat, t: nat): Ready
    requires p < PRIORITIES == |r.table|
  {
    var l := Without(r.table[p], t);
    Ready(r.table[p := l], if l == [] then r.group & !Bit(p) else r.group)
  }

  /** The lookup of `_scheduler_get_highest_priority_thread` */
  function Highest(r: Ready): int {
    Ffs(r.group) as int - 1
  }

  lemma EmptyAgrees()
    ensures Agrees(EMPTY)
  {
    forall p: nat | p < PRIORITIES ensures AgreesAt(EMPTY, p) { NoBits(0); }
  }

  lemma InsertedAgrees(r: Ready, p: nat, t: nat, last: bool)
    requires Agrees(r) && p < PRIORITIES
    ensures Agrees(Inserted(r, p, t, last))
  {
    var r' := Inserted(r, p, t, last);
    forall q: nat | q < PRIORITIES ensures AgreesAt(r', q) {
      assert AgreesAt(r, q);
      StillAgrees(r, r', p, q);
    }
  }

  lemma StillAgrees(r: Ready, r': Ready, p: nat, q: nat)
    requires p < PRIORITIES == |r.table| == |r'.table| && q < PRIORITIES && AgreesAt(r, q)
    requires r'.group == r.group | Bit(p) && r'.table[p] != [] && (q != p ==> r'.table[q] == r.table[q])
    ensures AgreesAt(r', q)
  {
    SetBitAt(r.group, r'.group, p, q);
  }

  lemma RemovedAgrees(r: Ready, p: nat, t: nat)
    requires Agrees(r) && p < PRIORITIES
    ensures Agrees(Removed(r, p, t))
  {
    var r' := Removed(r, p, t);
    forall q: nat | q < PRIORITIES ensures AgreesAt(r', q) {
      assert AgreesAt(r, q);
      if r'.table[p] == [] { ClearBitAt(r.group, r'.group, p, q); }
    }
  }

  /** The lookup finds the most urgent list that is not empty. */
  lemma HighestIsLeast(r: Ready)
    requires Agrees(r)
    ensures r.group == 0 <==> forall q :: 0 <= q < PRIORITIES ==> r.table[q] == []
    ensures r.group != 0 ==> 0 <= Highest(r) < PRIORITIES && r.table[Highest(r)] != []
    ensures r.group != 0 ==> forall q :: 0 <= q < Highest(r) ==> r.table[q] == []
  {
    forall q: nat | q < PRIORITIES ensures Has(r.group, q) <==> r.table[q] != [] { assert AgreesAt(r, q); }
    NoBits(r.group);
    if r.group != 0 { LowestBitFound(r.group); }
  }

  /** The most urgent priority with a ready thread. */
  function Top(r: Ready): (h: nat)
    requires Agrees(r) && r.group != 0
    ensures h == Highest(r) && h < PRIORITIES && r.table[h] != []
    ensures forall q :: 0 <= q < h ==> r.table[q] == []
  {
    HighestIsLeast(r);
    Highest(r)
  }

  /** The first list from priority `p` on that is not empty; the number of lists if there is none. */
  function FirstList(table: seq<seq<nat>>, p: nat): (h: nat)
    requires p <= |table|
    ensures p <= h <= |table| && (h < |table| ==> table[h] != [])
    ensures forall q :: p <= q < h ==> table[q] == []
    decreases |table| - p
  {
    if p == |table| || table[p] != [] then p else FirstList(table, p + 1)
  }

  /** The search in the word finds what a search through the lists would find. */
  lemma SearchesAgree(r: Ready)
    requires Agrees(r)
    ensures r.group == 0 <==> FirstList(r.table, 0) == PRIORITIES
    ensures r.group != 0 ==> Top(r) == FirstList(r.table, 0)
  {
    HighestIsLeast(r);
  }

  /** Thread `from` at the head of its list, and the head of list `h` taken off. */
  function Displaced(table: seq<seq<nat>>, from: nat, p: nat, h: nat): seq<seq<nat>>
    requires p < |table| && h < |table| && table[h] != []
  {
    if p == h then table[p := [from] + table[p][1..]] else table[p := [from] + table[p]][h := table[h][1..]]
  }

  lemma DisplacedBySteps(r: Ready, from: nat, p: nat, h: nat)
    requires |r.table| == PRIORITIES && p < PRIORITIES && h < PRIORITIES && r.table[h] != [] && from != r.table[h][0]
    ensures Removed(Inserted(r, p, from, false), h, r.table[h][0]).table == Displaced(r.table, from, p, h)
  {
    var to := r.table[h][0];
    assert Without(r.table[h], to) == r.table[h][1..];
    assert ([from] + r.table[h])[1..] == r.table[h];
    assert Without([from] + r.table[h], to) == [from] + r.table[h][1..];
  }
}
