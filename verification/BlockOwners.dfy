/**
  Who holds which block of a heap: pointers to the data of used blocks, which begin `h` bytes behind the
  address of the block, and the data themselves.
 */
module BlockOwners {
  import opened Wrappers
  import opened KernelLists
  import opened SmallMemLayout
  import opened Memories

  /** Block `a` of the layout is used. */
  predicate InUse(l: Layout, a: nat) { Block(a, true) in l }

  lemma ReplacedInUse(l: Layout, i: nat, mid: Layout, a: nat)
    requires i < |l|
    ensures InUse(Replaced(l, i, mid), a) <==> InUse(l[..i], a) || InUse(mid, a) || InUse(l[i + 1..], a)
    ensures InUse(l, a) <==> InUse(l[..i], a) || l[i] == Block(a, true) || InUse(l[i + 1..], a)
  {
    assert l == l[..i] + [l[i]] + l[i + 1..];
  }

  /** A block that is replaced by parts of itself, of which the first keeps its use. */
  lemma SplitInUse(l: Layout, i: nat, y: Block, a: nat)
    requires i < |l| && !y.used
    ensures InUse(Replaced(l, i, [l[i], y]), a) <==> InUse(l, a)
  {
    ReplacedInUse(l, i, [l[i], y], a);
  }

  /** A free block that becomes used. */
  lemma MarkedInUse(l: Layout, i: nat, a: nat)
    requires i < |l| && !l[i].used
    ensures InUse(Replaced(l, i, [Block(l[i].addr, true)]), a) <==> InUse(l, a) || a == l[i].addr
  {
    ReplacedInUse(l, i, [Block(l[i].addr, true)], a);
  }

  /** A free block that goes. */
  lemma DroppedInUse(l: Layout, i: nat, a: nat)
    requires i < |l| && !l[i].used
    ensures InUse(l[..i] + l[i + 1..], a) <==> InUse(l, a)
  {
    assert l == l[..i] + [l[i]] + l[i + 1..];
  }

  /** Blocks at other places have other addresses. */
  lemma OneAddress(l: Layout, end: nat, i: nat)
    requires Tiles(l, end) && i < |l|
    ensures !InUse(l[..i], l[i].addr) && !InUse(l[i + 1..], l[i].addr)
  {
    forall j | 0 <= j < |l| && j != i ensures l[j].addr != l[i].addr {
      if j < i { TilesApart(l, end, j, i); } else { TilesApart(l, end, i, j); }
      assert BlockFits(l, i, end) && BlockFits(l, j, end);
    }
    assert forall j :: i + 1 <= j < |l| ==> l[i + 1..][j - (i + 1)] == l[j];
  }

  lemma OtherAddress(l: Layout, end: nat, i: nat, f: nat)
    requires Tiles(l, end) && i < |l| && f < |l| && l[i].used && !l[f].used
    ensures l[f].addr != l[i].addr && !InUse(l, l[f].addr)
  {
    OneAddress(l, end, f);
    assert l == l[..f] + [l[f]] + l[f + 1..];
    assert InUse(l, l[i].addr);
  }

  /** A merge drops free blocks only. */
  lemma MergedInUse(l: Layout, i: nat, a: nat)
    requires i < |l| && !l[i].used
    ensures InUse(Merged(l, i), a) <==> InUse(l, a)
  {
    var l1 := if i + 1 < |l| && !l[i + 1].used then l[..i + 1] + l[i + 2..] else l;
    if i + 1 < |l| && !l[i + 1].used { DroppedInUse(l, i + 1, a); }
    if i > 0 && !l[i - 1].used { DroppedInUse(l1, i, a); }
  }

  lemma FreedInUse(l: Layout, end: nat, i: nat, a: nat)
    requires Tiles(l, end) && i < |l| && l[i].used
    ensures InUse(Freed(l, i), a) <==> InUse(l, a) && a != l[i].addr
  {
    var r := Replaced(l, i, [Block(l[i].addr, false)]);
    ReplacedInUse(l, i, [Block(l[i].addr, false)], a);
    OneAddress(l, end, i);
    MergedInUse(r, i, a);
  }

  // ---------- pointers ----------

  /** `live` are the pointers to the data of the used blocks, each once. */
  ghost predicate Owned(l: Layout, live: seq<nat>, h: nat) {
    && Distinct(live) && (forall p :: p in live ==> p >= h)
    && forall a: nat {:trigger InUse(l, a)} :: InUse(l, a) <==> a + h in live
  }

  /** The number of the used block at `a`; the number of blocks if there is none. */
  function BlockAt(l: Layout, a: int): (i: nat)
    ensures i <= |l| && (i < |l| ==> l[i].addr == a && l[i].used)
    ensures i == |l| ==> forall j :: 0 <= j < |l| ==> !(l[j].addr == a && l[j].used)
  {
    if l == [] then 0
    else if l[0].addr == a && l[0].used then 0
    else 1 + BlockAt(l[1..], a)
  }

  lemma BlockAtIs(l: Layout, end: nat, i: nat)
    requires Tiles(l, end) && i < |l| && l[i].used
    ensures BlockAt(l, l[i].addr) == i
  {
    var j := BlockAt(l, l[i].addr);
    if j < i { TilesApart(l, end, j, i); } else if i < j < |l| { TilesApart(l, end, i, j); }
    assert BlockFits(l, i, end);
    if j < |l| { assert BlockFits(l, j, end); }
  }

  lemma OwnedBlock(l: Layout, live: seq<nat>, p: nat, h: nat) returns (i: nat)
    requires Owned(l, live, h) && p in live
    ensures p >= h && i == BlockAt(l, p - h) < |l| && l[i].used && p == l[i].addr + h
  {
    assert InUse(l, p - h);
    var j :| 0 <= j < |l| && l[j] == Block(p - h, true);
    i := BlockAt(l, p - h);
  }

  /** One more block is used. */
  lemma OwnedWith(l: Layout, r: Layout, live: seq<nat>, a: nat, h: nat)
    requires Owned(l, live, h) && !InUse(l, a) && forall b: nat :: InUse(r, b) <==> InUse(l, b) || b == a
    ensures Owned(r, live + [a + h], h)
  {
  }

  /** One block is not used any more. */
  lemma OwnedWithout(l: Layout, r: Layout, live: seq<nat>, p: nat, h: nat)
    requires Owned(l, live, h) && forall a: nat :: InUse(r, a) <==> InUse(l, a) && a + h != p
    ensures Owned(r, Without(live, p), h)
  {
    WithoutKeepsDistinct(live, p);
  }

  lemma OwnedStill(l: Layout, r: Layout, live: seq<nat>, h: nat)
    requires Owned(l, live, h) && forall a: nat :: InUse(r, a) <==> InUse(l, a)
    ensures Owned(r, live, h)
  {
  }

  lemma OwnedFreed(l: Layout, end: nat, i: nat, live: seq<nat>, h: nat)
    requires Tiles(l, end) && Owned(l, live, h) && i < |l| && l[i].used
    ensures Owned(Freed(l, i), Without(live, l[i].addr + h), h)
  {
    var r := Freed(l, i);
    forall a: nat ensures InUse(r, a) <==> InUse(l, a) && a + h != l[i].addr + h {
      FreedInUse(l, end, i, a);
    }
    OwnedWithout(l, r, live, l[i].addr + h, h);
  }

  lemma NothingUsed(l: Layout, h: nat)
    requires Owned(l, [], h)
    ensures forall i :: 0 <= i < |l| ==> !l[i].used
  {
    forall i | 0 <= i < |l| ensures !l[i].used {
      assert l[i].used ==> InUse(l, l[i].addr);
    }
  }

  // ---------- data ----------

  /** The block that `p` points to is as large as before, and its data are the same. */
  ghost predicate SameData(m: Memory, l: Layout, m2: Memory, l2: Layout, p: nat, end: nat, h: nat) {
    var i, k := BlockAt(l, p - h), BlockAt(l2, p - h);
    && i < |l| && k < |l2| && Next(l2, k, end) == Next(l, i, end) <= |m| == |m2|
    && forall w :: p <= w < Next(l, i, end) ==> m2[w] == m[w]
  }

  /** All pointers but those in `others` are still held, and their data are the same. */
  ghost predicate Keeps(m: Memory, l: Layout, live: seq<nat>, m2: Memory, l2: Layout, live2: seq<nat>,
                        others: set<nat>, end: nat, h: nat) {
    forall p {:trigger SameData(m, l, m2, l2, p, end, h)} :: p in live && p !in others ==>
      p in live2 && SameData(m, l, m2, l2, p, end, h)
  }

  lemma SameDataBy(m: Memory, l: Layout, m2: Memory, l2: Layout, i: nat, k: nat, end: nat, h: nat)
    requires Tiles(l, end) && Tiles(l2, end) && i < |l| && l[i].used && k < |l2| && l2[k] == l[i]
    requires Next(l2, k, end) == Next(l, i, end) && end <= |m| == |m2|
    requires forall w :: l[i].addr + h <= w < Next(l, i, end) && w < |m| ==> m2[w] == m[w]
    ensures SameData(m, l, m2, l2, l[i].addr + h, end, h)
  {
    BlockAtIs(l, end, i);
    BlockAtIs(l2, end, k);
    TilesBelow(l, end, i);
  }

  lemma SameDataTwice(m: Memory, l: Layout, m1: Memory, l1: Layout, m2: Memory, l2: Layout, p: nat, end: nat, h: nat)
    requires SameData(m, l, m1, l1, p, end, h) && SameData(m1, l1, m2, l2, p, end, h)
    ensures SameData(m, l, m2, l2, p, end, h)
  {
  }

  lemma KeepsTwice(m: Memory, l: Layout, live: seq<nat>, m1: Memory, l1: Layout, live1: seq<nat>, a: set<nat>,
                   m2: Memory, l2: Layout, live2: seq<nat>, b: set<nat>, end: nat, h: nat)
    requires Keeps(m, l, live, m1, l1, live1, a, end, h) && Keeps(m1, l1, live1, m2, l2, live2, b, end, h)
    ensures Keeps(m, l, live, m2, l2, live2, a + b, end, h)
  {
    forall p | p in live && p !in a + b ensures p in live2 && SameData(m, l, m2, l2, p, end, h) {
      assert SameData(m, l, m1, l1, p, end, h);
      assert SameData(m1, l1, m2, l2, p, end, h);
      SameDataTwice(m, l, m1, l1, m2, l2, p, end, h);
    }
  }

  lemma KeepsAsIs(m: Memory, l: Layout, live: seq<nat>, others: set<nat>, end: nat, h: nat)
    requires Tiles(l, end) && Owned(l, live, h) && end <= |m|
    ensures Keeps(m, l, live, m, l, live, others, end, h)
  {
    forall p | p in live ensures SameData(m, l, m, l, p, end, h) {
      var i := OwnedBlock(l, live, p, h);
      SameDataBy(m, l, m, l, i, i, end, h);
    }
  }

  /** A used block after a merge of block `i`. */
  lemma MergedBlock(l: Layout, i: nat, j: nat, end: nat) returns (k: nat)
    requires i < |l| && j < |l| && !l[i].used && l[j].used
    ensures k < |Merged(l, i)| && Merged(l, i)[k] == l[j] && Next(Merged(l, i), k, end) == Next(l, j, end)
  {
    var f := if i + 1 < |l| && !l[i + 1].used then 1 else 0;
    var b := if i > 0 && !l[i - 1].used then 1 else 0;
    k := if j < i then j else j - f - b;
  }

  lemma FreedBlock(l: Layout, i: nat, j: nat, end: nat) returns (k: nat)
    requires i < |l| && j < |l| && j != i && l[j].used
    ensures k < |Freed(l, i)| && Freed(l, i)[k] == l[j] && Next(Freed(l, i), k, end) == Next(l, j, end)
  {
    k := MergedBlock(Replaced(l, i, [Block(l[i].addr, false)]), i, j, end);
  }

  /** All blocks but `i` are in `after` as they were. */
  ghost predicate SameBlocks(l: Layout, after: Layout, i: nat, end: nat) {
    forall j {:trigger InAfter(l, after, j, end)} :: 0 <= j < |l| && j != i && l[j].used ==> InAfter(l, after, j, end)
  }

  ghost predicate InAfter(l: Layout, after: Layout, j: nat, end: nat)
    requires j < |l|
  {
    exists k :: 0 <= k < |after| && after[k] == l[j] && Next(after, k, end) == Next(l, j, end)
  }

  lemma FreedSameBlocks(l: Layout, i: nat, end: nat)
    requires i < |l| && l[i].used
    ensures SameBlocks(l, Freed(l, i), i, end)
  {
    forall j | 0 <= j < |l| && j != i && l[j].used ensures InAfter(l, Freed(l, i), j, end) {
      var k := FreedBlock(l, i, j, end);
    }
  }

  lemma SameBlocksSelf(l: Layout, i: nat, end: nat)
    ensures SameBlocks(l, l, i, end)
  {
  }

  // ---------- calls ----------

  /** A call; pointers are named by their place among those that are handed out. */
  datatype Call = DoAlloc(size: nat) | DoFree(k: nat) | DoRealloc(k: nat, size: nat)

  /** The pointer that a call is given. */
  function Named(live: seq<nat>, c: Call): set<nat> {
    match c
    case DoAlloc(_) => {}
    case DoFree(k) => if k < |live| then {live[k]} else {}
    case DoRealloc(k, _) => if k < |live| then {live[k]} else {}
  }

  /** A heap as its users know it, and the pointers they hold. */
  datatype Snapshot<L> = Snapshot(heap: L, live: seq<nat>)

  /** What calls make of a heap, one after another. */
  function AfterAll<L>(s: Snapshot<L>, calls: seq<Call>, called: (Snapshot<L>, Call) -> Snapshot<L>): Snapshot<L> {
    if calls == [] then s else called(AfterAll(s, calls[..|calls| - 1], called), calls[|calls| - 1])
  }

  /** All pointers that the calls of a run are given. */
  function NamedInAll<L>(s: Snapshot<L>, calls: seq<Call>, called: (Snapshot<L>, Call) -> Snapshot<L>): set<nat> {
    if calls == [] then {}
    else
      var before := calls[..|calls| - 1];
      NamedInAll(s, before, called) + Named(AfterAll(s, before, called).live, calls[|calls| - 1])
  }

  /** The pointers held after a reallocation of `p` to `need` bytes that gave `r`. */
  function Updated(live: seq<nat>, p: nat, need: nat, r: Option<nat>): seq<nat> {
    if need == 0 then Without(live, p)
    else if r.None? || r.value == p then live
    else Without(live + [r.value], p)
  }

  lemma UpdatedMembers(live: seq<nat>, p: nat, need: nat, r: Option<nat>)
    requires p in live
    ensures forall q :: q in live && q != p ==> q in Updated(live, p, need, r)
    ensures need > 0 && r.Some? ==> r.value in Updated(live, p, need, r)
  {
  }

  /** The number of data bytes that `p` points to. */
  function BytesAt(l: Layout, p: nat, end: nat, h: nat): int {
    var i := BlockAt(l, p - h);
    if i < |l| then Next(l, i, end) - l[i].addr - h else 0
  }

  /** How many bytes the block at `p` and one of `need` bytes have in common. */
  function Common(l: Layout, p: nat, need: nat, end: nat, h: nat): nat {
    if 0 <= BytesAt(l, p, end, h) < need then BytesAt(l, p, end, h) else need
  }
}
