/**
  Whole runs of the small heap (rt-thread/src/mem.c), seen from its users: which pointers are handed
  out and not yet released, and what becomes of the data behind them.
 */
module SmallMemRuns {
  import opened Wrappers
  import opened KernelLists
  import opened SmallMemLayout
  import opened Memories
  import opened SmallMemHeader
  import opened BlockOwners
  import opened SmallMem

  lemma AllocatedInUse(l: Layout, f: nat, need: nat, end: nat, a: nat)
    requires f < |l| && !l[f].used
    ensures InUse(Allocated(l, f, need, end), a) <==> InUse(l, a) || a == l[f].addr
  {
    var x, y := Block(l[f].addr, true), Block(l[f].addr + HEADER + need, false);
    ReplacedInUse(l, f, [x, y], a);
    ReplacedInUse(l, f, [x], a);
  }

  lemma ShrunkInUse(l: Layout, i: nat, need: nat, a: nat)
    requires i < |l| && l[i].used
    ensures InUse(Shrunk(l, i, need), a) <==> InUse(l, a)
  {
    var y := Block(l[i].addr + HEADER + need, false);
    var r := Replaced(l, i, [l[i], y]);
    ReplacedInUse(l, i, [l[i], y], a);
    MergedInUse(r, i + 1, a);
  }

  /** A pointer that was just handed out is new. */
  lemma OwnedAllocated(l: Layout, f: nat, need: nat, end: nat, live: seq<nat>)
    requires Tiles(l, end) && Owned(l, live, HEADER) && f < |l| && !l[f].used
    ensures Owned(Allocated(l, f, need, end), live + [l[f].addr + HEADER], HEADER)
  {
    OneAddress(l, end, f);
    assert l == l[..f] + [l[f]] + l[f + 1..];
    var r := Allocated(l, f, need, end);
    forall a: nat ensures InUse(r, a) <==> InUse(l, a) || a == l[f].addr { AllocatedInUse(l, f, need, end, a); }
    OwnedWith(l, r, live, l[f].addr, HEADER);
  }

  lemma OwnedShrunk(l: Layout, i: nat, need: nat, live: seq<nat>)
    requires Owned(l, live, HEADER) && i < |l| && l[i].used
    ensures Owned(Shrunk(l, i, need), live, HEADER)
  {
    forall a: nat ensures InUse(Shrunk(l, i, need), a) <==> InUse(l, a) { ShrunkInUse(l, i, need, a); }
    OwnedStill(l, Shrunk(l, i, need), live, HEADER);
  }

  function Allocates(s: Snapshot<Layout>, size: nat, end: nat): Snapshot<Layout> {
    var f := FirstFit(s.heap, Needed(size), end);
    if size == 0 || f == |s.heap| then s
    else Snapshot(Allocated(s.heap, f, Needed(size), end), s.live + [s.heap[f].addr + HEADER])
  }

  function Frees(s: Snapshot<Layout>, p: nat): Snapshot<Layout> {
    var i := BlockAt(s.heap, p - HEADER);
    if i == |s.heap| then s else Snapshot(Freed(s.heap, i), Without(s.live, p))
  }

  /** Same size: nothing. Much smaller: cut in place. Else moved, if there is room for both blocks. */
  function Reallocates(s: Snapshot<Layout>, p: nat, size: nat, end: nat): Snapshot<Layout> {
    var i, need := BlockAt(s.heap, p - HEADER), RtAlign(size);
    if i == |s.heap| || need > end - HEADER || need == 0 then
      if i < |s.heap| && need == 0 then Frees(s, p) else s
    else if need == DataSize(s.heap, i, end) then s
    else if need + HEADER + MIN_SIZE < DataSize(s.heap, i, end) then s.(heap := Shrunk(s.heap, i, need))
    else Moves(s, p, need, end)
  }

  function Moves(s: Snapshot<Layout>, p: nat, need: nat, end: nat): Snapshot<Layout> {
    var s1 := Allocates(s, need, end);
    if s1 == s then s else Frees(s1, p)
  }

  /** The layout after block `i` was moved to block `f`. */
  ghost predicate MovedTo(l: Layout, f: nat, n: nat, end: nat, i: nat, after: Layout) {
    && f < |l| && Shifted(l, f, n, end, i) < |Allocated(l, f, n, end)|
    && after == Freed(Allocated(l, f, n, end), Shifted(l, f, n, end, i))
  }

  lemma AllocatesIs(s: Snapshot<Layout>, need: nat, n: nat, f: nat, end: nat)
    requires 0 < need && n == Needed(need) && f == FirstFit(s.heap, n, end) < |s.heap|
    ensures Allocates(s, need, end) == Snapshot(Allocated(s.heap, f, n, end), s.live + [s.heap[f].addr + HEADER])
    ensures Allocates(s, need, end) != s
  {
    assert |s.live + [s.heap[f].addr + HEADER]| > |s.live|;
  }

  lemma FreesIs(s: Snapshot<Layout>, i: nat, p: nat, end: nat)
    requires Tiles(s.heap, end) && i < |s.heap| && s.heap[i].used && p == s.heap[i].addr + HEADER
    ensures Frees(s, p) == Snapshot(Freed(s.heap, i), Without(s.live, p))
  {
    BlockAtIs(s.heap, end, i);
  }

  /** What moving a block comes to. */
  lemma MovesIs(s: Snapshot<Layout>, i: nat, p: nat, need: nat, n: nat, f: nat, end: nat, after: Layout)
    requires WellFormed(s.heap, end) && i < |s.heap| && s.heap[i].used && p == s.heap[i].addr + HEADER
    requires 0 < need && n == Needed(need) && f == FirstFit(s.heap, n, end) && MovedTo(s.heap, f, n, end, i, after)
    ensures Moves(s, p, need, end) == Snapshot(after, Without(s.live + [s.heap[f].addr + HEADER], p))
  {
    var s1 := Allocates(s, need, end);
    AllocatesIs(s, need, n, f, end);
    AllocatedKeeps(s.heap, f, n, end);
    AllocatedBlocks(s.heap, f, n, end, i);
    FreesIs(s1, Shifted(s.heap, f, n, end, i), p, end);
  }

  lemma OwnedMoved(l: Layout, live: seq<nat>, i: nat, n: nat, f: nat, end: nat, after: Layout)
    requires WellFormed(l, end) && Owned(l, live, HEADER) && i < |l| && l[i].used && n % ALIGN == 0
    requires f < |l| && Fits(l, f, n, end) && MovedTo(l, f, n, end, i, after)
    ensures Owned(after, Without(live + [l[f].addr + HEADER], l[i].addr + HEADER), HEADER)
  {
    AllocatedBlocks(l, f, n, end, i);
    AllocatedKeeps(l, f, n, end);
    OwnedAllocated(l, f, n, end, live);
    OwnedExchanged(Allocated(l, f, n, end), end, Shifted(l, f, n, end, i), l[i].addr, live + [l[f].addr + HEADER],
                   after);
  }

  lemma OwnedExchanged(r: Layout, end: nat, k: nat, a: nat, live: seq<nat>, after: Layout)
    requires Tiles(r, end) && Owned(r, live, HEADER) && k < |r| && r[k] == Block(a, true) && after == Freed(r, k)
    ensures Owned(after, Without(live, a + HEADER), HEADER)
  {
    OwnedFreed(r, end, k, live, HEADER);
  }

  /** The reallocation is one by moving. */
  predicate HasToMove(l: Layout, i: nat, need: nat, end: nat)
    requires i < |l|
  {
    0 < need <= end - HEADER && need != DataSize(l, i, end) && need + HEADER + MIN_SIZE >= DataSize(l, i, end)
  }

  function StaysPut(s: Snapshot<Layout>, i: nat, p: nat, need: nat, end: nat): Snapshot<Layout>
    requires i < |s.heap|
  {
    if need == 0 then Snapshot(Freed(s.heap, i), Without(s.live, p))
    else if need > end - HEADER || need == DataSize(s.heap, i, end) then s
    else s.(heap := Shrunk(s.heap, i, need))
  }

  lemma ReallocChooses(s: Snapshot<Layout>, i: nat, p: nat, size: nat, end: nat)
    requires p >= HEADER && BlockAt(s.heap, p - HEADER) == i < |s.heap|
    ensures HasToMove(s.heap, i, RtAlign(size), end) ==>
      Reallocates(s, p, size, end) == Moves(s, p, RtAlign(size), end)
    ensures !HasToMove(s.heap, i, RtAlign(size), end) ==>
      Reallocates(s, p, size, end) == StaysPut(s, i, p, RtAlign(size), end)
  {
  }

  lemma ReallocInPlace(s: Snapshot<Layout>, i: nat, p: nat, size: nat, need: nat, end: nat, r: Option<nat>,
                       after: Layout)
    requires Tiles(s.heap, end) && Owned(s.heap, s.live, HEADER) && i < |s.heap| && s.heap[i].used
    requires p == s.heap[i].addr + HEADER
    requires need == RtAlign(size) && !HasToMove(s.heap, i, need, end) && (r.Some? ==> r.value == p)
    requires after == InPlace(s.heap, i, need, end)
    ensures Reallocates(s, p, size, end) == Snapshot(after, Updated(s.live, p, need, r))
    ensures Owned(after, Updated(s.live, p, need, r), HEADER)
  {
    BlockAtIs(s.heap, end, i);
    ReallocChooses(s, i, p, size, end);
    OwnedInPlace(s.heap, s.live, i, p, need, end, r);
  }

  /** The layout after a reallocation in place. */
  function InPlace(l: Layout, i: nat, need: nat, end: nat): Layout
    requires i < |l|
  {
    if need == 0 then Freed(l, i)
    else if need > end - HEADER || need == DataSize(l, i, end) then l
    else Shrunk(l, i, need)
  }

  lemma OwnedInPlace(l: Layout, live: seq<nat>, i: nat, p: nat, need: nat, end: nat, r: Option<nat>)
    requires Tiles(l, end) && Owned(l, live, HEADER) && i < |l| && l[i].used && p == l[i].addr + HEADER
    requires (r.Some? ==> r.value == p)
    ensures Owned(InPlace(l, i, need, end), Updated(live, p, need, r), HEADER)
  {
    if need == 0 {
      OwnedFreed(l, end, i, live, HEADER);
    } else {
      OwnedShrunk(l, i, need, live);
    }
  }

  lemma MovesNot(s: Snapshot<Layout>, p: nat, need: nat, end: nat)
    requires FirstFit(s.heap, Needed(need), end) == |s.heap|
    ensures Moves(s, p, need, end) == s
  {
  }

  lemma ReallocByMoving(s: Snapshot<Layout>, i: nat, p: nat, size: nat, need: nat, n: nat, f: nat, end: nat, q: nat,
                        after: Layout)
    requires WellFormed(s.heap, end) && i < |s.heap| && s.heap[i].used && p == s.heap[i].addr + HEADER
    requires need == RtAlign(size) && HasToMove(s.heap, i, need, end) && n == Needed(need)
    requires f == FirstFit(s.heap, n, end)
    requires MovedTo(s.heap, f, n, end, i, after) && q == s.heap[f].addr + HEADER
    ensures Reallocates(s, p, size, end) == Snapshot(after, Without(s.live + [q], p))
  {
    BlockAtIs(s.heap, end, i);
    ReallocChooses(s, i, p, size, end);
    MovesIs(s, i, p, need, n, f, end, after);
  }

  /** A reallocation that moves the block from `i` to `f` exchanges its pointer for a new one. */
  lemma OwnedByMoving(l: Layout, live: seq<nat>, i: nat, p: nat, n: nat, f: nat, end: nat, q: nat, after: Layout)
    requires WellFormed(l, end) && Owned(l, live, HEADER) && i < |l| && l[i].used && n % ALIGN == 0
    requires p == l[i].addr + HEADER
    requires f < |l| && Fits(l, f, n, end) && MovedTo(l, f, n, end, i, after) && q == l[f].addr + HEADER
    ensures Owned(after, Without(live + [q], p), HEADER) && q != p
  {
    OtherAddress(l, end, i, f);
    OwnedMoved(l, live, i, n, f, end, after);
  }

  lemma ReallocRefused(s: Snapshot<Layout>, i: nat, p: nat, size: nat, end: nat)
    requires Tiles(s.heap, end) && i < |s.heap| && s.heap[i].used && p == s.heap[i].addr + HEADER
    requires HasToMove(s.heap, i, RtAlign(size), end) && FirstFit(s.heap, Needed(RtAlign(size)), end) == |s.heap|
    ensures Reallocates(s, p, size, end) == s
  {
    BlockAtIs(s.heap, end, i);
    ReallocChooses(s, i, p, size, end);
    MovesNot(s, p, RtAlign(size), end);
  }

  /** What a call makes of the heap. */
  function Called(s: Snapshot<Layout>, c: Call, end: nat): Snapshot<Layout> {
    match c
    case DoAlloc(size) => Allocates(s, size, end)
    case DoFree(k) => if k < |s.live| then Frees(s, s.live[k]) else s
    case DoRealloc(k, size) => if k < |s.live| then Reallocates(s, s.live[k], size, end) else s
  }

  function Calling(end: nat): (Snapshot<Layout>, Call) -> Snapshot<Layout> {
    (s: Snapshot<Layout>, c: Call) => Called(s, c, end)
  }

  // ---------- what becomes of data ----------

  lemma AllocKeeps(m: Memory, m2: Memory, l: Layout, f: nat, need: nat, end: nat, live: seq<nat>, more: seq<nat>)
    requires WellFormed(l, end) && Owned(l, live, HEADER) && f < |l| && Fits(l, f, need, end) && need % ALIGN == 0
    requires end <= |m| && DataKept(m, m2, l, end)
    ensures Keeps(m, l, live, m2, Allocated(l, f, need, end), live + more, {}, end, HEADER)
  {
    var r := Allocated(l, f, need, end);
    AllocatedKeeps(l, f, need, end);
    forall p | p in live ensures SameData(m, l, m2, r, p, end, HEADER) {
      var j := OwnedBlock(l, live, p, HEADER);
      AllocatedBlocks(l, f, need, end, j);
      forall w | p <= w < Next(l, j, end) ensures Live(l, end, w) { assert DataWord(l, j, end, w); }
      SameDataBy(m, l, m2, r, j, Shifted(l, f, need, end, j), end, HEADER);
    }
  }

  /** The data of other blocks than `i`. */
  lemma OthersKept(m: Memory, m2: Memory, l: Layout, i: nat, from: nat, end: nat, j: nat)
    requires Tiles(l, end) && i < |l| && j < |l| && j != i && l[j].used && KeptBut(m, m2, l, i, from, end)
    ensures forall w :: l[j].addr + HEADER <= w < Next(l, j, end) && w < |m| ==> m2[w] == m[w]
  {
    HeadersApart(l, end, i, j);
    forall w | l[j].addr + HEADER <= w < Next(l, j, end) ensures Live(l, end, w) && !DataWord(l, i, end, w) {
      assert DataWord(l, j, end, w);
    }
  }

  lemma OthersKeep(m: Memory, m2: Memory, l: Layout, after: Layout, i: nat, from: nat, end: nat, live: seq<nat>,
                   live2: seq<nat>)
    requires Tiles(l, end) && Tiles(after, end) && Owned(l, live, HEADER) && i < |l| && end <= |m|
    requires KeptBut(m, m2, l, i, from, end)
    requires SameBlocks(l, after, i, end) && forall p :: p in live && p != l[i].addr + HEADER ==> p in live2
    ensures Keeps(m, l, live, m2, after, live2, {l[i].addr + HEADER}, end, HEADER)
  {
    forall p | p in live && p != l[i].addr + HEADER ensures SameData(m, l, m2, after, p, end, HEADER) {
      var j := OwnedBlock(l, live, p, HEADER);
      OthersKept(m, m2, l, i, from, end, j);
      assert InAfter(l, after, j, end);
      var k :| 0 <= k < |after| && after[k] == l[j] && Next(after, k, end) == Next(l, j, end);
      SameDataBy(m, l, m2, after, j, k, end, HEADER);
    }
  }

  lemma ShrunkSameBlocks(l: Layout, i: nat, need: nat, end: nat)
    requires i < |l| && l[i].used
    ensures SameBlocks(l, Shrunk(l, i, need), i, end)
  {
    var y := Block(l[i].addr + HEADER + need, false);
    var r := Replaced(l, i, [l[i], y]);
    forall j | 0 <= j < |l| && j != i && l[j].used ensures InAfter(l, Shrunk(l, i, need), j, end) {
      var n := if j < i then j else j + 1;
      assert r[n] == l[j] && Next(r, n, end) == Next(l, j, end);
      var k := MergedBlock(r, i + 1, n, end);
    }
  }

  /** A block that stays keeps its first bytes. */
  lemma StayedCopied(m: Memory, m2: Memory, l: Layout, i: nat, p: nat, count: nat, end: nat)
    requires Tiles(l, end) && i < |l| && l[i].used && p == l[i].addr + HEADER && end <= |m|
    requires count <= DataSize(l, i, end) && KeptBut(m, m2, l, i, p + count, end)
    ensures Copied(m, m2, p, p, count)
  {
    TilesBelow(l, end, i);
    forall w | p <= w < p + count ensures m2[w] == m[p + (w - p)] { assert DataWord(l, i, end, w); }
  }

  /** A reallocation in place. */
  lemma StaysKeep(m: Memory, m2: Memory, l: Layout, i: nat, p: nat, need: nat, end: nat, r: Option<nat>, after: Layout)
    requires WellFormed(l, end) && i < |l| && l[i].used && p == l[i].addr + HEADER && end <= |m|
    requires after == l || after == Freed(l, i) || after == Shrunk(l, i, need)
    requires r.Some? ==> need <= DataSize(l, i, end) && KeptBut(m, m2, l, i, p + need, end)
    ensures SameBlocks(l, after, i, end)
    ensures r.Some? ==> Copied(m, m2, p, p, need)
  {
    if after == l {
      SameBlocksSelf(l, i, end);
    } else if after == Freed(l, i) {
      FreedSameBlocks(l, i, end);
    } else {
      ShrunkSameBlocks(l, i, need, end);
    }
    if r.Some? { StayedCopied(m, m2, l, i, p, need, end); }
  }

  lemma MovedSameBlocks(l: Layout, f: nat, n: nat, end: nat, i: nat, after: Layout)
    requires Tiles(l, end) && f < |l| && Fits(l, f, n, end) && i < |l| && l[i].used && MovedTo(l, f, n, end, i, after)
    ensures SameBlocks(l, after, i, end)
  {
    var r, i' := Allocated(l, f, n, end), Shifted(l, f, n, end, i);
    AllocatedBlocks(l, f, n, end, i);
    forall j | 0 <= j < |l| && j != i && l[j].used ensures InAfter(l, after, j, end) {
      AllocatedBlocks(l, f, n, end, j);
      var k := FreedBlock(r, i', Shifted(l, f, n, end, j), end);
    }
  }

  /** The first byte that a reallocation of `p` which gave `r` may change in its block. */
  function From(p: nat, size: nat, r: Option<nat>): nat {
    if r == Some(p) then p + RtAlign(size) else 0
  }

  /** What a reallocation of `p` that gave `r` comes to: of the blocks other than `i`, which `p` points to, none
      that is used has changed. */
  ghost predicate Resized(s: Snapshot<Layout>, m: Memory, p: nat, size: nat, i: nat, r: Option<nat>, after: Layout,
                          m2: Memory, end: nat) {
    && i < |s.heap| && Owned(after, Updated(s.live, p, RtAlign(size), r), HEADER)
    && Reallocates(s, p, size, end) == Snapshot(after, Updated(s.live, p, RtAlign(size), r))
    && KeptBut(m, m2, s.heap, i, From(p, size, r), end) && SameBlocks(s.heap, after, i, end)
    && (r.Some? ==> RtAlign(size) > 0 && Copied(m, m2, p, r.value, Common(s.heap, p, RtAlign(size), end, HEADER)))
  }

  /** `p` is held, and points to block `i`. */
  ghost predicate Points(s: Snapshot<Layout>, p: nat, i: nat, m: Memory, end: nat) {
    && WellFormed(s.heap, end) && Owned(s.heap, s.live, HEADER) && end <= |m| && p in s.live
    && i < |s.heap| && s.heap[i].used && p == s.heap[i].addr + HEADER && BlockAt(s.heap, p - HEADER) == i
  }

  lemma ResizedInPlace(s: Snapshot<Layout>, m: Memory, p: nat, size: nat, need: nat, i: nat, r: Option<nat>,
                       after: Layout, m2: Memory, end: nat)
    requires Points(s, p, i, m, end) && need == RtAlign(size) && !HasToMove(s.heap, i, need, end)
    requires after == InPlace(s.heap, i, need, end) && KeptBut(m, m2, s.heap, i, From(p, size, r), end)
    requires r.Some? ==> r.value == p && 0 < need <= DataSize(s.heap, i, end)
    ensures Resized(s, m, p, size, i, r, after, m2, end)
  {
    ReallocInPlace(s, i, p, size, need, end, r, after);
    StaysKeep(m, m2, s.heap, i, p, need, end, r, after);
  }

  lemma ResizedByMoving(s: Snapshot<Layout>, m: Memory, p: nat, size: nat, need: nat, i: nat, f: nat, to: nat,
                        after: Layout, m2: Memory, end: nat)
    requires Points(s, p, i, m, end) && need == RtAlign(size) && HasToMove(s.heap, i, need, end)
    requires f == FirstFit(s.heap, Needed(need), end) < |s.heap| && to == s.heap[f].addr + HEADER
    requires MovedTo(s.heap, f, Needed(need), end, i, after) && KeptBut(m, m2, s.heap, i, 0, end)
    requires 0 <= DataSize(s.heap, i, end) && Copied(m, m2, p, to, Common(s.heap, p, RtAlign(size), end, HEADER))
    ensures Resized(s, m, p, size, i, Some(to), after, m2, end)
  {
    OwnedByMoving(s.heap, s.live, i, p, Needed(need), f, end, to, after);
    ReallocByMoving(s, i, p, size, need, Needed(need), f, end, to, after);
    MovedSameBlocks(s.heap, f, Needed(need), end, i, after);
  }

  lemma ResizedNot(s: Snapshot<Layout>, m: Memory, p: nat, size: nat, i: nat, after: Layout, m2: Memory, end: nat)
    requires Points(s, p, i, m, end) && HasToMove(s.heap, i, RtAlign(size), end)
    requires FirstFit(s.heap, Needed(RtAlign(size)), end) == |s.heap| && after == s.heap && m2 == m
    ensures Resized(s, m, p, size, i, None, after, m2, end)
  {
    ReallocRefused(s, i, p, size, end);
    SameBlocksSelf(s.heap, i, end);
  }

  /** The users of a heap, who release only what they were handed out. */
  class Users {
    const heap: Heap
    var live: seq<nat>

    ghost function View(): Snapshot<Layout>
      reads this, heap
    {
      Snapshot(heap.layout, live)
    }

    ghost predicate Valid()
      reads this, heap, heap.heap
    {
      heap.Valid() && Owned(heap.layout, live, HEADER)
    }

    /** All pointers of `s` but those in `others` are still held, with the data of `m`. */
    ghost predicate Kept(m: Memory, s: Snapshot<Layout>, others: set<nat>)
      reads this, heap, heap.heap
    {
      Keeps(m, s.heap, s.live, heap.heap[..], heap.layout, live, others, heap.end, HEADER)
    }

    constructor (heap: Heap)
      requires heap.Valid() && heap.layout == [Block(0, false)]
      ensures Valid() && this.heap == heap && live == []
    {
      this.heap, live := heap, [];
    }

    method Alloc(size: nat)
      requires Valid()
      modifies this, heap, heap.heap
      ensures Valid() && View() == Allocates(old(View()), size, heap.end)
      ensures Kept(old(heap.heap[..]), old(View()), {})
    {
      ghost var l, m := heap.layout, heap.heap[..];
      var r := heap.Alloc(size);
      if r.Some? {
        ghost var f := FirstFit(l, Needed(size), heap.end);
        OwnedAllocated(l, f, Needed(size), heap.end, live);
        AllocKeeps(m, heap.heap[..], l, f, Needed(size), heap.end, live, [r.value]);
        live := live + [r.value];
      } else {
        KeepsAsIs(m, l, live, {}, heap.end, HEADER);
      }
    }

    method Free(k: nat)
      requires Valid() && k < |live|
      modifies this, heap, heap.heap
      ensures Valid() && View() == Frees(old(View()), old(live)[k])
      ensures Kept(old(heap.heap[..]), old(View()), {old(live)[k]})
    {
      var p := live[k];
      ghost var i := OwnedBlock(heap.layout, live, p, HEADER);
      ghost var s, m := View(), heap.heap[..];
      heap.Free(Some(p), i);
      live := Without(live, p);
      FreeIs(s, m, i, p, heap.heap[..], heap.end);
    }

    lemma FreeIs(s: Snapshot<Layout>, m: Memory, i: nat, p: nat, m2: Memory, end: nat)
      requires WellFormed(s.heap, end) && Owned(s.heap, s.live, HEADER) && i < |s.heap| && s.heap[i].used
      requires p == s.heap[i].addr + HEADER && end <= |m| && KeptBut(m, m2, s.heap, i, 0, end)
      ensures Frees(s, p) == Snapshot(Freed(s.heap, i), Without(s.live, p))
      ensures Owned(Freed(s.heap, i), Without(s.live, p), HEADER)
      ensures Keeps(m, s.heap, s.live, m2, Freed(s.heap, i), Without(s.live, p), {p}, end, HEADER)
    {
      FreesIs(s, i, p, end);
      OwnedFreed(s.heap, end, i, s.live, HEADER);
      FreedKeeps(s.heap, i, end);
      FreedSameBlocks(s.heap, i, end);
      OthersKeep(m, m2, s.heap, Freed(s.heap, i), i, 0, end, s.live, Without(s.live, p));
    }

    /** The pointer is exchanged, kept or gone; its first bytes are those of the old block. */
    method Realloc(k: nat, size: nat) returns (r: Option<nat>)
      requires Valid() && k < |live|
      modifies this, heap, heap.heap
      ensures Valid() && View() == Reallocates(old(View()), old(live)[k], size, heap.end)
      ensures Kept(old(heap.heap[..]), old(View()), {old(live)[k]})
      ensures r.Some? ==>
        && r.value in live
        && Copied(old(heap.heap[..]), heap.heap[..], old(live)[k], r.value,
          Common(old(heap.layout), old(live)[k], RtAlign(size), heap.end, HEADER))
      ensures r.Some? && size < WORD_RANGE ==> size <= RtAlign(size)
    {
      var p := live[k];
      ghost var i := OwnedBlock(heap.layout, live, p, HEADER);
      ghost var s, m := View(), heap.heap[..];
      r := Resize(p, size, i);
      if size < WORD_RANGE { RtAlignRoundsUp(size); }
      UpdatedMembers(live, p, RtAlign(size), r);
      live := Updated(live, p, RtAlign(size), r);
      OthersKeep(m, heap.heap[..], s.heap, heap.layout, i, From(p, size, r), heap.end, s.live, live);
    }

    /** `rt_smem_realloc`, in terms of all blocks and pointers. */
    method Resize(p: nat, size: nat, ghost i: nat) returns (r: Option<nat>)
      requires Valid() && Points(View(), p, i, heap.heap[..], heap.end)
      modifies heap, heap.heap
      ensures heap.Valid()
      ensures Resized(old(View()), old(heap.heap[..]), p, size, i, r, heap.layout, heap.heap[..], heap.end)
    {
      ghost var s, m, need := View(), heap.heap[..], RtAlign(size);
      r := heap.Realloc(Some(p), size, i);
      if HasToMove(s.heap, i, need, heap.end) {
        if r.Some? {
          ResizedByMoving(s, m, p, size, need, i, FirstFit(s.heap, Needed(need), heap.end), r.value, heap.layout,
            heap.heap[..], heap.end);
        } else {
          ResizedNot(s, m, p, size, i, heap.layout, heap.heap[..], heap.end);
        }
      } else {
        ResizedInPlace(s, m, p, size, need, i, r, heap.layout, heap.heap[..], heap.end);
      }
    }

    method Perform(c: Call)
      requires Valid()
      modifies this, heap, heap.heap
      ensures Valid() && View() == Called(old(View()), c, heap.end)
      ensures Kept(old(heap.heap[..]), old(View()), Named(old(live), c))
    {
      match c
      case DoAlloc(size) =>
        Alloc(size);
      case DoFree(k) =>
        if k < |live| { Free(k); } else { KeepsAsIs(heap.heap[..], heap.layout, live, {}, heap.end, HEADER); }
      case DoRealloc(k, size) =>
        if k < |live| {
          var _ := Realloc(k, size);
        } else {
          KeepsAsIs(heap.heap[..], heap.layout, live, {}, heap.end, HEADER);
        }
    }

    /** Every run does to blocks and pointers what its calls, one after another, say, and every pointer that
        no call is given is still held at the end, with the same data behind it. Throughout the run the
        used blocks are exactly those whose pointers are handed out, none twice; and when all have been
        released the heap is one free block, as at the beginning. */
    method Run(calls: seq<Call>)
      requires Valid()
      modifies this, heap, heap.heap
      ensures Valid() && View() == AfterAll(old(View()), calls, Calling(heap.end))
      ensures Kept(old(heap.heap[..]), old(View()), NamedInAll(old(View()), calls, Calling(heap.end)))
      ensures live == [] ==> heap.layout == [Block(0, false)] && heap.used == 0 && heap.lfree == 0
    {
      ghost var s, m := View(), heap.heap[..];
      KeepsAsIs(m, heap.layout, live, {}, heap.end, HEADER);
      for n := 0 to |calls|
        invariant Valid() && View() == AfterAll(s, calls[..n], Calling(heap.end))
        invariant Kept(m, s, NamedInAll(s, calls[..n], Calling(heap.end)))
      {
        ghost var s1, m1 := View(), heap.heap[..];
        assert calls[..n + 1][..n] == calls[..n];
        Perform(calls[n]);
        KeepsTwice(m, s.heap, s.live, m1, s1.heap, s1.live, NamedInAll(s, calls[..n], Calling(heap.end)),
                   heap.heap[..], heap.layout, live, Named(s1.live, calls[n]), heap.end, HEADER);
      }
      assert calls[..|calls|] == calls;
      if live == [] {
        AllReleased();
      }
    }

    lemma AllReleased()
      requires Valid() && live == []
      ensures heap.layout == [Block(0, false)] && heap.used == 0 && heap.lfree == 0
    {
      NothingUsed(heap.layout, HEADER);
      EmptyHeapIsWhole(heap.layout, heap.end);
      assert UsedBytes([Block(0, false)][1..], heap.end) == 0;
    }
  }
}
