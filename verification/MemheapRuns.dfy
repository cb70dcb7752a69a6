/**
  Whole runs of a memheap (rt-thread/src/memheap.c), seen from its users: which pointers are handed out
  and not yet released, and what becomes of the data behind them.
 */
module MemheapRuns {
  import opened Wrappers
  import opened KernelLists
  import opened SmallMemLayout
  import opened MemheapLayout
  import opened MemheapPools
  import opened Memories
  import opened BlockOwners
  import opened Memheap

  // ---------- which blocks are used ----------

  lemma TakenInUse(l: Layout, f: nat, need: nat, end: nat, a: nat)
    requires f < |l| && !l[f].used
    ensures InUse(Taken(l, f, need, end), a) <==> InUse(l, a) || a == l[f].addr
  {
    if Splits(l, f, need, end) {
      SplitInUse(l, f, Block(l[f].addr + ITEM + need, false), a);
      MarkedInUse(SplitAt(l, f, l[f].addr + ITEM + need), f, a);
    } else {
      MarkedInUse(l, f, a);
    }
  }

  /** A pointer that was just handed out is new. */
  lemma OwnedTaken(l: Layout, f: nat, need: nat, end: nat, live: seq<nat>)
    requires Tiles(l, end) && Owned(l, live, ITEM) && f < |l| && !l[f].used
    ensures Owned(Taken(l, f, need, end), live + [l[f].addr + ITEM], ITEM)
  {
    OneAddress(l, end, f);
    assert l == l[..f] + [l[f]] + l[f + 1..];
    var r := Taken(l, f, need, end);
    forall a: nat ensures InUse(r, a) <==> InUse(l, a) || a == l[f].addr { TakenInUse(l, f, need, end, a); }
    OwnedWith(l, r, live, l[f].addr, ITEM);
  }

  lemma OwnedGrown(l: Layout, i: nat, need: nat, live: seq<nat>)
    requires Owned(l, live, ITEM) && i + 1 < |l| && !l[i + 1].used
    ensures Owned(Grown(l, i, need), live, ITEM)
  {
    forall a: nat ensures InUse(Grown(l, i, need), a) <==> InUse(l, a) {
      DroppedInUse(l, i + 1, a);
      SplitInUse(Dropped(l, i + 1), i, Block(l[i].addr + ITEM + need, false), a);
    }
    OwnedStill(l, Grown(l, i, need), live, ITEM);
  }

  lemma OwnedCut(l: Layout, i: nat, need: nat, live: seq<nat>)
    requires Owned(l, live, ITEM) && i < |l|
    ensures Owned(Cut(l, i, need), live, ITEM)
  {
    var y := Block(l[i].addr + ITEM + need, false);
    var s := SplitAt(l, i, l[i].addr + ITEM + need);
    forall a: nat ensures InUse(Cut(l, i, need), a) <==> InUse(l, a) {
      SplitInUse(l, i, y, a);
      if i + 2 < |s| && !s[i + 2].used { DroppedInUse(s, i + 2, a); }
    }
    OwnedStill(l, Cut(l, i, need), live, ITEM);
  }

  lemma OwnedMoved(l: Layout, f: nat, need: nat, end: nat, i: nat, live: seq<nat>)
    requires f < |l| && i < |l| && i != f && l[i].used
    requires Tiles(Taken(l, f, need, end), end) && Owned(Taken(l, f, need, end), live + [l[f].addr + ITEM], ITEM)
    ensures Shifted(l, f, need, end, i) < |Taken(l, f, need, end)|
    ensures Owned(Freed(Taken(l, f, need, end), Shifted(l, f, need, end, i)),
                  Without(live + [l[f].addr + ITEM], l[i].addr + ITEM), ITEM)
  {
    var r, k := Taken(l, f, need, end), Shifted(l, f, need, end, i);
    TakenBlocks(l, f, need, end, i);
    assert r[k] == l[i];
    OwnedFreed(r, end, k, live + [l[f].addr + ITEM], ITEM);
  }

  lemma OwnedTakenMoved(l: Layout, f: nat, need: nat, end: nat, i: nat, live: seq<nat>)
    requires Tiles(l, end) && Owned(l, live, ITEM) && f < |l| && i < |l| && !l[f].used && l[i].used
    requires Tiles(Taken(l, f, need, end), end)
    ensures Shifted(l, f, need, end, i) < |Taken(l, f, need, end)|
    ensures Owned(Freed(Taken(l, f, need, end), Shifted(l, f, need, end, i)),
                  Without(live + [l[f].addr + ITEM], l[i].addr + ITEM), ITEM)
  {
    OwnedTaken(l, f, need, end, live);
    OwnedMoved(l, f, need, end, i, live);
  }

  // ---------- which blocks stay as they were ----------

  lemma TakenSameBlocks(l: Layout, f: nat, need: nat, end: nat)
    requires f < |l| && !l[f].used
    ensures SameBlocks(l, Taken(l, f, need, end), f, end)
  {
    var r := Taken(l, f, need, end);
    forall j | 0 <= j < |l| && j != f && l[j].used ensures InAfter(l, r, j, end) {
      var k := Shifted(l, f, need, end, j);
      assert r[k] == l[j] && Next(r, k, end) == Next(l, j, end);
    }
  }

  lemma GrownSameBlocks(l: Layout, i: nat, need: nat, end: nat)
    requires i + 1 < |l| && !l[i + 1].used
    ensures SameBlocks(l, Grown(l, i, need), i, end)
  {
    var r := Grown(l, i, need);
    forall j | 0 <= j < |l| && j != i && l[j].used ensures InAfter(l, r, j, end) {
      assert r[j] == l[j] && Next(r, j, end) == Next(l, j, end);
    }
  }

  lemma CutSameBlocks(l: Layout, i: nat, need: nat, end: nat)
    requires i < |l|
    ensures SameBlocks(l, Cut(l, i, need), i, end)
  {
    var s, r := SplitAt(l, i, l[i].addr + ITEM + need), Cut(l, i, need);
    forall j | 0 <= j < |l| && j != i && l[j].used ensures InAfter(l, r, j, end) {
      var n := if j < i then j else j + 1;
      assert s[n] == l[j] && Next(s, n, end) == Next(l, j, end);
      var k := if j < i then j else if Right(l, i) == 1 then j else j + 1;
      assert r[k] == s[n] && Next(r, k, end) == Next(s, n, end);
    }
  }

  lemma MovedSameBlocks(p: Pool, f: nat, need: nat, end: nat, i: nat)
    requires f < |p.layout| && i < |p.layout| && !p.layout[f].used && p.layout[i].used
    ensures SameBlocks(p.layout, Moves(p, f, need, end, i).layout, i, end)
  {
    var l := p.layout;
    var r := Taken(l, f, need, end);
    TakenBlocks(l, f, need, end, i);
    forall j | 0 <= j < |l| && j != i && l[j].used ensures InAfter(l, Moves(p, f, need, end, i).layout, j, end) {
      TakenBlocks(l, f, need, end, j);
      assert Next(r, Shifted(l, f, need, end, j), end) == Next(l, j, end);
      var k := FreedBlock(r, Shifted(l, f, need, end, i), Shifted(l, f, need, end, j), end);
    }
  }

  // ---------- what becomes of data ----------

  /** Only bytes of block `x` have changed, which is free or block `i`. */
  ghost predicate Touches(m: Memory, m2: Memory, l: Layout, i: nat, x: nat, end: nat) {
    && i < |l| && x < |l| && (x == i || !l[x].used)
    && SameOutside(m, m2, l[x].addr, Next(l, x, end))
  }

  lemma OthersKeep(m: Memory, m2: Memory, l: Layout, after: Layout, i: nat, x: nat, end: nat, live: seq<nat>,
                   live2: seq<nat>)
    requires Tiles(l, end) && Tiles(after, end) && Owned(l, live, ITEM) && end <= |m| && Touches(m, m2, l, i, x, end)
    requires SameBlocks(l, after, i, end) && forall p :: p in live && p != l[i].addr + ITEM ==> p in live2
    ensures Keeps(m, l, live, m2, after, live2, {l[i].addr + ITEM}, end, ITEM)
  {
    forall p | p in live && p != l[i].addr + ITEM ensures SameData(m, l, m2, after, p, end, ITEM) {
      var j := OwnedBlock(l, live, p, ITEM);
      BlocksApart(l, end, j, x);
      assert InAfter(l, after, j, end);
      var k :| 0 <= k < |after| && after[k] == l[j] && Next(after, k, end) == Next(l, j, end);
      SameDataBy(m, l, m2, after, j, k, end, ITEM);
    }
  }

  /** The same when nobody had block `i`. */
  lemma AllKeep(m: Memory, m2: Memory, l: Layout, after: Layout, i: nat, end: nat, live: seq<nat>, live2: seq<nat>)
    requires Tiles(l, end) && Tiles(after, end) && Owned(l, live, ITEM) && end <= |m| && Touches(m, m2, l, i, i, end)
    requires SameBlocks(l, after, i, end) && !l[i].used && forall p :: p in live ==> p in live2
    ensures Keeps(m, l, live, m2, after, live2, {}, end, ITEM)
  {
    OthersKeep(m, m2, l, after, i, i, end, live, live2);
    OneAddress(l, end, i);
    assert l == l[..i] + [l[i]] + l[i + 1..];
    assert !InUse(l, l[i].addr);
    forall p | p in live ensures SameData(m, l, m2, after, p, end, ITEM) { assert p != l[i].addr + ITEM; }
  }

  // ---------- calls ----------

  function Allocates(s: Snapshot<Pool>, size: nat, end: nat): Snapshot<Pool> {
    var f := Found(s.heap, Request(size), end);
    if f == |s.heap.layout| then s
    else Snapshot(Takes(s.heap, f, Request(size), end), s.live + [s.heap.layout[f].addr + ITEM])
  }

  function Frees(s: Snapshot<Pool>, p: nat): Snapshot<Pool> {
    var i := BlockAt(s.heap.layout, p - ITEM);
    if i == |s.heap.layout| then s else Snapshot(Releases(s.heap, i), Without(s.live, p))
  }

  /** Large enough: kept, or cut in place. Else grown into a free block behind it, or moved if there is room
      for both blocks. */
  function Reallocates(s: Snapshot<Pool>, p: nat, size: nat, end: nat): Snapshot<Pool> {
    var l, i, need := s.heap.layout, BlockAt(s.heap.layout, p - ITEM), Request(size);
    if i == |l| then s
    else if size == 0 then Frees(s, p)
    else if need <= ItemSize(l, i, end) then
      if need + ITEM + MINIALLOC < ItemSize(l, i, end) then s.(heap := Cuts(s.heap, i, need)) else s
    else if CanGrow(l, i, need, end) then s.(heap := Grows(s.heap, i, need))
    else
      var f := Found(s.heap, need, end);
      if f == |l| then s else Snapshot(Moves(s.heap, f, need, end, i), Without(s.live + [l[f].addr + ITEM], p))
  }

  /** What a call makes of the heap. */
  function Called(s: Snapshot<Pool>, c: Call, end: nat): Snapshot<Pool> {
    match c
    case DoAlloc(size) => Allocates(s, size, end)
    case DoFree(k) => if k < |s.live| then Frees(s, s.live[k]) else s
    case DoRealloc(k, size) => if k < |s.live| then Reallocates(s, s.live[k], size, end) else s
  }

  function Calling(end: nat): (Snapshot<Pool>, Call) -> Snapshot<Pool> {
    (s: Snapshot<Pool>, c: Call) => Called(s, c, end)
  }

  /** What a reallocation of `p` that gave `r` comes to: of the blocks other than `i`, which `p` points to, none
      that is used has changed, and nothing was written outside block `x`. */
  ghost predicate Resized(s: Snapshot<Pool>, m: Memory, p: nat, size: nat, i: nat, x: nat, r: Option<nat>, after: Pool,
                          m2: Memory, end: nat) {
    && Owned(after.layout, Updated(s.live, p, size, r), ITEM)
    && Reallocates(s, p, size, end) == Snapshot(after, Updated(s.live, p, size, r))
    && SameBlocks(s.heap.layout, after.layout, i, end) && Touches(m, m2, s.heap.layout, i, x, end)
    && (r.Some? ==> size > 0 && r.value in Updated(s.live, p, size, r))
    && (r.Some? ==> NewSize(s.heap.layout, p, size, after.layout, r.value, end))
    && (r.Some? ==>
      Copied(m, m2, p, r.value, Common(s.heap.layout, p, BytesAt(after.layout, r.value, end, ITEM), end, ITEM)))
  }

  /** The block at `q` is not smaller than the request; if the old one at `p` was as large, it is what is left of it. */
  predicate NewSize(l: Layout, p: nat, size: nat, after: Layout, q: nat, end: nat) {
    var was, given, need := BytesAt(l, p, end, ITEM), BytesAt(after, q, end, ITEM), Request(size);
    && given >= need && (need <= was ==> given == if need + ITEM + MINIALLOC < was then need else was)
  }

  /** `p` is held, and points to block `i`. */
  ghost predicate Points(s: Snapshot<Pool>, p: nat, i: nat, m: Memory, end: nat) {
    && Wide(s.heap.layout, end) && FreeSet(s.heap.free, s.heap.layout) && Owned(s.heap.layout, s.live, ITEM)
    && end <= |m|
    && p in s.live && i < |s.heap.layout| && s.heap.layout[i].used && p == s.heap.layout[i].addr + ITEM
    && BlockAt(s.heap.layout, p - ITEM) == i && 0 <= ItemSize(s.heap.layout, i, end)
    && Next(s.heap.layout, i, end) <= end
  }

  lemma PointsTo(s: Snapshot<Pool>, p: nat, m: Memory, end: nat) returns (i: nat)
    requires Wide(s.heap.layout, end) && FreeSet(s.heap.free, s.heap.layout) && Owned(s.heap.layout, s.live, ITEM)
    requires end <= |m| && p in s.live
    ensures Points(s, p, i, m, end)
  {
    i := OwnedBlock(s.heap.layout, s.live, p, ITEM);
    UsedIsRoomy(s.heap.layout, i, end);
    assert RoomyAt(s.heap.layout, i, end);
    TilesBelow(s.heap.layout, end, i);
  }

  lemma FreeIs(s: Snapshot<Pool>, m: Memory, p: nat, i: nat, end: nat)
    requires Points(s, p, i, m, end)
    ensures Frees(s, p) == Snapshot(Releases(s.heap, i), Without(s.live, p))
    ensures Owned(Freed(s.heap.layout, i), Without(s.live, p), ITEM)
    ensures Keeps(m, s.heap.layout, s.live, m, Freed(s.heap.layout, i), Without(s.live, p), {p}, end, ITEM)
  {
    OwnedFreed(s.heap.layout, end, i, s.live, ITEM);
    FreedKeepsAll(s.heap.layout, i, end);
    FreedSameBlocks(s.heap.layout, i, end);
    OthersKeep(m, m, s.heap.layout, Freed(s.heap.layout, i), i, i, end, s.live, Without(s.live, p));
  }

  lemma ResizedToNothing(s: Snapshot<Pool>, m: Memory, p: nat, i: nat, after: Pool, m2: Memory, end: nat)
    requires Points(s, p, i, m, end) && after == Releases(s.heap, i) && m2 == m
    ensures Resized(s, m, p, 0, i, i, None, after, m2, end)
  {
    OwnedFreed(s.heap.layout, end, i, s.live, ITEM);
    FreedSameBlocks(s.heap.layout, i, end);
  }

  /** In place, cut or not. */
  lemma ResizedInPlace(s: Snapshot<Pool>, m: Memory, p: nat, size: nat, need: nat, i: nat, after: Pool, m2: Memory,
                       end: nat)
    requires Points(s, p, i, m, end) && size > 0 && need == Request(size) <= ItemSize(s.heap.layout, i, end)
    requires after ==
      if need + ITEM + MINIALLOC < ItemSize(s.heap.layout, i, end) then Cuts(s.heap, i, need) else s.heap
    requires SameOutside(m, m2, p + need, Next(s.heap.layout, i, end))
    requires after == s.heap ==> m2 == m
    ensures Resized(s, m, p, size, i, i, Some(p), after, m2, end)
  {
    if need + ITEM + MINIALLOC < ItemSize(s.heap.layout, i, end) {
      ResizedByCutting(s, m, p, size, need, i, after, m2, end);
    } else {
      SameBlocksSelf(s.heap.layout, i, end);
    }
  }

  lemma ResizedByCutting(s: Snapshot<Pool>, m: Memory, p: nat, size: nat, need: nat, i: nat, after: Pool, m2: Memory,
                         end: nat)
    requires Points(s, p, i, m, end) && size > 0 && need == Request(size)
    requires need + ITEM + MINIALLOC < ItemSize(s.heap.layout, i, end) && after == Cuts(s.heap, i, need)
    requires SameOutside(m, m2, p + need, Next(s.heap.layout, i, end))
    ensures Resized(s, m, p, size, i, i, Some(p), after, m2, end)
  {
    CutKeeps(s.heap.layout, i, need, end);
    BlockAtIs(after.layout, end, i);
    OwnedCut(s.heap.layout, i, need, s.live);
    CutSameBlocks(s.heap.layout, i, need, end);
  }

  lemma ResizedByGrowth(s: Snapshot<Pool>, m: Memory, p: nat, size: nat, need: nat, i: nat, after: Pool, m2: Memory,
                        end: nat)
    requires Points(s, p, i, m, end) && size > 0 && need == Request(size) > ItemSize(s.heap.layout, i, end)
    requires CanGrow(s.heap.layout, i, need, end) && after == Grows(s.heap, i, need)
    requires SameOutside(m, m2, s.heap.layout[i + 1].addr, Next(s.heap.layout, i + 1, end))
    ensures Resized(s, m, p, size, i, i + 1, Some(p), after, m2, end)
  {
    GrownKeeps(s.heap.layout, i, need, end);
    BlockAtIs(after.layout, end, i);
    OwnedGrown(s.heap.layout, i, need, s.live);
    GrownSameBlocks(s.heap.layout, i, need, end);
  }

  lemma FoundForMoving(s: Snapshot<Pool>, m: Memory, p: nat, need: nat, i: nat, f: nat, end: nat)
    requires Points(s, p, i, m, end) && need % ALIGN == 0 && need >= MINIALLOC
    requires f == Found(s.heap, need, end) < |s.heap.layout|
    ensures !s.heap.layout[f].used && s.heap.layout[f].addr + ITEM != p
    ensures Tiles(Taken(s.heap.layout, f, need, end), end)
  {
    FoundIsFree(s.heap, need, end);
    OtherAddress(s.heap.layout, end, i, f);
    TakenKeeps(s.heap.layout, f, need, end);
  }

  lemma MovedOwned(p: Pool, need: nat, end: nat, i: nat, f: nat, live: seq<nat>, after: Layout)
    requires Tiles(p.layout, end) && Owned(p.layout, live, ITEM) && f < |p.layout| && i < |p.layout|
    requires !p.layout[f].used && p.layout[i].used
    requires Tiles(Taken(p.layout, f, need, end), end) && after == Moves(p, f, need, end, i).layout
    ensures Owned(after, Without(live + [p.layout[f].addr + ITEM], p.layout[i].addr + ITEM), ITEM)
  {
    OwnedTakenMoved(p.layout, f, need, end, i, live);
    assert after == Freed(Taken(p.layout, f, need, end), Shifted(p.layout, f, need, end, i)) by {
      MovesLayout(p, f, need, end, i);
    }
  }

  lemma ResizedByMoving(s: Snapshot<Pool>, m: Memory, p: nat, size: nat, need: nat, i: nat, f: nat, to: nat,
                        after: Pool, m2: Memory, end: nat)
    requires Points(s, p, i, m, end) && size > 0 && need == Request(size) > ItemSize(s.heap.layout, i, end)
    requires !CanGrow(s.heap.layout, i, need, end) && f == Found(s.heap, need, end) < |s.heap.layout|
    requires SameOutside(m, m2, s.heap.layout[f].addr, Next(s.heap.layout, f, end))
    requires to == s.heap.layout[f].addr + ITEM && Copied(m, m2, p, to, ItemSize(s.heap.layout, i, end))
    requires after == Moves(s.heap, f, need, end, i)
    ensures Resized(s, m, p, size, i, f, Some(to), after, m2, end)
  {
    ReallocatesByMoving(s, m, p, size, need, i, f, to, after, end);
    FoundForMoving(s, m, p, need, i, f, end);
    MovedOwned(s.heap, need, end, i, f, s.live, after.layout);
    MovedSameBlocks(s.heap, f, need, end, i);
    MovedSize(s.heap, f, need, end, i, to, after.layout);
  }

  lemma ReallocatesByMoving(s: Snapshot<Pool>, m: Memory, p: nat, size: nat, need: nat, i: nat, f: nat, to: nat,
                            after: Pool, end: nat)
    requires Points(s, p, i, m, end) && size > 0 && need == Request(size) > ItemSize(s.heap.layout, i, end)
    requires !CanGrow(s.heap.layout, i, need, end) && f == Found(s.heap, need, end) < |s.heap.layout|
    requires to == s.heap.layout[f].addr + ITEM && after == Moves(s.heap, f, need, end, i)
    ensures Reallocates(s, p, size, end) == Snapshot(after, Updated(s.live, p, size, Some(to)))
    ensures to in Updated(s.live, p, size, Some(to))
  {
    FoundForMoving(s, m, p, need, i, f, end);
    UpdatedMembers(s.live, p, size, Some(to));
  }

  /** The block that the data were moved to is as large as it was when it was taken. */
  lemma MovedSize(p: Pool, f: nat, need: nat, end: nat, i: nat, to: nat, after: Layout)
    requires Wide(p.layout, end) && f < |p.layout| && i < |p.layout| && !p.layout[f].used && p.layout[i].used
    requires need % ALIGN == 0 && MINIALLOC <= need <= ItemSize(p.layout, f, end)
    requires to == p.layout[f].addr + ITEM && after == Moves(p, f, need, end, i).layout
    ensures BytesAt(after, to, end, ITEM) >= need
  {
    var l := p.layout;
    var r, k := Taken(l, f, need, end), Shifted(l, f, need, end, i);
    TakenKeeps(l, f, need, end);
    TakenBlocks(l, f, need, end, i);
    MovesLayout(p, f, need, end, i);
    FreedKeepsAll(r, k, end);
    var n := FreedBlock(r, k, f, end);
    BlockAtIs(Freed(r, k), end, n);
  }

  /** The block at `q` has the first `count` bytes of the old one at `p`. */
  ghost predicate HasFirst(m: Memory, p: nat, count: nat, m2: Memory, l2: Layout, q: nat, end: nat) {
    BytesAt(l2, q, end, ITEM) >= count && Copied(m, m2, p, q, count)
  }

  /** What is promised of a reallocation to `size` bytes: a block as large, with the first bytes of the old one, as
      many as both have. A block returned is as large exactly if aligning the size does not wrap around; and else it
      has lost bytes of the old one exactly if that was large enough to be cut. */
  ghost predicate PromiseIff(l: Layout, m: Memory, p: nat, size: nat, m2: Memory, l2: Layout, q: nat, end: nat) {
    && (BytesAt(l2, q, end, ITEM) >= size <==> size <= WORD_RANGE - ALIGN)
    && (HasFirst(m, p, Common(l, p, size, end, ITEM), m2, l2, q, end) <==>
      size <= WORD_RANGE - ALIGN || BytesAt(l, p, end, ITEM) <= ITEM + 2 * MINIALLOC)
  }

  lemma PromiseKeptIff(s: Snapshot<Pool>, m: Memory, p: nat, size: nat, i: nat, x: nat, q: nat, after: Pool, m2: Memory,
                       end: nat)
    requires Points(s, p, i, m, end) && end + ITEM < WORD_RANGE && 0 < size < WORD_RANGE
    requires Wide(after.layout, end) && Resized(s, m, p, size, i, x, Some(q), after, m2, end)
    ensures PromiseIff(s.heap.layout, m, p, size, m2, after.layout, q, end)
  {
    UsedIsRoomy(s.heap.layout, i, end);
    assert RoomyAt(s.heap.layout, i, end);
    var j := BlockAt(after.layout, q - ITEM);
    if j < |after.layout| { TilesBelow(after.layout, end, j); }
    var l := s.heap.layout;
    NewSizes(BytesAt(l, p, end, ITEM), BytesAt(after.layout, q, end, ITEM), size);
    var had := Common(l, p, BytesAt(after.layout, q, end, ITEM), end, ITEM);
    if Common(l, p, size, end, ITEM) <= had { CopiedLess(m, m2, p, q, had, Common(l, p, size, end, ITEM)); }
  }

  lemma CopiedLess(m: Memory, m2: Memory, p: nat, q: nat, count: nat, less: nat)
    requires Copied(m, m2, p, q, count) && less <= count
    ensures Copied(m, m2, p, q, less)
  {
  }

  /** Sizes before and after. */
  lemma NewSizes(was: int, given: int, size: nat)
    requires MINIALLOC <= was < WORD_RANGE && 0 < size < WORD_RANGE && Request(size) <= given < WORD_RANGE - ALIGN
    requires Request(size) <= was ==> given == if Request(size) + ITEM + MINIALLOC < was then Request(size) else was
    ensures given >= size <==> size <= WORD_RANGE - ALIGN
    ensures (given >= was || given >= size) <==> size <= WORD_RANGE - ALIGN || was <= ITEM + 2 * MINIALLOC
  {
    RequestIsEnough(size);
  }

  lemma ResizedNot(s: Snapshot<Pool>, m: Memory, p: nat, size: nat, need: nat, i: nat, after: Pool, m2: Memory,
                   end: nat)
    requires Points(s, p, i, m, end) && size > 0 && need == Request(size) > ItemSize(s.heap.layout, i, end)
    requires !CanGrow(s.heap.layout, i, need, end) && Found(s.heap, need, end) == |s.heap.layout|
    requires after == s.heap && m2 == m
    ensures Resized(s, m, p, size, i, i, None, after, m2, end)
  {
    SameBlocksSelf(s.heap.layout, i, end);
  }

  /** A call is not a reallocation to one of the sizes from 2^32 - 23 to 2^32 - 8, see `SumWrapsIff`. */
  predicate IsSafe(c: Call) {
    c.DoRealloc? ==> !SumWraps(c.size)
  }

  /** The users of a memheap, who release only what they were handed out. */
  class Users {
    const heap: Heap
    var live: seq<nat>

    ghost function View(): Snapshot<Pool>
      reads this, heap
    {
      Snapshot(heap.View(), live)
    }

    ghost predicate Valid()
      reads this, heap
    {
      heap.Valid() && Owned(heap.layout, live, ITEM)
    }

    /** All pointers of `s` but those in `others` are still held, with the data of `m`. */
    ghost predicate Kept(m: Memory, s: Snapshot<Pool>, others: set<nat>)
      reads this, heap, heap.data
    {
      Keeps(m, s.heap.layout, s.live, heap.data[..], heap.layout, live, others, heap.tail, ITEM)
    }

    constructor (heap: Heap)
      requires heap.Valid() && heap.layout == [Block(0, false)]
      ensures Valid() && this.heap == heap && live == []
    {
      this.heap, live := heap, [];
    }

    method Alloc(size: nat)
      requires Valid()
      modifies this, heap, heap.data
      ensures Valid() && View() == Allocates(old(View()), size, heap.tail)
      ensures Kept(old(heap.data[..]), old(View()), {})
    {
      ghost var s, m := View(), heap.data[..];
      var r := heap.Alloc(size);
      if r.Some? {
        ghost var f := Found(s.heap, Request(size), heap.tail);
        FoundIsFree(s.heap, Request(size), heap.tail);
        OwnedTaken(s.heap.layout, f, Request(size), heap.tail, live);
        TakenSameBlocks(s.heap.layout, f, Request(size), heap.tail);
        live := live + [r.value];
        AllKeep(m, heap.data[..], s.heap.layout, heap.layout, f, heap.tail, s.live, live);
      } else {
        KeepsAsIs(m, heap.layout, live, {}, heap.tail, ITEM);
      }
    }

    method Free(k: nat)
      requires Valid() && k < |live|
      modifies this, heap
      ensures Valid() && View() == Frees(old(View()), old(live)[k])
      ensures Kept(old(heap.data[..]), old(View()), {old(live)[k]})
    {
      var p := live[k];
      ghost var s, m := View(), heap.data[..];
      ghost var i := PointsTo(s, p, m, heap.tail);
      FreeIs(s, m, p, i, heap.tail);
      heap.Free(Some(p), i);
      live := Without(live, p);
    }

    /** The pointer is exchanged, kept or gone; its first bytes are those of the old block. */
    method Realloc(k: nat, size: nat) returns (r: Option<nat>)
      requires Valid() && k < |live| && !Misgrows(k, size)
      modifies this, heap, heap.data
      ensures Valid() && View() == Reallocates(old(View()), old(live)[k], size, heap.tail)
      ensures Kept(old(heap.data[..]), old(View()), {old(live)[k]})
      ensures r.Some? ==>
        && r.value in live && BytesAt(heap.layout, r.value, heap.tail, ITEM) >= Request(size)
        && Copied(old(heap.data[..]), heap.data[..], old(live)[k], r.value,
          Common(old(heap.layout), old(live)[k], Request(size), heap.tail, ITEM))
      ensures r.Some? && size < WORD_RANGE ==>
        PromiseIff(old(heap.layout), old(heap.data[..]), old(live)[k], size, heap.data[..], heap.layout, r.value,
                   heap.tail)
    {
      var p := live[k];
      ghost var s, m := View(), heap.data[..];
      ghost var i := PointsTo(s, p, m, heap.tail);
      ghost var x;
      r, x := Resize(p, size, i);
      live := Updated(live, p, size, r);
      if r.Some? && size < WORD_RANGE {
        PromiseKeptIff(s, m, p, size, i, x, r.value, heap.View(), heap.data[..], heap.tail);
      }
      OthersKeep(m, heap.data[..], s.heap.layout, heap.layout, i, x, heap.tail, s.live, live);
    }

    /** The call would put a free block into the header of the block that the pointer is for. */
    ghost predicate Misgrows(k: nat, size: nat)
      requires k < |live|
      reads this, heap
    {
      heap.Misgrows(heap.View(), Some(live[k]), BlockAt(heap.layout, live[k] - ITEM), size)
    }

    /** `rt_memheap_realloc`, in terms of all blocks and pointers. */
    method Resize(p: nat, size: nat, ghost i: nat) returns (r: Option<nat>, ghost x: nat)
      requires Valid() && Points(View(), p, i, heap.data[..], heap.tail)
      requires !heap.Misgrows(heap.View(), Some(p), i, size)
      modifies heap, heap.data
      ensures heap.Valid()
      ensures Resized(old(View()), old(heap.data[..]), p, size, i, x, r, heap.View(), heap.data[..], heap.tail)
    {
      ghost var s, l, m, need := View(), heap.layout, heap.data[..], Request(size);
      x := i;
      r := heap.Realloc(Some(p), size, i);
      if size == 0 {
        ResizedToNothing(s, m, p, i, heap.View(), heap.data[..], heap.tail);
      } else if need <= ItemSize(l, i, heap.tail) {
        ResizedInPlace(s, m, p, size, need, i, heap.View(), heap.data[..], heap.tail);
      } else if CanGrow(l, i, need, heap.tail) {
        x := i + 1;
        ResizedByGrowth(s, m, p, size, need, i, heap.View(), heap.data[..], heap.tail);
      } else if r.Some? {
        x := Found(s.heap, need, heap.tail);
        ResizedByMoving(s, m, p, size, need, i, x, r.value, heap.View(), heap.data[..], heap.tail);
      } else {
        ResizedNot(s, m, p, size, need, i, heap.View(), heap.data[..], heap.tail);
      }
    }

    method Perform(c: Call)
      requires Valid() && IsSafe(c)
      modifies this, heap, heap.data
      ensures Valid() && View() == Called(old(View()), c, heap.tail)
      ensures Kept(old(heap.data[..]), old(View()), Named(old(live), c))
    {
      match c
      case DoAlloc(size) =>
        Alloc(size);
      case DoFree(k) =>
        if k < |live| { Free(k); } else { KeepsAsIs(heap.data[..], heap.layout, live, {}, heap.tail, ITEM); }
      case DoRealloc(k, size) =>
        if k < |live| {
          var _ := Realloc(k, size);
        } else {
          KeepsAsIs(heap.data[..], heap.layout, live, {}, heap.tail, ITEM);
        }
    }

    /** Every run does to blocks, free list and pointers what its calls, one after another, say, and every
        pointer that no call is given is still held at the end, with the same data behind it. Throughout the
        run the used blocks are exactly those whose pointers are handed out, none twice; and when all have
        been released the pool is one free block, as at the beginning. That takes calls which cannot put a free
        block into the header of a used one, see `Memheap.Heap.Realloc`. */
    method Run(calls: seq<Call>)
      requires Valid() && forall n :: 0 <= n < |calls| ==> IsSafe(calls[n])
      modifies this, heap, heap.data
      ensures Valid() && View() == AfterAll(old(View()), calls, Calling(heap.tail))
      ensures Kept(old(heap.data[..]), old(View()), NamedInAll(old(View()), calls, Calling(heap.tail)))
      ensures live == [] ==> heap.View() == Pool([Block(0, false)], [0]) && heap.available == heap.tail - ITEM
    {
      ghost var s, m := View(), heap.data[..];
      KeepsAsIs(m, heap.layout, live, {}, heap.tail, ITEM);
      for n := 0 to |calls|
        invariant Valid() && View() == AfterAll(s, calls[..n], Calling(heap.tail))
        invariant Kept(m, s, NamedInAll(s, calls[..n], Calling(heap.tail)))
      {
        ghost var s1, m1 := View(), heap.data[..];
        assert calls[..n + 1][..n] == calls[..n];
        Perform(calls[n]);
        KeepsTwice(m, s.heap.layout, s.live, m1, s1.heap.layout, s1.live, NamedInAll(s, calls[..n], Calling(heap.tail)),
                   heap.data[..], heap.layout, live, Named(s1.live, calls[n]), heap.tail, ITEM);
      }
      assert calls[..|calls|] == calls;
      if live == [] {
        NothingUsed(heap.layout, ITEM);
        heap.EmptyPoolIsWhole();
      }
    }
  }
}
