/**
  A memheap (rt-thread/src/memheap.c): blocks in a circular chain over the pool, and the free ones
  in a second circular list, all relinked in place.
 */
module Memheap {
  import opened KernelLists
  import opened MemheapLayout
  import opened MemheapPools
  import opened Memories
  import opened Rings
  import opened SmallMemLayout
  import opened Wrappers

  /** The chain of all blocks, the used block at the end of the pool included. */
  function Addresses(l: Layout, tail: nat): (s: seq<nat>)
    ensures |s| == |l| + 1 && s[|l|] == tail
    ensures forall i {:trigger s[i]} :: 0 <= i < |l| ==> s[i] == l[i].addr
  {
    seq(|l|, i requires 0 <= i < |l| => l[i].addr) + [tail]
  }

  /** The only block of a pool. */
  lemma OneBlock(tail: nat)
    requires tail % ALIGN == 0 && tail >= ITEM
    ensures Wide([Block(0, false)], tail) && FreeSet([0], [Block(0, false)])
    ensures FreeBytes([Block(0, false)], tail) == tail - ITEM
  {
    var l := [Block(0, false)];
    assert BlockFits(l, 0, tail) && FreeBytes(l[1..], tail) == 0;
    if tail >= ITEM + MINIALLOC { assert RoomyAt(l, 0, tail); }
  }

  class Heap {
    const tail: nat              // the used block at the end of the pool
    const header: nat            // free_header, outside the pool
    const data: array<nat>       // the bytes of the pool; those of headers are in the fields below
    var used: seq<bool>          // by address of a block: the lowest bit of magic
    var next: seq<nat>
    var prev: seq<nat>
    var nextFree: seq<nat>
    var prevFree: seq<nat>
    var available: int           // available_size
    var maxUsed: int             // max_used_size
    ghost var layout: Layout
    ghost var free: seq<nat>     // the free list, without its header

    function PoolSize(): nat { tail + ITEM }

    ghost function View(): Pool
      reads `layout, `free
    {
      Pool(layout, free)
    }

    /** The chain links the blocks of `layout`, and their magic words say which are used. */
    ghost predicate Chained()
      reads `used, `next, `prev, `layout
    {
      && |used| == |next| == |prev| == header + 1 && tail < header
      && Tiles(layout, tail) && Ring(next, prev, Addresses(layout, tail))
      && (forall i {:trigger FlagAt(i)} :: 0 <= i < |layout| ==> FlagAt(i))
      && used[tail]
    }

    ghost predicate FlagAt(i: nat)
      requires i < |layout|
      reads `used, `layout
    {
      layout[i].addr < tail < |used| && used[layout[i].addr] == layout[i].used
    }

    /** The free list links the blocks `free`. */
    ghost predicate Listed()
      reads `nextFree, `prevFree, `free
    {
      && |nextFree| == |prevFree| == header + 1 && tail < header
      && Ring(nextFree, prevFree, [header] + free)
      && forall a :: a in free ==> a < tail
    }

    ghost predicate Valid()
      reads this
    {
      && Chained() && Listed() && Wide(layout, tail)
      && FreeSet(free, layout)
      && available == FreeBytes(layout, tail) && maxUsed >= PoolSize() - available
      && data.Length == PoolSize() < WORD_RANGE
    }

    /** `rt_memheap_init` of a pool of `size` bytes, which are aligned down and hold at least two headers */
    constructor (size: nat)
      requires size < WORD_RANGE && AlignedDown(size) >= 2 * ITEM
      ensures Valid() && fresh(data) && PoolSize() == AlignedDown(size)
      ensures View() == Pool([Block(0, false)], [0]) && available == AvailableAtFirst(size) == PoolSize() - 2 * ITEM
      ensures maxUsed == PoolSize() - available
    {
      var t := AlignedDown(size) - ITEM;
      tail := t;
      header := t + 1;
      data := new nat[t + ITEM];
      used := seq(t + 2, a => a == t);
      next := seq(t + 2, a => if a == 0 then t else 0);
      prev := seq(t + 2, a => if a == 0 then t else 0);
      nextFree := seq(t + 2, a => if a == t + 1 then 0 else t + 1);
      prevFree := seq(t + 2, a => if a == t + 1 then 0 else t + 1);
      available := t - ITEM;
      maxUsed := 2 * ITEM;
      layout := [Block(0, false)];
      free := [0];
      new;
      OneBlock(t);
      var s, f := Addresses(layout, tail), [header] + free;
      assert s == [0, tail] && f == [header, 0];
      assert LinkedAt(next, prev, s, 0) && LinkedAt(next, prev, s, 1);
      assert LinkedAt(nextFree, prevFree, f, 0) && LinkedAt(nextFree, prevFree, f, 1);
      assert FlagAt(0);
    }

    // ---------- the chain ----------

    /** What the fields say of block `i`. */
    lemma BlockOf(i: nat)
      requires Chained() && i < |layout|
      ensures var a := layout[i].addr;
        && a < tail && used[a] == layout[i].used && next[a] == Next(layout, i, tail) <= tail
        && used[next[a]] == (i + 1 == |layout| || layout[i + 1].used)
        && prev[a] == (if i == 0 then tail else layout[i - 1].addr) <= tail
        && used[prev[a]] == (i == 0 || layout[i - 1].used)
    {
      var s := Addresses(layout, tail);
      assert LinkedAt(next, prev, s, i);
      if i > 0 {
        assert LinkedAt(next, prev, s, i - 1) && FlagAt(i - 1) && s[i - 1] == layout[i - 1].addr;
      } else {
        assert LinkedAt(next, prev, s, |s| - 1);
      }
      assert FlagAt(i) && s[i] == layout[i].addr;
      if i + 1 < |layout| { assert FlagAt(i + 1) && s[i + 1] == layout[i + 1].addr; }
    }

    /** A header that comes into being at `a` takes the place of what was there. */
    method WriteHeader(a: nat)
      requires a + ITEM <= data.Length
      modifies data
      ensures SameOutside(old(data[..]), data[..], a, a + ITEM)
    {
      forall w | a <= w < a + ITEM {
        data[w] := 0;
      }
    }

    /** A new free block at `a`, behind block `i`, which it is split from. */
    method SplitBlock(h: nat, a: nat, ghost i: nat)
      requires Chained() && i < |layout| && layout[i].addr == h
      requires a % ALIGN == 0 && h + ITEM <= a && a + ITEM <= Next(layout, i, tail)
      requires data.Length == PoolSize()
      modifies `used, `next, `prev, `layout, data
      ensures Chained() && layout == SplitAt(old(layout), i, a)
      ensures SameOutside(old(data[..]), data[..], a, a + ITEM)
    {
      TilesBelow(layout, tail, i);
      WriteHeader(a);
      ghost var l := layout;
      BlockOf(i);
      SplitTiles(l, i, a, tail);
      SplitRing(l, i, a);
      used := used[a := false];
      prev := prev[a := h];
      next := next[a := next[h]];
      prev := prev[next[h] := a];
      next := next[h := a];
      layout := SplitAt(l, i, a);
      forall j | 0 <= j < |layout| ensures FlagAt(j) {
        if j != i + 1 { assert old(FlagAt(if j <= i then j else j - 1)); }
      }
    }

    /** What its pointers do to the chain. */
    lemma SplitRing(l: Layout, i: nat, a: nat)
      requires Tiles(l, tail) && i < |l| && l[i].addr < a < Next(l, i, tail) && a < |next| == |prev|
      requires Ring(next, prev, Addresses(l, tail))
      ensures a < tail && forall j :: 0 <= j < |l| ==> l[j].addr != a
      ensures l[i].addr < |next| && Next(l, i, tail) < |next|
      ensures Ring(next[a := Next(l, i, tail)][l[i].addr := a],
                   prev[a := l[i].addr][Next(l, i, tail) := a],
                   Addresses(SplitAt(l, i, a), tail))
    {
      var s := Addresses(l, tail);
      NotAnAddress(l, i, a);
      InsertKeepsRing(next, prev, s, i, a);
      assert Addresses(SplitAt(l, i, a), tail) == LinkAt(s, a, i + 1);
      assert forall j :: 0 <= j < |l| ==> s[j] == l[j].addr;
    }

    lemma NotAnAddress(l: Layout, i: nat, a: nat)
      requires Tiles(l, tail) && i < |l| && l[i].addr < a < Next(l, i, tail)
      ensures a !in Addresses(l, tail) && a < tail
    {
      TilesBelow(l, tail, i);
      forall j | 0 <= j < |l| ensures l[j].addr != a {
        if j < i { TilesApart(l, tail, j, i); }
        if i < j { TilesApart(l, tail, i, j); }
        assert BlockFits(l, j, tail);
      }
    }

    /** Block `i` is unlinked; the one before it gets its bytes. */
    method DropBlock(x: nat, ghost i: nat)
      requires Chained() && 0 < i < |layout| && layout[i].addr == x
      modifies `next, `prev, `layout
      ensures Chained() && layout == Dropped(old(layout), i)
    {
      ghost var s := Addresses(layout, tail);
      BlockOf(i);
      DropTiles(layout, i, tail);
      RemoveKeepsRing(next, prev, s, i);
      assert Addresses(Dropped(layout, i), tail) == s[..i] + s[i + 1..];
      var n, p := next[x], prev[x];
      next := next[p := n];
      prev := prev[n := p];
      layout := Dropped(layout, i);
      forall j | 0 <= j < |layout| ensures FlagAt(j) { assert old(FlagAt(if j < i then j else j + 1)); }
    }

    method SetUsed(h: nat, flag: bool, ghost i: nat)
      requires Chained() && i < |layout| && layout[i].addr == h
      modifies `used, `layout
      ensures Chained() && layout == Flagged(old(layout), i, flag)
    {
      FlaggedTiles(layout, i, flag, tail);
      ghost var r := Flagged(layout, i, flag);
      assert Addresses(r, tail) == Addresses(layout, tail);
      forall j | 0 <= j < |layout| && j != i ensures layout[j].addr != h { AddressesDiffer(layout, tail, i, j); }
      BlockOf(i);
      used := used[h := flag];
      layout := r;
      forall j | 0 <= j < |layout| ensures FlagAt(j) { assert old(FlagAt(j)); }
    }

    // ---------- the free list ----------

    /** Block `x` becomes the first of the free list. */
    method InsertFree(x: nat)
      requires Listed() && x < tail && x !in free
      modifies `nextFree, `prevFree, `free
      ensures Listed() && free == [x] + old(free)
    {
      InsertKeepsRing(nextFree, prevFree, [header] + free, 0, x);
      assert LinkedAt(nextFree, prevFree, [header] + free, 0);
      assert LinkAt([header] + free, x, 1) == [header] + ([x] + free);
      nextFree := nextFree[x := nextFree[header]];
      prevFree := prevFree[x := header];
      prevFree := prevFree[nextFree[header] := x];
      nextFree := nextFree[header := x];
      free := [x] + free;
    }

    /** A block leaves the free list. */
    method RemoveFree(x: nat)
      requires Listed() && x in free
      modifies `nextFree, `prevFree, `free
      ensures Listed() && free == Without(old(free), x) && forall a :: a in free <==> a in old(free) && a != x
    {
      assert forall j :: 0 <= j < |free| ==> free[j] == ([header] + free)[j + 1];
      ghost var k := WithoutSplits(free, x);
      WithoutKeepsDistinct(free, x);
      ghost var s := [header] + free;
      RemoveKeepsRing(nextFree, prevFree, s, k + 1);
      assert s[..k + 1] + s[k + 2..] == [header] + Without(free, x);
      var n, p := nextFree[x], prevFree[x];
      prevFree := prevFree[n := p];
      nextFree := nextFree[p := n];
      free := Without(free, x);
    }

    // ---------- rt_memheap_alloc ----------

    /** The data bytes of the block at `h`. */
    function SizeAt(h: nat): int
      reads `next
    {
      if h < |next| then next[h] as int - h - ITEM else 0
    }

    /** A block on the free list is a free block of the chain. */
    lemma FreeBlock(h: nat) returns (i: nat)
      requires Valid() && h in free
      ensures i == PlaceOf(layout, h) < |layout| && layout[i] == Block(h, false)
      ensures SizeAt(h) == ItemSize(layout, i, tail)
    {
      assert IsFree(layout, h);
      i :| 0 <= i < |layout| && layout[i] == Block(h, false);
      BlockOf(i);
      PlaceOfBlock(layout, tail, i);
    }

    /** The search gave `to` for a request of `need` bytes: it is the data of the first block on the free
        list of `p` that is large enough, which was taken; no other bytes than its own have changed. */
    ghost predicate Granted(p: Pool, m: Memory, need: nat, to: nat)
      reads `layout, `free, data
    {
      var f := Found(p, need, tail);
      && f < |p.layout| && to == p.layout[f].addr + ITEM && View() == Takes(p, f, need, tail)
      && SameOutside(m, data[..], p.layout[f].addr, Next(p.layout, f, tail))
    }

    /** `rt_memheap_alloc` */
    method Alloc(size: nat) returns (r: Option<nat>)
      requires Valid()
      modifies this, data
      ensures Valid()
      ensures r.None? <==> Found(old(View()), Request(size), tail) == |old(layout)|
      ensures r.None? <==> Request(size) >= old(available) || AllSmaller(old(layout), Request(size), tail)
      // the block is the first on the list that is large enough, and is cut to what it need be
      ensures r.Some? ==> FirstLargest(old(free), old(next), Request(size), r.value)
      ensures r.Some? && size < WORD_RANGE ==> Fitting(SizeAt(r.value - ITEM), size)
      ensures r.None? ==> View() == old(View()) && maxUsed == old(maxUsed) && data[..] == old(data[..])
      ensures r.Some? ==> Granted(old(View()), old(data[..]), Request(size), r.value)
      ensures r.Some? ==>
        maxUsed == if PoolSize() - available > old(maxUsed) then PoolSize() - available else old(maxUsed)
    {
      var need := Request(size);
      NothingFound(View(), need, tail);
      if need < available {
        ghost var p := View();
        var h, freeSize := Search(need);
        if freeSize >= need {
          ghost var i := FreeBlock(h);
          FirstIs(need, h);
          TakeBlock(h, need, freeSize, i);
          GivenSize(p.layout, i, size);
          return Some(h + ITEM);
        }
      }
      return None;
    }

    /** With the free list `free` and the chain `next`, the block for `ptr` is the first whose size is at least
        `need`. */
    ghost predicate FirstLargest(free: seq<nat>, next: seq<nat>, need: nat, ptr: nat) {
      exists k :: 0 <= k < |free| && free[k] + ITEM == ptr && (forall j :: 0 <= j <= k ==> free[j] < |next|)
        && next[free[k]] - free[k] - ITEM >= need && forall j :: 0 <= j < k ==> next[free[j]] - free[j] - ITEM < need
    }

    /** A block of `given` bytes is what a request of `size` bytes may be given: as many, unless aligning them wraps
        around, and not enough more for another block. */
    predicate Fitting(given: int, size: nat) {
      && (given >= size <==> size <= WORD_RANGE - ALIGN)
      && given < Request(size) + ITEM + MINIALLOC
      && Request(size) <= if size < MINIALLOC then MINIALLOC else size + ALIGN - 1
    }

    lemma FirstIs(need: nat, h: nat)
      requires Valid() && SizeAt(h) >= need
      requires FirstLarge(layout, free, need, tail) < |free| && h == free[FirstLarge(layout, free, need, tail)]
      ensures FirstLargest(free, next, need, h + ITEM)
    {
      var k := FirstLarge(layout, free, need, tail);
      forall j | 0 <= j <= k
        ensures free[j] < |next| && (j < k ==> next[free[j]] - free[j] - ITEM < need)
      {
        var i := FreeBlock(free[j]);
        BlockOf(i);
      }
    }

    /** The block that was taken has the size that is needed, or a little more. */
    lemma GivenSize(l: Layout, i: nat, size: nat)
      requires Chained() && i < |l| && !l[i].used && ItemSize(l, i, tail) >= Request(size)
      requires layout == Taken(l, i, Request(size), tail)
      ensures size < WORD_RANGE ==> Fitting(SizeAt(l[i].addr), size)
    {
      if size < WORD_RANGE {
        TakenIsLargeEnough(l, i, size, tail);
        RequestIsEnough(size);
        assert layout[i].addr == l[i].addr;
        BlockOf(i);
      }
    }

    /** The search along the free list. */
    method Search(need: nat) returns (h: nat, freeSize: int)
      requires Valid() && need > 0
      ensures var k := FirstLarge(layout, free, need, tail);
        if k < |free| then h == free[k] && freeSize == SizeAt(h) >= need else freeSize < need
    {
      freeSize := 0;
      h := nextFree[header];
      ghost var k := 0;
      assert LinkedAt(nextFree, prevFree, [header] + free, 0);
      while h != header && freeSize < need
        invariant 0 <= k <= |free| && h == (if k < |free| then free[k] else header)
        invariant forall j :: 0 <= j < k ==> !LargeEnough(layout, free[j], need, tail)
        invariant freeSize >= need ==> k < |free| && freeSize == SizeAt(h)
        decreases |free| - k, need - freeSize
      {
        ghost var _ := FreeBlock(free[k]);
        freeSize := SizeAt(h);
        if freeSize < need {
          assert LinkedAt(nextFree, prevFree, [header] + free, k + 1);
          h := nextFree[h];
          k := k + 1;
        }
      }
      if k < |free| {
        ghost var _ := FreeBlock(free[k]);
      }
      FirstLargeIs(layout, free, need, tail, k);
    }

    /** The block that was found is split if it is much too large, and marked used. */
    method TakeBlock(h: nat, need: nat, freeSize: int, ghost i: nat)
      requires Valid() && i < |layout| && layout[i] == Block(h, false) && freeSize == ItemSize(layout, i, tail)
      requires need % ALIGN == 0 && MINIALLOC <= need <= freeSize
      modifies this, data
      ensures Valid() && View() == Takes(old(View()), i, need, tail)
      ensures SameOutside(old(data[..]), data[..], h, Next(old(layout), i, tail))
      ensures maxUsed == if PoolSize() - available > old(maxUsed) then PoolSize() - available else old(maxUsed)
    {
      if freeSize >= need + ITEM + MINIALLOC {
        TakePart(h, need, i);
      } else {
        TakeWhole(h, need, freeSize, i);
      }
    }

    /** `available_size` is decreased, and `max_used_size` follows. */
    method UseBytes(count: int)
      modifies `available, `maxUsed
      ensures available == old(available) - count
      ensures maxUsed == if PoolSize() - available > old(maxUsed) then PoolSize() - available else old(maxUsed)
      ensures maxUsed >= PoolSize() - available
    {
      available := available - count;
      if PoolSize() - available > maxUsed {
        maxUsed := PoolSize() - available;
      }
    }

    /** The rest of the block becomes a free block, and the first of the free list. */
    method TakePart(h: nat, need: nat, ghost i: nat)
      requires Valid() && i < |layout| && layout[i] == Block(h, false)
      requires need % ALIGN == 0 && MINIALLOC <= need && Splits(layout, i, need, tail)
      modifies this, data
      ensures Valid() && View() == Takes(old(View()), i, need, tail)
      ensures SameOutside(old(data[..]), data[..], h, Next(old(layout), i, tail))
      ensures maxUsed == if PoolSize() - available > old(maxUsed) then PoolSize() - available else old(maxUsed)
    {
      ghost var l := layout;
      var a := h + ITEM + need;
      assert BlockFits(l, i, tail);
      SplitOff(h, a, i);
      SetUsed(h, true, i);
      UseBytes(need + ITEM);
      TakenIs(l, i, need, layout);
    }

    /** What taking a block leaves is in order. */
    lemma TakenIs(l: Layout, i: nat, need: nat, after: Layout)
      requires Wide(l, tail) && i < |l| && !l[i].used && need % ALIGN == 0 && MINIALLOC <= need <= ItemSize(l, i, tail)
      requires after == Taken(l, i, need, tail)
      ensures Wide(after, tail)
      ensures FreeBytes(after, tail) ==
        FreeBytes(l, tail) - (if Splits(l, i, need, tail) then need + ITEM else ItemSize(l, i, tail))
    {
      TakenKeeps(l, i, need, tail);
    }

    method TakeWhole(h: nat, need: nat, freeSize: int, ghost i: nat)
      requires Valid() && i < |layout| && layout[i] == Block(h, false) && freeSize == ItemSize(layout, i, tail)
      requires need % ALIGN == 0 && MINIALLOC <= need <= freeSize && !Splits(layout, i, need, tail)
      modifies this
      ensures Valid() && View() == Takes(old(View()), i, need, tail)
      ensures maxUsed == if PoolSize() - available > old(maxUsed) then PoolSize() - available else old(maxUsed)
    {
      ghost var l, f := layout, free;
      TakenKeeps(l, i, need, tail);
      FreeIndex(l, tail, i);
      RemoveFree(h);
      SetUsed(h, true, i);
      WholeFreeSet(l, tail, i, f, free);
      assert [] + free == free;
      UseBytes(freeSize);
    }

    /** The rest of the block, from `a` on, becomes free in its place. */
    method SplitOff(h: nat, a: nat, ghost i: nat)
      requires Valid() && i < |layout| && layout[i] == Block(h, false)
      requires a % ALIGN == 0 && h + ITEM <= a && a + ITEM <= Next(layout, i, tail)
      modifies `used, `next, `prev, `layout, `nextFree, `prevFree, `free, data
      ensures Chained() && Listed() && layout == SplitAt(old(layout), i, a) && free == [a] + Without(old(free), h)
      ensures FreeSet(free, Flagged(layout, i, true))
      ensures SameOutside(old(data[..]), data[..], h, Next(old(layout), i, tail))
    {
      ghost var l, f := layout, free;
      FreeIndex(layout, tail, i);
      NotFree(i, a);
      SplitBlock(h, a, i);
      RemoveFree(h);
      InsertFree(a);
      PartFreeSet(l, tail, i, a, f, free);
    }

    /** No block begins within block `i`. */
    lemma NotFree(i: nat, a: nat)
      requires Chained() && FreeSet(free, layout) && i < |layout| && layout[i].addr < a < Next(layout, i, tail)
      ensures a !in free && a < tail
    {
      NotAnAddress(layout, i, a);
      assert !IsFree(layout, a) by {
        assert forall j :: 0 <= j < |layout| ==> layout[j].addr == Addresses(layout, tail)[j];
      }
    }

    /** A request that a free block could satisfy is refused exactly when that block is the only free
        one and just as large: the test of the source excludes the sum of all free bytes itself. */
    lemma RefusedThoughItFits(need: nat, h: nat)
      requires Valid() && h in free && SizeAt(h) >= need
      ensures need >= available <==> free == [h] && SizeAt(h) == need
    {
      var i := FreeBlock(h);
      FreeIsDistinct();
      FreeListLength(layout, tail, free);
      if tail >= ITEM + MINIALLOC {
        OthersAreFreeToo(layout, i, tail);
      } else {
        OneBlock(tail);
      }
      if |free| == 1 { assert free == [h]; }
    }

    // ---------- rt_memheap_free ----------

    /** `ptr` was handed out for block `i`, which is still in use. */
    ghost predicate Holds(ptr: nat, i: nat)
      reads this
    {
      i < |layout| && layout[i].used && ptr == layout[i].addr + ITEM
    }

    /** `rt_memheap_free` of the pointer handed out for block `i` */
    method Free(ptr: Option<nat>, ghost i: nat)
      requires Valid() && (ptr.Some? ==> Holds(ptr.value, i))
      modifies this
      ensures Valid() && maxUsed == old(maxUsed)
      ensures ptr.None? ==> View() == old(View())
      ensures ptr.Some? ==> View() == Releases(old(View()), i)
    {
      if ptr.None? {
        return;
      }
      FreedKeepsAll(layout, i, tail);
      UsedIsRoomy(layout, i, tail);
      assert RoomyAt(layout, i, tail);
      Release(ptr.value - ITEM, i);
    }

    /** What a caller can see of allocating and releasing at once: nothing, but in the maximum used. Inside,
        the block that was found has become the first of the free list. */
    method AllocThenFree(size: nat) returns (r: Option<nat>)
      requires Valid()
      modifies this, data
      ensures Valid() && layout == old(layout) && available == old(available)
      ensures r.Some? <==> Found(old(View()), Request(size), tail) < |old(layout)|
      ensures
        if r.Some? then r.value >= ITEM && free == [r.value - ITEM] + Without(old(free), r.value - ITEM)
        else free == old(free)
    {
      ghost var p := View();
      r := Alloc(size);
      if r.Some? {
        ghost var f := Found(p, Request(size), tail);
        FoundIsFree(p, Request(size), tail);
        FreeTaken(r.value, f, Request(size), p);
        ReleaseUndoesTaking(p, f, Request(size), tail);
        assert layout == p.layout;
      }
    }

    /** Block `f` of `p`, which was just taken, is released. */
    method FreeTaken(ptr: nat, ghost f: nat, ghost need: nat, ghost p: Pool)
      requires Valid() && NoFreeNeighbours(p.layout) && f < |p.layout| && !p.layout[f].used
      requires ptr == p.layout[f].addr + ITEM && View() == Takes(p, f, need, tail)
      modifies this
      ensures Valid() && f < |Takes(p, f, need, tail).layout| && View() == Releases(Takes(p, f, need, tail), f)
    {
      TakenNeighbours(p.layout, f, need, tail);
      Free(Some(ptr), f);
    }

    /** Once no block is used the pool is one free block again, and the free list holds it alone. */
    lemma EmptyPoolIsWhole()
      requires Valid() && forall i :: 0 <= i < |layout| ==> !layout[i].used
      ensures layout == [Block(0, false)] && free == [0] && available == tail - ITEM
    {
      EmptyHeapIsWhole(layout, tail);
      assert FreeBytes([Block(0, false)][1..], tail) == 0 && FreeCount([Block(0, false)][1..]) == 0;
      FreeIsDistinct();
      FreeListLength(layout, tail, free);
      assert IsFree(layout, 0);
    }

    lemma FreeIsDistinct()
      requires Listed()
      ensures Distinct(free)
    {
      var ring := [header] + free;
      assert Distinct(ring);
      forall i, j | 0 <= i < j < |free| ensures free[i] != free[j] {
        assert ring[i + 1] != ring[j + 1];
      }
    }

    /** The block is marked free and merged with its free neighbours. */
    method Release(h: nat, ghost i: nat)
      requires Valid() && Holds(h + ITEM, i)
      modifies `used, `next, `prev, `layout, `nextFree, `prevFree, `free, `available
      ensures Chained() && Listed() && FreeSet(free, layout) && View() == Releases(old(View()), i)
      ensures available ==
        old(available) + ItemSize(old(layout), i, tail) + ITEM * (Left(old(layout), i) + Right(old(layout), i))
    {
      ghost var l, f := layout, free;
      FreeIndex(l, tail, i);
      if i + 1 < |l| { FreeIndex(l, tail, i + 1); }
      BlockOf(i);
      FlaggedNeighbours(l, i, false);
      SetUsed(h, false, i);
      available := available + SizeAt(h);
      ghost var p := View();
      FreeIsDistinct();
      MergeBoth(h, i);
      ReleasedMembers(p, i, h, free);
      FreedFreeSet(l, tail, i, f, free);
    }

    /** The free block is merged with its free neighbours, or else put on the free list. */
    method MergeBoth(h: nat, ghost i: nat)
      requires Chained() && Listed() && i < |layout| && layout[i] == Block(h, false) && h !in free
      requires Right(layout, i) == 1 ==> layout[i + 1].addr in free
      modifies `next, `prev, `layout, `nextFree, `prevFree, `free, `available
      ensures Chained() && Listed() && layout == Merged(old(layout), i)
      ensures available == old(available) + ITEM * (Left(old(layout), i) + Right(old(layout), i))
      ensures free ==
        if Left(old(layout), i) == 0 then [h] + WithoutNext(old(View()), i) else WithoutNext(old(View()), i)
    {
      MergedBySteps(layout, i);
      var block, insertHeader := MergeNeighbours(h, i);
      if insertHeader {
        InsertFree(block);
      }
    }

    /** Both merges. */
    method MergeNeighbours(h: nat, ghost i: nat) returns (block: nat, insertHeader: bool)
      requires Chained() && Listed() && i < |layout| && layout[i] == Block(h, false) && h !in free
      requires Right(layout, i) == 1 ==> layout[i + 1].addr in free
      modifies `next, `prev, `layout, `nextFree, `prevFree, `free, `available
      ensures Chained() && Listed()
      ensures i - Left(old(layout), i) < |MergedLeft(old(layout), i)|
      ensures Right(old(layout), i) == 1 ==> i - Left(old(layout), i) + 1 < |MergedLeft(old(layout), i)|
      ensures layout ==
        if Right(old(layout), i) == 1 then Dropped(MergedLeft(old(layout), i), i - Left(old(layout), i) + 1)
        else MergedLeft(old(layout), i)
      ensures available == old(available) + ITEM * (Left(old(layout), i) + Right(old(layout), i))
      ensures free == WithoutNext(old(View()), i) && h !in free && h < tail
      ensures Left(old(layout), i) == (if insertHeader then 0 else 1) && (insertHeader ==> block == h)
    {
      AfterLeft(layout, i);
      BlockOf(i);
      ghost var left := Left(layout, i);
      block, insertHeader := MergeLeft(h, i);
      MergeRight(block, i - left);
    }

    /** The block is merged into a free block before it, and need not be put on the free list then. */
    method MergeLeft(h: nat, ghost i: nat) returns (block: nat, insertHeader: bool)
      requires Chained() && i < |layout| && layout[i].addr == h
      modifies `next, `prev, `layout, `available
      ensures Chained() && Left(old(layout), i) == (if insertHeader then 0 else 1)
      ensures layout == (if insertHeader then old(layout) else Dropped(old(layout), i))
      ensures i - Left(old(layout), i) < |layout| && block == layout[i - Left(old(layout), i)].addr
      ensures insertHeader ==> block == h
      ensures available == old(available) + ITEM * Left(old(layout), i)
    {
      BlockOf(i);
      block, insertHeader := h, true;
      if !used[prev[h]] {
        available := available + ITEM;
        block, insertHeader := prev[h], false;
        DropBlock(h, i);
      }
    }

    /** A free block behind the block is merged into it, and leaves the free list. */
    method MergeRight(block: nat, ghost k: nat)
      requires Chained() && Listed() && k < |layout| && layout[k].addr == block
      requires Right(layout, k) == 1 ==> layout[k + 1].addr in free
      modifies `next, `prev, `layout, `nextFree, `prevFree, `free, `available
      ensures Chained() && Listed()
      ensures layout == if Right(old(layout), k) == 1 then Dropped(old(layout), k + 1) else old(layout)
      ensures free == WithoutNext(old(View()), k)
      ensures forall a :: a in free <==> a in old(free) && !(Right(old(layout), k) == 1 && a == old(layout)[k + 1].addr)
      ensures available == old(available) + ITEM * Right(old(layout), k)
    {
      BlockOf(k);
      if !used[next[block]] {
        available := available + ITEM;
        var after := next[block];
        DropBlock(after, k + 1);
        RemoveFree(after);
      }
    }

    // ---------- rt_memheap_realloc ----------

    /** The data behind `ptr`, of block `i` of `p`, were moved to `to`: into the block that the search found,
        of which no other bytes were touched. */
    ghost predicate Moved(p: Pool, m: Memory, i: nat, ptr: nat, need: nat, to: nat)
      requires i < |p.layout|
      reads `layout, `free, data
    {
      var f := Found(p, need, tail);
      && f < |p.layout| && to == p.layout[f].addr + ITEM && View() == Moves(p, f, need, tail, i)
      && SameOutside(m, data[..], p.layout[f].addr, Next(p.layout, f, tail))
      && ItemSize(p.layout, i, tail) >= 0 && Copied(m, data[..], ptr, to, ItemSize(p.layout, i, tail))
    }

    /** Block `i` of `p` was too small for `need` bytes: it has grown in place, exactly if the next block is
        free and large enough, or was moved; or there is no other block that is large enough, and nothing
        has changed. */
    ghost predicate Enlarged(p: Pool, m: Memory, i: nat, ptr: nat, need: nat, r: Option<nat>)
      requires i < |p.layout|
      reads `layout, `free, data
    {
      if CanGrow(p.layout, i, need, tail) then
        && r == Some(ptr) && View() == Grows(p, i, need)
        && SameOutside(m, data[..], p.layout[i + 1].addr, Next(p.layout, i + 1, tail))
      else if r.Some? then Moved(p, m, i, ptr, need, r.value)
      else Found(p, need, tail) == |p.layout| && View() == p && data[..] == m
    }

    /** Block `i` of `p` was large enough: what is left over was cut off, exactly if it is enough for a block. */
    ghost predicate Reduced(p: Pool, m: Memory, i: nat, ptr: nat, need: nat, r: Option<nat>)
      requires i < |p.layout|
      reads `layout, `free, data
    {
      && r == Some(ptr) && SameOutside(m, data[..], ptr + need, Next(p.layout, i, tail))
      && if need + ITEM + MINIALLOC < ItemSize(p.layout, i, tail) then View() == Cuts(p, i, need)
         else View() == p && data[..] == m
    }

    /** The sum in the test for growth in place wrapped around: success is returned, and what is now the first
        free block lies within the header of block `i` of `p`, which is still in use. */
    ghost predicate Misgrown(p: Pool, i: nat, ptr: nat, need: nat, r: Option<nat>)
      requires i < |p.layout|
      reads this
    {
      var h := p.layout[i].addr;
      && r == Some(ptr) && |nextFree| == header + 1 && nextFree[header] == RestAt(h, need)
      && h < nextFree[header] < h + ITEM && Block(h, true) in layout
    }

    /** The call is for a block with a free one behind it, and of a size for which the sum in the test wraps. */
    ghost predicate Misgrows(p: Pool, ptr: Option<nat>, i: nat, newsize: nat) {
      ptr.Some? && newsize > 0 && i < |p.layout| && Right(p.layout, i) == 1 && SumWraps(newsize)
    }

    /** A pool with a free block there is none that the invariant describes. */
    lemma MisgrownIsInvalid(p: Pool, i: nat, ptr: nat, need: nat, r: Option<nat>)
      requires i < |p.layout| && Misgrown(p, i, ptr, need, r)
      ensures !Valid()
    {
      if Valid() {
        var h, s := p.layout[i].addr, [header] + free;
        assert LinkedAt(nextFree, prevFree, s, 0);
        var k :| 0 <= k < |layout| && layout[k] == Block(h, true);
        UsedIsRoomy(layout, k, tail);
        TilesBelow(layout, tail, k);
        assert RoomyAt(layout, k, tail);
        assert s[1] == free[0] && free[0] in free;
        NoBlockInside(View(), h, s[1], tail);
      }
    }

    /** `rt_memheap_realloc` of the pointer handed out for block `i` */
    method Realloc(ptr: Option<nat>, newsize: nat, ghost i: nat) returns (r: Option<nat>)
      requires Valid() && (ptr.Some? ==> Holds(ptr.value, i))
      modifies this, data
      ensures Valid() <==> !Misgrows(old(View()), ptr, i, newsize)
      ensures newsize == 0 ==> r.None? && data[..] == old(data[..])
      ensures newsize == 0 ==> View() == if ptr.Some? then Releases(old(View()), i) else old(View())
      ensures r.None? && newsize > 0 ==> View() == old(View()) && data[..] == old(data[..])
      ensures newsize > 0 && ptr.None? ==>
        if r.Some? then Granted(old(View()), old(data[..]), Request(newsize), r.value)
        else Found(old(View()), Request(newsize), tail) == |old(layout)|
      // a block that is too small stays where it is exactly if the next one is free and passes the test of the sums
      ensures newsize > 0 && ptr.Some? && Request(newsize) > ItemSize(old(layout), i, tail) ==>
        (r == ptr <==>
          && i + 1 < |old(layout)| && !old(layout)[i + 1].used
          && (ItemSize(old(layout), i + 1, tail) + ItemSize(old(layout), i, tail)) % WORD_RANGE >
            (Request(newsize) + MINIALLOC) % WORD_RANGE)
      ensures newsize > 0 && ptr.Some? && Request(newsize) <= ItemSize(old(layout), i, tail) ==> r == ptr
      ensures newsize > 0 && ptr.Some? ==>
        if Misgrows(old(View()), ptr, i, newsize) then Misgrown(old(View()), i, ptr.value, Request(newsize), r)
        else if Request(newsize) > ItemSize(old(layout), i, tail)
        then Enlarged(old(View()), old(data[..]), i, ptr.value, Request(newsize), r)
        else Reduced(old(View()), old(data[..]), i, ptr.value, Request(newsize), r)
    {
      if newsize == 0 {
        Free(ptr, i);
        return None;
      }
      var need := Request(newsize);
      RequestTwice(newsize);
      if ptr.None? {
        r := Alloc(need);
        return;
      }
      var h := ptr.value - ITEM;
      BlockOf(i);
      var oldsize := SizeAt(h);
      if need > oldsize {
        r := Enlarge(ptr.value, newsize, need, i);
        return;
      }
      TooLarge(layout, i, newsize);
      if need + ITEM + MINIALLOC < oldsize {
        CutOff(h, need, i);
      }
      return ptr;
    }

    /** Sizes for which the sum wraps are larger than any block. */
    lemma TooLarge(l: Layout, i: nat, size: nat)
      requires Tiles(l, tail) && PoolSize() < WORD_RANGE && i < |l|
      ensures SumWraps(size) ==> Request(size) > ItemSize(l, i, tail)
    {
      TilesBelow(l, tail, i);
    }

    /** The branch for a block that is too small. */
    method Enlarge(ptr: nat, newsize: nat, need: nat, ghost i: nat) returns (r: Option<nat>)
      requires Valid() && Holds(ptr, i) && need == Request(newsize) == Request(need) > ItemSize(layout, i, tail)
      requires newsize > 0
      modifies this, data
      ensures Valid() <==> !Misgrows(old(View()), Some(ptr), i, newsize)
      ensures
        if Misgrows(old(View()), Some(ptr), i, newsize) then Misgrown(old(View()), i, ptr, need, r)
        else Enlarged(old(View()), old(data[..]), i, ptr, need, r)
      ensures r == Some(ptr) <==> GrowthTest(old(layout), i, need, tail)
      ensures r.None? ==> View() == old(View()) && data[..] == old(data[..])
    {
      var h := ptr - ITEM;
      BlockOf(i);
      var after := next[h];
      var grow := TestGrowth(h, after, newsize, need, i);
      if grow {
        if need + MINIALLOC < WORD_RANGE {
          Grow(h, after, need, i);
        } else {
          GrowInside(h, after, newsize, need, i);
        }
        return Some(ptr);
      }
      r := Move(ptr, need, i);
    }

    /** Whether the next block is free, and passes the test of its size. */
    method TestGrowth(h: nat, after: nat, newsize: nat, need: nat, ghost i: nat) returns (grow: bool)
      requires Valid() && Holds(h + ITEM, i) && need == Request(newsize) && h < |next| && after == next[h]
      ensures grow <==> CanGrow(layout, i, need, tail) || (Right(layout, i) == 1 && SumWraps(newsize))
      ensures grow && !SumWraps(newsize) ==> CanGrow(layout, i, need, tail)
      ensures CanGrow(layout, i, need, tail) ==> !SumWraps(newsize)
      ensures grow <==> GrowthTest(layout, i, need, tail)
      ensures Right(layout, i) == 1 ==> after == layout[i + 1].addr
    {
      BlockOf(i);
      grow := false;
      if !used[after] {
        BlockOf(i + 1);
        GrowthTestIff(layout, i, newsize, tail);
        grow := (SizeAt(after) + SizeAt(h)) % WORD_RANGE > (need + MINIALLOC) % WORD_RANGE;
      }
    }

    /** Growth in place: the free block behind is replaced by a smaller one further on. */
    method Grow(h: nat, after: nat, need: nat, ghost i: nat)
      requires Valid() && Holds(h + ITEM, i) && CanGrow(layout, i, need, tail) && after == layout[i + 1].addr
      requires need % ALIGN == 0 && need > ItemSize(layout, i, tail)
      modifies this, data
      ensures Valid() && View() == Grows(old(View()), i, need)
      ensures SameOutside(old(data[..]), data[..], after, Next(old(layout), i + 1, tail))
    {
      GrownKeeps(layout, i, need, tail);
      BlockOf(i);
      UseBytes(need - SizeAt(h));
      ghost var l, f := layout, free;
      Relink(h, after, need, i);
      GrownFreeSet(l, tail, i, need, f, free);
    }

    method Relink(h: nat, after: nat, need: nat, ghost i: nat)
      requires Chained() && Listed() && Wide(layout, tail) && FreeSet(free, layout) && Holds(h + ITEM, i)
      requires data.Length == PoolSize()
      requires CanGrow(layout, i, need, tail) && after == layout[i + 1].addr && need % ALIGN == 0
      requires need > ItemSize(layout, i, tail)
      modifies `used, `next, `prev, `layout, `nextFree, `prevFree, `free, data
      ensures Chained() && Listed() && View() == Grows(old(View()), i, need)
      ensures forall a :: a in free <==> (a in old(free) && a != after) || a == h + ITEM + need
      ensures SameOutside(old(data[..]), data[..], after, Next(old(layout), i + 1, tail))
    {
      var a := h + ITEM + need;
      FreeIndex(layout, tail, i + 1);
      BlockOf(i + 1);
      assert BlockFits(layout, i, tail);
      NotFree(i + 1, a);
      RemoveFree(after);
      DropBlock(after, i + 1);
      SplitBlock(h, a, i);
      InsertFree(a);
    }

    /** The assignments of the same branch where the address of the rest wraps around as well. */
    method GrowInside(h: nat, after: nat, newsize: nat, need: nat, ghost i: nat)
      requires Valid() && Holds(h + ITEM, i) && Right(layout, i) == 1 && after == layout[i + 1].addr
      requires need == Request(newsize) > ItemSize(layout, i, tail) && SumWraps(newsize)
      modifies this, data
      ensures Misgrown(old(View()), i, h + ITEM, need, Some(h + ITEM)) && !Valid()
    {
      ghost var p := View();
      var a := RestAt(h, need);
      RestIsInside(layout, i, newsize, tail);
      FreeIndex(layout, tail, i + 1);
      BlockOf(i);
      BlockOf(i + 1);
      UsedIsRoomy(layout, i, tail);
      assert RoomyAt(layout, i, tail);
      NotFree(i, a);
      available := (available - (need - SizeAt(h))) % WORD_RANGE;
      RemoveFree(after);
      DropBlock(after, i + 1);
      assert layout[i] == p.layout[i];
      BlockOf(i);
      used := used[a := false];
      prev := prev[a := h];
      next := next[a := next[h]];
      prev := prev[next[h] := a];
      next := next[h := a];
      InsertFree(a);
      assert LinkedAt(nextFree, prevFree, [header] + free, 0);
      MisgrownIsInvalid(p, i, h + ITEM, need, Some(h + ITEM));
    }

    /** What is left over is split off and merged with a free block behind it. */
    method CutOff(h: nat, need: nat, ghost i: nat)
      requires Valid() && Holds(h + ITEM, i) && need % ALIGN == 0 && MINIALLOC <= need
      requires need + ITEM + MINIALLOC < ItemSize(layout, i, tail)
      modifies this, data
      ensures Valid() && View() == Cuts(old(View()), i, need)
      ensures SameOutside(old(data[..]), data[..], h + ITEM + need, Next(old(layout), i, tail))
    {
      ghost var l := layout;
      CutBlock(h, need, i);
      CutIs(l, i, need, layout);
    }

    /** What that leaves is in order. */
    lemma CutIs(l: Layout, i: nat, need: nat, after: Layout)
      requires Wide(l, tail) && i < |l| && l[i].used && need % ALIGN == 0 && MINIALLOC <= need
      requires after == Cut(l, i, need)
      requires need + ITEM + MINIALLOC < ItemSize(l, i, tail)
      ensures Wide(after, tail)
      ensures FreeBytes(after, tail) ==
        FreeBytes(l, tail) + ItemSize(l, i, tail) - need - (if Right(l, i) == 1 then 0 else ITEM)
    {
      CutKeeps(l, i, need, tail);
    }

    method CutBlock(h: nat, need: nat, ghost i: nat)
      requires Chained() && Listed() && FreeSet(free, layout) && data.Length == PoolSize() && i < |layout|
      requires layout[i].addr == h
      requires need % ALIGN == 0 && need + ITEM <= ItemSize(layout, i, tail)
      modifies `used, `next, `prev, `layout, `nextFree, `prevFree, `free, `available, data
      ensures Chained() && Listed() && FreeSet(free, layout) && layout == Cut(old(layout), i, need)
      ensures free == [h + ITEM + need] + WithoutNext(old(View()), i)
      ensures available ==
        old(available) + ItemSize(old(layout), i, tail) - need - (if Right(old(layout), i) == 1 then 0 else ITEM)
      ensures SameOutside(old(data[..]), data[..], h + ITEM + need, Next(old(layout), i, tail))
    {
      ghost var l := layout;
      var a := h + ITEM + need;
      CutAndList(h, a, need, i);
      RestOfCut(l, i, need, layout);
      BlockOf(i + 1);
      available := available + SizeAt(a);
    }

    /** All but the correction of the sum of free bytes by the block that comes into being. */
    method CutAndList(h: nat, a: nat, need: nat, ghost i: nat)
      requires Chained() && Listed() && FreeSet(free, layout) && data.Length == PoolSize() && i < |layout|
      requires layout[i].addr == h && a == h + ITEM + need
      requires need % ALIGN == 0 && need + ITEM <= ItemSize(layout, i, tail)
      modifies `used, `next, `prev, `layout, `nextFree, `prevFree, `free, `available, data
      ensures Chained() && Listed() && FreeSet(free, layout) && layout == Cut(old(layout), i, need)
      ensures free == [a] + WithoutNext(old(View()), i)
      ensures available == old(available) - if Right(old(layout), i) == 1 then ItemSize(old(layout), i + 1, tail) else 0
      ensures SameOutside(old(data[..]), data[..], a, Next(old(layout), i, tail))
    {
      ghost var l, f := layout, free;
      assert BlockFits(layout, i, tail);
      CutLinks(h, a, need, i);
      CutFreeSet(l, tail, i, need, f, free, layout);
    }

    lemma RestOfCut(l: Layout, i: nat, need: nat, cut: Layout)
      requires i < |l| && cut == Cut(l, i, need)
      ensures i + 1 < |cut| && cut[i + 1] == Block(l[i].addr + ITEM + need, false)
      ensures ItemSize(cut, i + 1, tail) - (if Right(l, i) == 1 then ItemSize(l, i + 1, tail) else 0) ==
        ItemSize(l, i, tail) - need - (if Right(l, i) == 1 then 0 else ITEM)
    {
      CutBySteps(l, i, need, tail);
    }

    method CutLinks(h: nat, a: nat, need: nat, ghost i: nat)
      requires Chained() && Listed() && FreeSet(free, layout) && data.Length == PoolSize() && i < |layout|
      requires layout[i].addr == h
      requires a == h + ITEM + need && a % ALIGN == 0 && a + ITEM <= Next(layout, i, tail)
      modifies `used, `next, `prev, `layout, `nextFree, `prevFree, `free, `available, data
      ensures Chained() && Listed() && layout == Cut(old(layout), i, need) && free == [a] + WithoutNext(old(View()), i)
      ensures forall x :: x in free <==>
        (x in old(free) && !(Right(old(layout), i) == 1 && x == old(layout)[i + 1].addr)) || x == a
      ensures available == old(available) - if Right(old(layout), i) == 1 then ItemSize(old(layout), i + 1, tail) else 0
      ensures SameOutside(old(data[..]), data[..], a, a + ITEM)
    {
      NotFree(i, a);
      SplitAndMerge(h, a, need, i);
      InsertFree(a);
    }

    /** The rest is split off and merged, and not yet on the free list. */
    method SplitAndMerge(h: nat, a: nat, need: nat, ghost i: nat)
      requires Chained() && Listed() && FreeSet(free, layout) && data.Length == PoolSize() && i < |layout|
      requires layout[i].addr == h && a !in free
      requires a == h + ITEM + need && a % ALIGN == 0 && a + ITEM <= Next(layout, i, tail)
      modifies `used, `next, `prev, `layout, `nextFree, `prevFree, `free, `available, data
      ensures Chained() && Listed() && layout == Cut(old(layout), i, need) && free == WithoutNext(old(View()), i)
      ensures forall x :: x in free <==>
        x in old(free) && !(Right(old(layout), i) == 1 && x == old(layout)[i + 1].addr)
      ensures available == old(available) - if Right(old(layout), i) == 1 then ItemSize(old(layout), i + 1, tail) else 0
      ensures SameOutside(old(data[..]), data[..], a, a + ITEM)
    {
      if i + 1 < |layout| { FreeIndex(layout, tail, i + 1); }
      CutBySteps(layout, i, need, tail);
      SplitBlock(h, a, i);
      MergeAfterCut(a, i + 1);
    }

    method MergeAfterCut(a: nat, ghost k: nat)
      requires Chained() && Listed() && k < |layout| && layout[k].addr == a
      requires Right(layout, k) == 1 ==> layout[k + 1].addr in free
      modifies `next, `prev, `layout, `nextFree, `prevFree, `free, `available
      ensures Chained() && Listed()
      ensures layout == if Right(old(layout), k) == 1 then Dropped(old(layout), k + 1) else old(layout)
      ensures free == WithoutNext(old(View()), k)
      ensures forall x :: x in free <==> x in old(free) && !(Right(old(layout), k) == 1 && x == old(layout)[k + 1].addr)
      ensures available == old(available) - if Right(old(layout), k) == 1 then ItemSize(old(layout), k + 1, tail) else 0
    {
      BlockOf(k);
      if !used[next[a]] {
        var after := next[a];
        BlockOf(k + 1);
        available := available - SizeAt(after);
        DropBlock(after, k + 1);
        RemoveFree(after);
      }
    }

    /** Allocation of a new block, to which the data are copied, and release of the old one. */
    method Move(ptr: nat, need: nat, ghost i: nat) returns (r: Option<nat>)
      requires Valid() && Holds(ptr, i) && need == Request(need) > ItemSize(layout, i, tail)
      modifies this, data
      ensures Valid()
      ensures r.None? <==> Found(old(View()), need, tail) == |old(layout)|
      ensures r.None? ==> View() == old(View()) && data[..] == old(data[..])
      ensures r.Some? ==> r.value != ptr && Moved(old(View()), old(data[..]), i, ptr, need, r.value)
    {
      ghost var p := View();
      FoundElsewhere(p, need, i);
      BlockOf(i);
      UsedIsRoomy(layout, i, tail);
      assert RoomyAt(layout, i, tail);
      var oldsize := SizeAt(ptr - ITEM);
      ghost var m := data[..];
      r := Alloc(need);
      if r.Some? {
        MoveInto(r.value, ptr, if oldsize < need then oldsize else need, need, i, p, m);
      }
    }

    lemma FoundElsewhere(p: Pool, need: nat, i: nat)
      requires Tiles(p.layout, tail) && FreeSet(p.free, p.layout) && i < |p.layout| && p.layout[i].used
      ensures Found(p, need, tail) < |p.layout| ==> p.layout[Found(p, need, tail)].addr != p.layout[i].addr
    {
      if Found(p, need, tail) < |p.layout| {
        FoundIsFree(p, need, tail);
        AddressesDiffer(p.layout, tail, Found(p, need, tail), i);
      }
    }

    /** The same, once there is a new block; `p` and `m` are from before it was taken. */
    method MoveInto(to: nat, ptr: nat, count: nat, need: nat, ghost i: nat, ghost p: Pool, ghost m: Memory)
      requires Valid() && Granted(p, m, need, to) && Tiles(p.layout, tail) && FreeSet(p.free, p.layout)
      requires i < |p.layout| && p.layout[i].used && ptr == p.layout[i].addr + ITEM
      requires count == ItemSize(p.layout, i, tail) < need
      modifies this, data
      ensures Valid() && Moved(p, m, i, ptr, need, to)
    {
      ghost var f := Found(p, need, tail);
      FoundIsFree(p, need, tail);
      TakenBlocks(p.layout, f, need, tail, i);
      TilesBelow(p.layout, tail, i);
      TilesBelow(p.layout, tail, f);
      BlocksApart(p.layout, tail, i, f);
      Copy(to, ptr, count);
      Free(Some(ptr), Shifted(p.layout, f, need, tail, i));
    }

    /** `rt_memcpy` */
    method Copy(to: nat, from: nat, count: nat)
      requires from + count <= data.Length && to + count <= data.Length && (from + count <= to || to + count <= from)
      modifies data
      ensures Copied(old(data[..]), data[..], from, to, count)
      ensures SameOutside(old(data[..]), data[..], to, to + count)
    {
      var k := 0;
      while k < count
        invariant k <= count
        invariant forall j :: 0 <= j < data.Length && !(to <= j < to + k) ==> data[j] == old(data[j])
        invariant forall j :: to <= j < to + k ==> data[j] == old(data[from + (j - to)])
      {
        data[to + k] := data[from + k];
        k := k + 1;
      }
    }
  }

  // ---------- what callers can run into ----------

  /** A new pool refuses a request for all its free bytes, although its only block has as many. */
  method RefuseAll(size: nat) returns (heap: Heap, r: Option<nat>)
    requires 2 * ITEM + MINIALLOC + ALIGN <= AlignedDown(size) && size < WORD_RANGE
    ensures fresh(heap) && heap.Valid() && r == None
    ensures heap.layout == [Block(0, false)] && ItemSize(heap.layout, 0, heap.tail) == AlignedDown(size) - 2 * ITEM
  {
    heap := new Heap(size);
    RoundSizes(size);
    SearchOne(heap.available, heap.tail);
    r := heap.Alloc(heap.available);
  }

  /** It grants one for a word less, with all of the block. */
  method GrantAllButAWord(size: nat) returns (heap: Heap, r: Option<nat>)
    requires 2 * ITEM + MINIALLOC + ALIGN <= AlignedDown(size) && size < WORD_RANGE
    ensures fresh(heap) && heap.Valid() && r == Some(ITEM)
    ensures heap.layout == [Block(0, true)] && ItemSize(heap.layout, 0, heap.tail) == AlignedDown(size) - 2 * ITEM
  {
    heap := new Heap(size);
    RoundSizes(size);
    SearchOne(heap.available - ALIGN, heap.tail);
    TakeOne(heap.available - ALIGN, heap.tail);
    r := heap.Alloc(heap.available - ALIGN);
  }

  /** A request above 2^32 - 8 is granted, with a block of MINIALLOC bytes. */
  method HugeRequest(size: nat, request: nat) returns (heap: Heap, r: Option<nat>)
    requires 3 * ITEM + 2 * MINIALLOC <= AlignedDown(size) && size < WORD_RANGE
    requires WORD_RANGE - ALIGN < request < WORD_RANGE
    ensures fresh(heap) && heap.Valid() && r == Some(ITEM)
    ensures heap.layout == [Block(0, true), Block(ITEM + MINIALLOC, false)]
  {
    heap := new Heap(size);
    RequestIsEnough(request);
    SearchOne(MINIALLOC, heap.tail);
    r := heap.Alloc(request);
  }

  /** The smallest request of all, and then a reallocation to a size for which the sum wraps around: the block
      is returned as large enough, and the first free block lies within its header. */
  method GrowIntoHeader(size: nat, request: nat) returns (heap: Heap, r: Option<nat>)
    requires 3 * ITEM + 2 * MINIALLOC <= AlignedDown(size) && size < WORD_RANGE
    requires WORD_RANGE - MINIALLOC - ALIGN < request <= WORD_RANGE - ALIGN
    ensures fresh(heap) && r == Some(ITEM) && !heap.Valid()
    ensures |heap.nextFree| == heap.header + 1 && 0 < heap.nextFree[heap.header] < ITEM && Block(0, true) in heap.layout
  {
    heap := new Heap(size);
    SearchOne(MINIALLOC, heap.tail);
    r := heap.Alloc(1);
    SumWrapsIff(request);
    r := heap.Realloc(r, request, 0);
  }

  /** A reallocation above 2^32 - 8 is granted, and leaves MINIALLOC bytes of the block. */
  method HugeReallocation(size: nat, request: nat) returns (heap: Heap, r: Option<nat>)
    requires 4 * ITEM + 3 * MINIALLOC <= AlignedDown(size) && size < WORD_RANGE
    requires WORD_RANGE - ALIGN < request < WORD_RANGE
    ensures fresh(heap) && heap.Valid() && r == Some(ITEM)
    ensures heap.layout == [Block(0, true), Block(ITEM + MINIALLOC, false)]
  {
    heap := new Heap(size);
    var first := 2 * ITEM + MINIALLOC;
    assert Request(first) == first;
    SearchOne(first, heap.tail);
    r := heap.Alloc(first);
    assert heap.layout == [Block(0, true)] || heap.layout == [Block(0, true), Block(ITEM + first, false)];
    RequestIsEnough(request);
    SumWrapsIff(request);
    r := heap.Realloc(r, request, 0);
  }

  lemma RoundSizes(size: nat)
    requires 2 * ITEM + MINIALLOC + ALIGN <= AlignedDown(size) && size < WORD_RANGE
    ensures var all: nat := AlignedDown(size) - 2 * ITEM; Request(all) == all && Request(all - ALIGN) == all - ALIGN
  {
    var words: nat := size / ALIGN - 2 * ITEM / ALIGN;
    WordsAreKept(words);
    WordsAreKept(words - 1);
  }

  lemma WordsAreKept(words: nat)
    requires MINIALLOC <= words * ALIGN < WORD_RANGE - ALIGN
    ensures Request(words * ALIGN) == words * ALIGN
  {
    assert (words * ALIGN + ALIGN - 1) / ALIGN == words;
  }

  /** Its block, taken whole. */
  lemma TakeOne(need: nat, tail: nat)
    requires tail < need + 2 * ITEM + MINIALLOC
    ensures Takes(Pool([Block(0, false)], [0]), 0, need, tail) == Pool([Block(0, true)], [])
  {
  }

  /** What is found in a new pool. */
  lemma SearchOne(need: nat, tail: nat)
    requires tail >= ITEM
    ensures Found(Pool([Block(0, false)], [0]), need, tail) == if need < tail - ITEM then 0 else 1
  {
    var l := [Block(0, false)];
    assert FreeBytes(l[1..], tail) == 0;
    assert PlaceOf(l, 0) == 0;
  }
}
