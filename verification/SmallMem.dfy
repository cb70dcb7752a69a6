/**
  The small memory heap, the system heap of this configuration (rt-thread/src/mem.c): first-fit
  allocation from the lowest free block, release with merging of neighbours, and reallocation,
  all by rewriting headers inside the memory that is handed out.
 */
module SmallMem {
  import opened Wrappers
  import opened SmallMemLayout
  import opened Memories
  import opened SmallMemHeader

  class Heap {
    const heap: array<nat>   // heap_ptr
    const pool: nat          // address of the control block
    const end: nat           // offset of heap_end
    var lfree: nat           // offset of lfree
    var used: int            // parent.used
    var max: int             // parent.max
    ghost var layout: Layout

    /** The headers in memory describe `layout`. */
    ghost predicate Linked()
      reads this, heap
    {
      && pool % 2 == 0
      && Tiles(layout, end)
      && Represents(heap[..], layout, end, pool)
    }

    /** The sentinel points to the last block. */
    ghost predicate SentinelRight()
      requires Linked()
      reads this, heap
    {
      SentinelPrev(heap[..], layout, end)
    }

    ghost predicate Valid()
      reads this, heap
    {
      && Linked()
      && NoFreeNeighbours(layout)
      && lfree == LowestFree(layout, end)
      && used == UsedBytes(layout, end) && used <= max
    }

    /** `rt_smem_init` on a region with room for `size` data bytes. */
    constructor (pool: nat, size: nat)
      requires pool % 2 == 0 && size % ALIGN == 0
      ensures Valid() && fresh(heap)
      ensures end == size + HEADER && this.pool == pool
      ensures layout == [Block(0, false)] && used == 0 && heap[end + PREV] == end && !SentinelRight()
    {
      this.pool := pool;
      end := size + HEADER;
      heap := new nat[size + HEADER + HEADER](_ => 0);
      lfree := 0;
      used := 0;
      max := 0;
      layout := [Block(0, false)];
      new;
      Format();
    }

    /** The start and the end of a new heap. */
    method Format()
      requires heap.Length == end + HEADER && end % ALIGN == 0 && end >= HEADER && pool % 2 == 0
      requires layout == [Block(0, false)] && lfree == 0 && used == 0 <= max
      modifies heap
      ensures Valid() && heap[end + PREV] == end && !SentinelRight()
    {
      heap[POOL] := Mark(pool, false);
      heap[NEXT] := end;
      heap[PREV] := 0;
      heap[end + POOL] := Mark(pool, true);
      heap[end + NEXT] := end;
      heap[end + PREV] := end;
      FreshHeap(heap[..], end, pool);
    }

    // ---------- headers ----------

    /** `MEM_ISUSED` */
    predicate IsUsed(a: nat)
      requires a < heap.Length
      reads heap
    {
      heap[a + POOL] % 2 == 1
    }

    /** What the header of block `i` says. */
    lemma HeaderOf(i: nat)
      requires Linked() && i < |layout|
      ensures var a := layout[i].addr;
        && a + HEADER <= Next(layout, i, end) <= end && heap.Length == end + HEADER
        && IsUsed(a) == layout[i].used && heap[a + NEXT] == Next(layout, i, end) && heap[a + PREV] == Prev(layout, i)
      ensures i + 1 < |layout| ==> IsUsed(Next(layout, i, end)) == layout[i + 1].used
      ensures IsUsed(end) && heap[end + NEXT] == end
    {
      assert HeaderIs(heap[..], layout, i, end, pool) && BlockFits(layout, i, end);
      TilesBelow(layout, end, i);
      if i + 1 < |layout| { assert HeaderIs(heap[..], layout, i + 1, end, pool); }
    }

    /** The assignment of MEM_USED or MEM_FREED to the pool pointer of block `i`. */
    method SetUsed(ptr: nat, isUsed: bool, ghost i: nat)
      requires Linked() && i < |layout| && layout[i].addr == ptr
      modifies heap, `layout
      ensures Linked()
      ensures layout == Replaced(old(layout), i, [Block(ptr, isUsed)])
      ensures ptr < |old(heap[..])| && heap[..] == old(heap[..])[ptr := Mark(pool, isUsed)]
      ensures heap[end + PREV] == old(heap[end + PREV]) && SentinelRight() == old(SentinelRight())
    {
      ghost var m := heap[..];
      HeaderOf(i);
      MarkRepresents(m, layout, i, isUsed, end, pool);
      ReplacedTiles(layout, i, [Block(ptr, isUsed)], end);
      heap[ptr + POOL] := Mark(pool, isUsed);
      layout := Replaced(layout, i, [Block(ptr, isUsed)]);
      assert heap[..] == m[ptr := Mark(pool, isUsed)];
    }

    // ---------- plug_holes ----------

    /** The writes that merge the free block `q`, number `i`, into the free block `p` before it. */
    method Absorb(p: nat, q: nat, ghost i: nat)
      requires Linked() && 0 < i < |layout|
      requires layout[i - 1] == Block(p, false) && layout[i] == Block(q, false)
      modifies heap, `layout
      ensures Linked()
      ensures layout == old(layout)[..i] + old(layout)[i + 1..]
      ensures DataKept(old(heap[..]), heap[..], old(layout), end)
      ensures forall w :: Live(layout, end, w) <==> Live(old(layout), end, w)
      ensures SentinelRight() <==> i + 1 == |old(layout)| || old(SentinelRight())
    {
      ghost var l, m := layout, heap[..];
      HeaderOf(i);
      MergeSentinel(m, l, i, end, pool);
      MergeRepresents(m, l, i, end, pool);
      MergeKeepsData(m, l, i, end, pool);
      DropFree(l, i, end);
      forall w ensures Live(l, end, w) <==> Live(l[..i] + l[i + 1..], end, w) { DropKeepsLive(l, i, end, w); }
      var next := heap[q + NEXT];
      heap[q + POOL] := 0;
      heap[p + NEXT] := next;
      heap[next + PREV] := p;
      assert heap[..] == MergeMemory(m, p, q, next);
      layout := l[..i] + l[i + 1..];
    }

    /** `plug_holes`: the free block at `mem`, number `i`, is merged with free neighbours. */
    method PlugHoles(mem: nat, ghost i: nat)
      requires Linked() && i < |layout| && layout[i] == Block(mem, false)
      modifies heap, `lfree, `layout
      ensures Linked()
      ensures layout == Merged(old(layout), i)
      ensures lfree == Moved(old(lfree), old(layout), i)
      ensures DataKept(old(heap[..]), heap[..], old(layout), end)
      ensures SentinelRight() <==> ReachesEnd(old(layout), i) || old(SentinelRight())
    {
      PlugForward(mem, i);
      PlugBackward(mem, i);
    }

    method PlugBackward(mem: nat, ghost i: nat)
      requires Linked() && i < |layout| && layout[i] == Block(mem, false)
      modifies heap, `lfree, `layout
      ensures Linked()
      ensures var l := old(layout); var free := i > 0 && !l[i - 1].used;
        && layout == (if free then l[..i] + l[i + 1..] else l)
        && lfree == (if free && old(lfree) == mem then l[i - 1].addr else old(lfree))
      ensures DataKept(old(heap[..]), heap[..], old(layout), end)
      ensures SentinelRight() <==> (i > 0 && i + 1 == |old(layout)| && !old(layout)[i - 1].used) || old(SentinelRight())
    {
      HeaderOf(i);
      if i > 0 { HeaderOf(i - 1); }
      var pmem := heap[mem + PREV];
      if pmem != mem && !IsUsed(pmem) {
        if lfree == mem {
          lfree := pmem;
        }
        Absorb(pmem, mem, i);
      }
    }

    method PlugForward(mem: nat, ghost i: nat)
      requires Linked() && i < |layout| && layout[i] == Block(mem, false)
      modifies heap, `lfree, `layout
      ensures Linked() && i < |layout| && layout[i] == Block(mem, false)
      ensures var l := old(layout); var free := i + 1 < |l| && !l[i + 1].used;
        && layout == (if free then l[..i + 1] + l[i + 2..] else l)
        && lfree == (if free && old(lfree) == l[i + 1].addr then mem else old(lfree))
      ensures DataKept(old(heap[..]), heap[..], old(layout), end)
      ensures forall w :: Live(layout, end, w) <==> Live(old(layout), end, w)
      ensures SentinelRight() <==> (i + 2 == |old(layout)| && !old(layout)[i + 1].used) || old(SentinelRight())
    {
      HeaderOf(i);
      var nmem := heap[mem + NEXT];
      if mem != nmem && !IsUsed(nmem) && nmem != end {
        if lfree == nmem {
          lfree := mem;
        }
        Absorb(mem, nmem, i + 1);
      }
    }

    // ---------- splitting ----------

    /** The writes that make the part of block `i`, at `ptr`, from `ptr2` on a free block. */
    method Split(ptr: nat, ptr2: nat, ghost i: nat)
      requires Linked() && i < |layout| && layout[i].addr == ptr
      requires ptr + HEADER <= ptr2 && ptr2 + HEADER <= Next(layout, i, end) && ptr2 % ALIGN == 0
      modifies heap, `layout
      ensures Linked()
      ensures layout == Replaced(old(layout), i, [old(layout)[i], Block(ptr2, false)])
      ensures KeptBut(old(heap[..]), heap[..], old(layout), i, ptr2, end)
      ensures SentinelRight() <==>
        if i + 1 == |old(layout)| then old(heap[end + PREV]) == ptr2 else old(SentinelRight())
    {
      ghost var l, m := layout, heap[..];
      HeaderOf(i);
      SplitSentinel(m, l, i, ptr2, end, pool);
      SplitRepresents(m, l, i, ptr2, end, pool);
      ReplacedTiles(l, i, [l[i], Block(ptr2, false)], end);
      heap[ptr2 + POOL] := Mark(pool, false);
      heap[ptr2 + NEXT] := heap[ptr + NEXT];
      heap[ptr2 + PREV] := ptr;
      heap[ptr + NEXT] := ptr2;
      if heap[ptr2 + NEXT] != end {
        heap[heap[ptr2 + NEXT] + PREV] := ptr2;
      }
      layout := Replaced(l, i, [l[i], Block(ptr2, false)]);
      assert heap[..] == SplitMemory(m, ptr, ptr2, Next(l, i, end), end, pool);
      forall w | 0 <= w < |m| && Live(l, end, w) && (DataWord(l, i, end, w) ==> w < ptr2) ensures heap[..][w] == m[w] {
        SplitKeepsData(m, l, i, ptr2, end, pool, w);
      }
    }

    // ---------- rt_smem_alloc ----------

    /** Everything a caller could see of the heap. */
    ghost function View(): (Memory, nat, int, int, Layout)
      reads this, heap
    {
      (heap[..], lfree, used, max, layout)
    }

    /** `rt_smem_alloc`: the lowest block that fits is used, and NULL means that none does. */
    method Alloc(size: nat) returns (r: Option<nat>)
      requires Valid()
      modifies heap, `lfree, `used, `max, `layout
      ensures Valid()
      ensures r.None? <==> size == 0 || FirstFit(old(layout), Needed(size), end) == |old(layout)|
      ensures r.None? <==>
        size == 0 || forall j :: 0 <= j < |old(layout)| && !old(layout)[j].used ==>
          DataSize(old(layout), j, end) < Needed(size)
      ensures r.Some? ==> forall j :: 0 <= j < |old(layout)| && !old(layout)[j].used ==>
        DataSize(old(layout), j, end) >= Needed(size) ==> r.value <= old(layout)[j].addr + HEADER
      ensures r.None? ==> View() == old(View())
      ensures r.Some? ==> var i := FirstFit(old(layout), Needed(size), end);
        && r.value == old(layout)[i].addr + HEADER
        && layout == Allocated(old(layout), i, Needed(size), end)
        && max == (if old(max) < used then used else old(max))
      ensures DataKept(old(heap[..]), heap[..], old(layout), end)
      // the block has the bytes asked for, unless the size wrapped around when it was aligned
      ensures r.Some? && size < WORD_RANGE && end <= WORD_RANGE - ALIGN ==>
        (DataSize(layout, FirstFit(old(layout), Needed(size), end), end) >= size <==> size <= WORD_RANGE - ALIGN)
      ensures r.Some? && size < WORD_RANGE && end <= WORD_RANGE - ALIGN ==>
        var given := DataSize(layout, FirstFit(old(layout), Needed(size), end), end);
        var most := if size < MIN_SIZE_ALIGNED then MIN_SIZE_ALIGNED else size + ALIGN - 1;
        given < Needed(size) + HEADER + MIN_SIZE_ALIGNED <= most + HEADER + MIN_SIZE_ALIGNED
      ensures r.Some? ==> var i := FirstFit(old(layout), Needed(size), end);
        SentinelRight() <==>
          if SplitsLast(old(layout), i, Needed(size), end) then old(heap[end + PREV]) == r.value + Needed(size)
          else old(SentinelRight())
    {
      if size == 0 {
        return None;
      }
      var need := RtAlign(size);
      if need < MIN_SIZE_ALIGNED {
        need := MIN_SIZE_ALIGNED;
      }
      LowestFit(layout, need, end);
      HeaderOf(0);
      if need > end - HEADER {
        NothingFits(layout, 0, need, end);
        return None;
      }
      var found := Search(need);
      if found.Some? {
        if size < WORD_RANGE && end <= WORD_RANGE - ALIGN { AllocatedIsLargeEnough(layout, size, end); }
        TakeBlock(found.value, need, FirstFit(layout, need, end));
        return Some(found.value + HEADER);
      }
      return None;
    }

    /** The search loop of `rt_smem_alloc`. */
    method Search(need: nat) returns (r: Option<nat>)
      requires Valid() && need <= end - HEADER
      ensures var f := FirstFit(layout, need, end);
        r == if f == |layout| then None else Some(layout[f].addr)
    {
      ghost var i: nat := LowestFreeIsFirst(layout, end);
      var ptr := lfree;
      while ptr <= end - HEADER - need
        invariant i <= |layout| && ptr == (if i < |layout| then layout[i].addr else end)
        invariant forall j :: 0 <= j < i ==> !Fits(layout, j, need, end)
        decreases |layout| - i
      {
        HeaderOf(i);
        if !IsUsed(ptr) && heap[ptr + NEXT] - (ptr + HEADER) >= need {
          FirstFitIs(layout, i, need, end);
          return Some(ptr);
        }
        ptr := heap[ptr + NEXT];
        i := i + 1;
      }
      NothingFits(layout, i, need, end);
      return None;
    }

    /** The body of the search loop of `rt_smem_alloc` for the block that fits. */
    method TakeBlock(ptr: nat, need: nat, ghost i: nat)
      requires Valid() && i < |layout| && layout[i].addr == ptr
      requires need % ALIGN == 0 && Fits(layout, i, need, end)
      modifies heap, `lfree, `used, `max, `layout
      ensures Valid()
      ensures layout == Allocated(old(layout), i, need, end)
      ensures max == (if old(max) < used then used else old(max))
      ensures DataKept(old(heap[..]), heap[..], old(layout), end)
      ensures SentinelRight() <==>
        if SplitsLast(old(layout), i, need, end) then old(heap[end + PREV]) == ptr + HEADER + need
        else old(SentinelRight())
    {
      ghost var l := layout;
      HeaderOf(i);
      AllocatedKeeps(l, i, need, end);
      AllocatedBySplit(l, i, need, end);
      if heap[ptr + NEXT] - (ptr + HEADER) >= need + HEADER + MIN_SIZE_ALIGNED {
        used := used + need + HEADER;
        TakePart(ptr, need, i);
      } else {
        used := used + heap[ptr + NEXT] - ptr;
        TakeWhole(ptr, i);
      }
      if max < used {
        max := used;
      }
      MoveOn(ptr, need, i, l);
    }

    /** The cursor goes on if it was at the block that was taken, block `i` of `l`. */
    method MoveOn(ptr: nat, need: nat, ghost i: nat, ghost l: Layout)
      requires Linked() && WellFormed(l, end) && i < |l| && l[i].addr == ptr && lfree == LowestFree(l, end)
      requires need % ALIGN == 0 && Fits(l, i, need, end) && layout == Allocated(l, i, need, end)
      modifies `lfree
      ensures lfree == LowestFree(layout, end)
    {
      AllocatedKeeps(l, i, need, end);
      if ptr == lfree {
        LowestIsBelow(l, i, end);
        NextFree(i);
      } else {
        AllocatedAbove(l, i, need, end);
      }
    }

    /** The rest of the block is split off as a free block, and the block marked used. */
    method TakePart(ptr: nat, need: nat, ghost i: nat)
      requires Linked() && i < |layout| && layout[i] == Block(ptr, false)
      requires need % ALIGN == 0 && DataSize(layout, i, end) >= need + HEADER + MIN_SIZE_ALIGNED
      modifies heap, `layout
      ensures Linked()
      ensures layout ==
        Replaced(Replaced(old(layout), i, [old(layout)[i], Block(ptr + HEADER + need, false)]), i, [Block(ptr, true)])
      ensures DataKept(old(heap[..]), heap[..], old(layout), end)
      ensures SentinelRight() <==>
        if i + 1 == |old(layout)| then old(heap[end + PREV]) == ptr + HEADER + need else old(SentinelRight())
    {
      ghost var l, m := layout, heap[..];
      HeaderOf(i);
      assert BlockFits(l, i, end);
      Split(ptr, ptr + HEADER + need, i);
      ghost var m1 := heap[..];
      assert layout[i] == l[i];
      SetUsed(ptr, true, i);
      TakenKeepsData(m, m1, heap[..], l, i, ptr + HEADER + need, pool + 1, end);
    }

    method TakeWhole(ptr: nat, ghost i: nat)
      requires Linked() && i < |layout| && layout[i] == Block(ptr, false)
      modifies heap, `layout
      ensures Linked() && layout == Replaced(old(layout), i, [Block(ptr, true)])
      ensures DataKept(old(heap[..]), heap[..], old(layout), end)
      ensures SentinelRight() == old(SentinelRight())
    {
      ghost var l, m := layout, heap[..];
      SetUsed(ptr, true, i);
      TakenKeepsData(m, m, heap[..], l, i, ptr, pool + 1, end);
    }

    /** The loop of `rt_smem_alloc` that looks for the next free block. */
    method NextFree(ghost i: nat)
      requires Linked() && i < |layout| && lfree == layout[i].addr
      requires forall j :: 0 <= j < i ==> layout[j].used
      modifies `lfree
      ensures lfree == LowestFree(layout, end)
    {
      ghost var k: nat := i;
      HeaderOf(i);
      while IsUsed(lfree) && lfree != end
        invariant k <= |layout| && lfree == (if k < |layout| then layout[k].addr else end) && lfree < heap.Length
        invariant forall j :: 0 <= j < k ==> layout[j].used
        decreases |layout| - k
      {
        HeaderOf(k);
        lfree := heap[lfree + NEXT];
        k := k + 1;
        if k < |layout| { HeaderOf(k); }
      }
      if k < |layout| { HeaderOf(k); }
      LowestFreeAt(layout, k, end);
    }

    // ---------- rt_smem_free ----------

    /** `rmem` was handed out for block `i`, which is still in use. */
    ghost predicate Holds(rmem: nat, i: nat)
      reads this
    {
      i < |layout| && layout[i].used && rmem == layout[i].addr + HEADER
    }

    /** `rt_smem_free` of the pointer handed out for block `i`. */
    method Free(rmem: Option<nat>, ghost i: nat)
      requires Valid() && (rmem.Some? ==> Holds(rmem.value, i))
      modifies heap, `lfree, `used, `layout
      ensures Valid()
      ensures rmem.None? ==> View() == old(View())
      ensures rmem.Some? ==> layout == Freed(old(layout), i) && KeptBut(old(heap[..]), heap[..], old(layout), i, 0, end)
      ensures rmem.Some? ==> (SentinelRight() <==> ReachesEnd(old(layout), i) || old(SentinelRight()))
    {
      if rmem.None? {
        return;
      }
      Release(rmem.value - HEADER, i);
    }

    /** The same for the header of the block. */
    method Release(mem: nat, ghost i: nat)
      requires Valid() && Holds(mem + HEADER, i)
      modifies heap, `lfree, `used, `layout
      ensures Valid() && layout == Freed(old(layout), i) && KeptBut(old(heap[..]), heap[..], old(layout), i, 0, end)
      ensures SentinelRight() <==> ReachesEnd(old(layout), i) || old(SentinelRight())
    {
      ghost var l, m := layout, heap[..];
      HeaderOf(i);
      MarkedKeeps(l, i, end);
      FreedKeeps(l, i, end);
      SetUsed(mem, false, i);
      ghost var m1 := heap[..];
      assert DataKept(m, m1, l, end) by {
        forall w | 0 <= w < |m| && Live(l, end, w) ensures m1[w] == m[w] { DataIsApart(l, end, w, i); }
      }
      HeaderOf(i);
      if mem < lfree {
        lfree := mem;
      }
      used := used - (heap[mem + NEXT] - mem);
      LowestFreeStays(layout, i, end);
      PlugHoles(mem, i);
      FreeKeepsData(m, m1, heap[..], l, i, end);
    }

    /** What a caller can see of allocating and releasing at once: nothing, but in `max`. */
    method AllocThenFree(size: nat)
      requires Valid()
      modifies heap, `lfree, `used, `max, `layout
      ensures Valid()
      ensures layout == old(layout) && lfree == old(lfree) && used == old(used)
      ensures DataKept(old(heap[..]), heap[..], layout, end)
    {
      ghost var l, m := layout, heap[..];
      var r := Alloc(size);
      if r.Some? {
        ghost var i := FirstFit(l, Needed(size), end);
        FreeUndoesAllocation(l, Needed(size), end);
        ghost var m1 := heap[..];
        assert layout[i] == Block(l[i].addr, true);
        Free(r, i);
        UndoneKeepsData(m, m1, heap[..], l, i, Needed(size), end);
      }
    }

    // ---------- rt_smem_realloc ----------

    /** The copy of `count` bytes between two used blocks in `rt_smem_realloc`. */
    method CopyData(to: nat, from: nat, count: nat, ghost f: nat, ghost i: nat)
      requires Valid() && Holds(to, f) && Holds(from, i) && f != i
      requires count <= DataSize(layout, f, end) && count <= DataSize(layout, i, end)
      modifies heap
      ensures Valid()
      ensures Copied(old(heap[..]), heap[..], from, to, count)
      ensures KeptBut(old(heap[..]), heap[..], layout, f, 0, end)
      ensures SentinelRight() == old(SentinelRight())
    {
      HeaderOf(f);
      HeaderOf(i);
      HeadersApart(layout, end, f, i);
      ghost var m := heap[..];
      assert forall w :: to <= w < to + count ==> DataWord(layout, f, end, w);
      var k := 0;
      while k < count
        invariant k <= count && Valid()
        invariant forall j :: 0 <= j < heap.Length && !(to <= j < to + k) ==> heap[j] == m[j]
        invariant forall j :: to <= j < to + k ==> heap[j] == m[from + (j - to)]
      {
        assert DataWord(layout, f, end, to + k);
        DataWriteRepresents(heap[..], layout, to + k, heap[from + k], end, pool);
        ghost var m1 := heap[..];
        heap[to + k] := heap[from + k];
        assert heap[..] == m1[to + k := m1[from + k]];
        k := k + 1;
      }
    }

    /** Whether block `i` stays in place when it is to have `need` bytes. */
    predicate Stays(l: Layout, i: nat, need: nat) {
      i < |l| && (need == DataSize(l, i, end) || need + HEADER + MIN_SIZE < DataSize(l, i, end))
    }

    /** The heap `l`, `m` after a block of `need` bytes has been moved from block `i` to the first fit. */
    ghost predicate MovedFrom(m: Memory, l: Layout, i: nat, need: nat, r: nat)
      requires i < |l| && FirstFit(l, Needed(need), end) < |l|
      reads this, heap
    {
      var f := FirstFit(l, Needed(need), end);
      && r == l[f].addr + HEADER
      && Shifted(l, f, Needed(need), end, i) < |Allocated(l, f, Needed(need), end)|
      && layout == Freed(Allocated(l, f, Needed(need), end), Shifted(l, f, Needed(need), end, i))
      && KeptBut(m, heap[..], l, i, 0, end)
      && DataSize(l, i, end) >= 0
      && Copied(m, heap[..], l[i].addr + HEADER, r, if DataSize(l, i, end) < need then DataSize(l, i, end) else need)
    }

    /** `rt_smem_realloc` of the pointer handed out for block `i`. */
    method Realloc(rmem: Option<nat>, newsize: nat, ghost i: nat) returns (r: Option<nat>)
      requires Valid() && (rmem.Some? ==> Holds(rmem.value, i))
      modifies heap, `lfree, `used, `max, `layout
      ensures Valid()
      // an aligned size of zero releases the block; in all other cases NULL means that nothing happened
      ensures RtAlign(newsize) == 0 ==> r.None?
      ensures RtAlign(newsize) == 0 && rmem.Some? ==>
        layout == Freed(old(layout), i) && KeptBut(old(heap[..]), heap[..], old(layout), i, 0, end)
      ensures r.None? && (rmem.None? || RtAlign(newsize) > 0) ==> View() == old(View())
      // NULL is returned exactly when the size is out of range or a new block is needed and none fits
      ensures RtAlign(newsize) > 0 ==>
        (r.None? <==> || RtAlign(newsize) > end - HEADER
                      || (&& !(rmem.Some? && Stays(old(layout), i, RtAlign(newsize)))
                          && FirstFit(old(layout), Needed(RtAlign(newsize)), end) == |old(layout)|))
      // the block stays where it is exactly if it has the size, or the bytes left over make a block
      ensures rmem.Some? && 0 < RtAlign(newsize) <= end - HEADER ==>
        var size := DataSize(old(layout), i, end);
        r == rmem <==> size == RtAlign(newsize) || RtAlign(newsize) + HEADER + MIN_SIZE < size
      // a block that is large enough stays in place with its first bytes
      ensures rmem.Some? && RtAlign(newsize) > 0 && r.Some? && Stays(old(layout), i, RtAlign(newsize)) ==>
        && r == rmem && KeptBut(old(heap[..]), heap[..], old(layout), i, rmem.value + RtAlign(newsize), end)
        && layout == (if RtAlign(newsize) == DataSize(old(layout), i, end) then old(layout)
                      else Shrunk(old(layout), i, RtAlign(newsize)))
      // any other block is moved with its first bytes
      ensures rmem.Some? && RtAlign(newsize) > 0 && r.Some? && !Stays(old(layout), i, RtAlign(newsize)) ==>
        MovedFrom(old(heap[..]), old(layout), i, RtAlign(newsize), r.value)
      // no block: an allocation
      ensures rmem.None? && r.Some? ==> var f := FirstFit(old(layout), Needed(RtAlign(newsize)), end);
        && f < |old(layout)| && r.value == old(layout)[f].addr + HEADER
        && layout == Allocated(old(layout), f, Needed(RtAlign(newsize)), end)
        && DataKept(old(heap[..]), heap[..], old(layout), end)
    {
      HeaderOf(0);
      var need := RtAlign(newsize);
      if need > end - HEADER {
        return None;
      } else if need == 0 {
        Free(rmem, i);
        return None;
      }
      RtAlignTwice(newsize);
      if rmem.None? {
        r := Alloc(need);
        return;
      }
      var ptr := rmem.value - HEADER;
      HeaderOf(i);
      var size := heap[ptr + NEXT] - ptr - HEADER;
      if size == need {
        return rmem;
      }
      if need + HEADER + MIN_SIZE < size {
        Shrink(ptr, size, need, i);
        return rmem;
      }
      r := Move(rmem.value, size, need, i);
    }

    /** The sentinel is right after block `i` was cut at `ptr2`: never if it was the last block, but by
        chance; always if the block behind it was a free one, and the last; else if it was before. */
    predicate CutRight(l: Layout, pointer: nat, right: bool, i: nat, ptr2: nat)
      requires i < |l|
    {
      if i + 1 == |l| then pointer == ptr2 else (i + 2 == |l| && !l[i + 1].used) || right
    }

    /** The branch of `rt_smem_realloc` that splits the block. */
    method Shrink(ptr: nat, size: nat, need: nat, ghost i: nat)
      requires Valid() && Holds(ptr + HEADER, i) && size == DataSize(layout, i, end)
      requires need % ALIGN == 0 && need + HEADER + MIN_SIZE < size
      modifies heap, `lfree, `used, `layout
      ensures Valid()
      ensures layout == Shrunk(old(layout), i, need)
      ensures KeptBut(old(heap[..]), heap[..], old(layout), i, ptr + HEADER + need, end)
      ensures SentinelRight() <==>
        CutRight(old(layout), old(heap[end + PREV]), old(SentinelRight()), i, ptr + HEADER + need)
    {
      ShrunkIsRight(layout, i, need, Shrunk(layout, i, need));
      used := used - (size - need);
      CutRest(ptr, need, i);
    }

    lemma ShrunkIsRight(l: Layout, i: nat, need: nat, after: Layout)
      requires WellFormed(l, end) && i < |l| && l[i].used && need % ALIGN == 0
      requires need + HEADER + MIN_SIZE < DataSize(l, i, end) && after == Shrunk(l, i, need)
      ensures NoFreeNeighbours(after) && UsedBytes(after, end) == UsedBytes(l, end) - (DataSize(l, i, end) - need)
    {
      TailFits(l, i, need, end);
    }

    /** What is left of the block behind its first `need` bytes becomes free, and the cursor follows. */
    method CutRest(ptr: nat, need: nat, ghost i: nat)
      requires Linked() && NoFreeNeighbours(layout) && lfree == LowestFree(layout, end) && Holds(ptr + HEADER, i)
      requires need % ALIGN == 0 && need + HEADER + MIN_SIZE < DataSize(layout, i, end)
      modifies heap, `lfree, `layout
      ensures Linked() && layout == Shrunk(old(layout), i, need) && lfree == LowestFree(layout, end)
      ensures KeptBut(old(heap[..]), heap[..], old(layout), i, ptr + HEADER + need, end)
      ensures SentinelRight() <==>
        CutRight(old(layout), old(heap[end + PREV]), old(SentinelRight()), i, ptr + HEADER + need)
    {
      TailFits(layout, i, need, end);
      CutTail(ptr, ptr + HEADER + need, i);
    }

    /** The tail of the block from `ptr2` on is split off and merged with a free successor. */
    method CutTail(ptr: nat, ptr2: nat, ghost i: nat)
      requires Linked() && Holds(ptr + HEADER, i) && ptr2 % ALIGN == 0
      requires ptr + HEADER <= ptr2 && ptr2 + HEADER <= Next(layout, i, end)
      modifies heap, `lfree, `layout
      ensures Linked() && layout == Merged(Replaced(old(layout), i, [old(layout)[i], Block(ptr2, false)]), i + 1)
      ensures lfree == Moved(if ptr2 < old(lfree) then ptr2 else old(lfree),
                             Replaced(old(layout), i, [old(layout)[i], Block(ptr2, false)]), i + 1)
      ensures KeptBut(old(heap[..]), heap[..], old(layout), i, ptr2, end)
      ensures SentinelRight() <==> CutRight(old(layout), old(heap[end + PREV]), old(SentinelRight()), i, ptr2)
    {
      ghost var l, m := layout, heap[..];
      Split(ptr, ptr2, i);
      if ptr2 < lfree {
        lfree := ptr2;
      }
      ghost var m1 := heap[..];
      PlugHoles(ptr2, i + 1);
      ShrinkKeepsData(m, m1, heap[..], l, i, ptr2, end);
    }

    /** The copy into the new block and the release of the old one in `rt_smem_realloc`. */
    method CopyAndFree(to: nat, from: nat, count: nat, ghost f: nat, ghost i: nat)
      requires Valid() && Holds(to, f) && Holds(from, i) && f != i
      requires count <= DataSize(layout, f, end) && count <= DataSize(layout, i, end)
      modifies heap, `lfree, `used, `layout
      ensures Valid()
      ensures layout == Freed(old(layout), i)
      ensures Copied(old(heap[..]), heap[..], from, to, count)
      ensures KeptButTwo(old(heap[..]), heap[..], old(layout), f, i, end)
    {
      ghost var l, m := layout, heap[..];
      CopyData(to, from, count, f, i);
      ghost var m1 := heap[..];
      Free(Some(from), i);
      CopyStays(m, m1, heap[..], l, f, i, from, count, end);
    }

    /** The branch of `rt_smem_realloc` that needs another block. */
    method Move(rmem: nat, size: nat, need: nat, ghost i: nat) returns (r: Option<nat>)
      requires Valid() && Holds(rmem, i) && size == DataSize(layout, i, end)
      requires need == RtAlign(need) && 0 < need
      modifies heap, `lfree, `used, `max, `layout
      ensures Valid()
      ensures r.None? <==> FirstFit(old(layout), Needed(need), end) == |old(layout)|
      ensures r.None? ==> View() == old(View())
      ensures r.Some? ==> r.value != rmem && MovedFrom(old(heap[..]), old(layout), i, need, r.value)
    {
      ghost var l, m := layout, heap[..];
      FitIsElsewhere(l, i, Needed(need));
      r := Alloc(need);
      if r.Some? {
        MoveInto(r.value, rmem, if size < need then size else need, need, i, l, m);
      }
    }

    /** A block that is in use is not one that the search finds. */
    lemma FitIsElsewhere(l: Layout, i: nat, need: nat)
      requires Tiles(l, end) && i < |l| && l[i].used
      ensures FirstFit(l, need, end) < |l| ==> l[FirstFit(l, need, end)].addr != l[i].addr
    {
      var f := FirstFit(l, need, end);
      if f < |l| { AddressesDiffer(l, end, f, i); }
    }

    /** The same, once there is a new block; `l` and `m` are from before it was allocated. */
    method MoveInto(to: nat, rmem: nat, count: nat, need: nat, ghost i: nat, ghost l: Layout, ghost m: Memory)
      requires Valid() && Tiles(l, end) && i < |l| && l[i].used && rmem == l[i].addr + HEADER && |m| == end + HEADER
      requires need == RtAlign(need) && FirstFit(l, Needed(need), end) < |l|
      requires layout == Allocated(l, FirstFit(l, Needed(need), end), Needed(need), end)
      requires DataKept(m, heap[..], l, end)
      requires to == l[FirstFit(l, Needed(need), end)].addr + HEADER
      requires DataSize(l, i, end) >= 0 && count == if DataSize(l, i, end) < need then DataSize(l, i, end) else need
      modifies heap, `lfree, `used, `layout
      ensures Valid() && MovedFrom(m, l, i, need, to)
    {
      ghost var f, n := FirstFit(l, Needed(need), end), Needed(need);
      ghost var i' := Shifted(l, f, n, end, i);
      AllocatedBlocks(l, f, n, end, i);
      ghost var m1 := heap[..];
      CopyAndFree(to, rmem, count, f, i');
      MoveKeepsData(m, m1, heap[..], l, f, n, end, i, count);
    }
  }

  /** `rt_smem_init` on `size` bytes from address `begin` on, of which the control block takes `structSize`, in
      32-bit arithmetic: NULL if the rest has no room for the headers of a block and of the sentinel. */
  method Init(begin: nat, size: nat, structSize: nat) returns (heap: Heap?)
    requires begin < WORD_RANGE && size < WORD_RANGE && structSize < WORD_RANGE
    ensures
      var start, last := StartOf(begin, structSize), EndOf(begin, size);
      if 2 * HEADER < last && start + 2 * HEADER <= last then
        && heap != null && fresh(heap) && fresh(heap.heap) && heap.Valid() && heap.layout == [Block(0, false)]
        && heap.used == 0 && heap.pool == RtAlign(begin) && RtAlign(start) + heap.end + HEADER == last
      else heap == null
  {
    var control := RtAlign(begin);
    var start := StartOf(begin, structSize);
    var first, last := RtAlign(start), EndOf(begin, size);
    if last > 2 * HEADER && last - 2 * HEADER >= start {
      RoomIsAligned(start, last);
      heap := new Heap(control, last - first - 2 * HEADER);
    } else {
      heap := null;
    }
  }

  /** Where the control block ends. */
  function StartOf(begin: nat, structSize: nat): nat { (RtAlign(begin) + structSize) % WORD_RANGE }

  /** Where the region ends, aligned down. */
  function EndOf(begin: nat, size: nat): (last: nat)
    ensures last % ALIGN == 0 && last <= WORD_RANGE - ALIGN
  {
    (begin + size) % WORD_RANGE / ALIGN * ALIGN
  }

  /** A heap that is made of a region of memory lies in it, exactly if the end of the control block is not beyond
      the end of the address space. */
  lemma HeapIsInRegion(begin: nat, size: nat, structSize: nat)
    requires begin + size < WORD_RANGE && 0 < structSize <= WORD_RANGE / 2
    requires StartOf(begin, structSize) + 2 * HEADER <= EndOf(begin, size)
    ensures begin <= RtAlign(StartOf(begin, structSize)) <==>
      begin <= WORD_RANGE - ALIGN && RtAlign(begin) + structSize < WORD_RANGE
  {
    RtAlignRoundsUp(begin);
    RtAlignRoundsUp(StartOf(begin, structSize));
  }

  /** A control block that ends where the address space does. */
  lemma HeapBeforeRegion(structSize: nat)
    requires 2 * HEADER < structSize <= WORD_RANGE / 2 && structSize % ALIGN == 0
    ensures var begin, size := WORD_RANGE - structSize, structSize - 1;
      && StartOf(begin, structSize) + 2 * HEADER <= EndOf(begin, size)
      && RtAlign(StartOf(begin, structSize)) == 0 < begin
  {
    RtAlignRoundsUp(WORD_RANGE - structSize);
  }

  lemma RoomIsAligned(start: nat, last: nat)
    requires last % ALIGN == 0 && start + 2 * HEADER <= last <= WORD_RANGE - ALIGN
    ensures last - RtAlign(start) - 2 * HEADER >= 0 && (last - RtAlign(start) - 2 * HEADER) % ALIGN == 0
  {
    RtAlignRoundsUp(start);
  }

  // ---------- what callers can run into ----------

  /** A request above 2^32 - 8 is granted, with a block of hardly any size. */
  method HugeRequest(pool: nat, size: nat, request: nat) returns (heap: Heap, r: Option<nat>)
    requires pool % 2 == 0 && size % ALIGN == 0 && MIN_SIZE_ALIGNED <= size <= WORD_RANGE - 2 * HEADER
    requires WORD_RANGE - ALIGN < request < WORD_RANGE
    ensures fresh(heap) && heap.Valid() && r == Some(HEADER)
    ensures heap.layout != [] && heap.layout[0] == Block(0, true) && DataSize(heap.layout, 0, heap.end) < request
  {
    heap := new Heap(pool, size);
    RtAlignRoundsUp(request);
    FirstFitIs(heap.layout, 0, MIN_SIZE_ALIGNED, heap.end);
    r := heap.Alloc(request);
  }

  /** A reallocation to such a size releases the block. */
  method HugeReallocation(pool: nat, size: nat, request: nat) returns (heap: Heap, r: Option<nat>)
    requires pool % 2 == 0 && size % ALIGN == 0 && size >= MIN_SIZE_ALIGNED
    requires WORD_RANGE - ALIGN < request < WORD_RANGE
    ensures fresh(heap) && heap.Valid() && r == None && heap.layout == [Block(0, false)]
  {
    heap := new Heap(pool, size);
    FirstFitIs(heap.layout, 0, MIN_SIZE_ALIGNED, heap.end);
    FreeUndoesAllocation(heap.layout, MIN_SIZE_ALIGNED, heap.end);
    r := heap.Alloc(1);
    AlignedToZero(request);
    r := heap.Realloc(r, request, 0);
  }

  /** The sentinel of a new heap points to itself, and so it does after the first allocation; the release
      makes it right, and the next allocation wrong again: `right` says so for each of these states. */
  method SentinelComesAndGoes(pool: nat, size: nat) returns (heap: Heap, ghost right: seq<bool>)
    requires pool % 2 == 0 && size % ALIGN == 0 && size >= HEADER + 2 * MIN_SIZE_ALIGNED
    ensures fresh(heap) && heap.Valid() && !heap.SentinelRight()
    ensures right == [false, false, true, heap.SentinelRight()]
  {
    heap := new Heap(pool, size);
    right := [heap.SentinelRight()];
    var r := heap.Alloc(MIN_SIZE_ALIGNED);
    right := right + [heap.SentinelRight()];
    heap.Free(r, 0);
    right := right + [heap.SentinelRight()];
    var _ := heap.Alloc(MIN_SIZE_ALIGNED);
    right := right + [heap.SentinelRight()];
  }
}
