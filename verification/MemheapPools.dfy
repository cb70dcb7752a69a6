/**
  What the operations of a memheap (rt-thread/src/memheap.c) make of its blocks and of its free list, as
  values: the list is in the order in which allocation searches it.
 */
module MemheapPools {
  import opened KernelLists
  import opened SmallMemLayout
  import opened MemheapLayout

  /** The blocks, and the addresses of the free ones in the order of the free list. */
  datatype Pool = Pool(layout: Layout, free: seq<nat>)

  /** `RT_ALIGN` and the minimum of a request. */
  function Request(size: nat): (r: nat)
    ensures r >= MINIALLOC && r % ALIGN == 0
  {
    if RtAlign(size) < MINIALLOC then MINIALLOC else RtAlign(size)
  }

  lemma RequestTwice(size: nat)
    ensures Request(Request(size)) == Request(size)
  {
    RtAlignTwice(size);
  }

  /** A request is for at least the bytes asked for, unless aligning them wraps around. */
  lemma RequestIsEnough(size: nat)
    requires size < WORD_RANGE
    ensures Request(size) >= size <==> size <= WORD_RANGE - ALIGN
    ensures size > WORD_RANGE - ALIGN ==> Request(size) == MINIALLOC
    ensures Request(size) <= if size < MINIALLOC then MINIALLOC else size + ALIGN - 1
  {
    RtAlignRoundsUp(size);
  }

  // ---------- the search ----------

  /** The number of the block at `a`; the number of blocks if there is none. */
  function PlaceOf(l: Layout, a: nat): (i: nat)
    ensures i <= |l| && (i < |l| ==> l[i].addr == a)
    ensures i == |l| ==> forall j :: 0 <= j < |l| ==> l[j].addr != a
  {
    if l == [] || l[0].addr == a then 0 else 1 + PlaceOf(l[1..], a)
  }

  lemma PlaceOfBlock(l: Layout, end: nat, i: nat)
    requires Tiles(l, end) && i < |l|
    ensures PlaceOf(l, l[i].addr) == i
  {
    var j := PlaceOf(l, l[i].addr);
    if j < |l| && j != i { AddressesDiffer(l, end, i, j); }
  }

  predicate LargeEnough(l: Layout, a: nat, need: nat, end: nat) {
    PlaceOf(l, a) < |l| && ItemSize(l, PlaceOf(l, a), end) >= need
  }

  /** The place on the free list of the first block that is large enough; the list's length if there is none. */
  function FirstLarge(l: Layout, free: seq<nat>, need: nat, end: nat): (k: nat)
    ensures k <= |free| && (k < |free| ==> LargeEnough(l, free[k], need, end))
    ensures forall j :: 0 <= j < k ==> !LargeEnough(l, free[j], need, end)
  {
    if free == [] || LargeEnough(l, free[0], need, end) then 0 else 1 + FirstLarge(l, free[1..], need, end)
  }

  lemma FirstLargeIs(l: Layout, free: seq<nat>, need: nat, end: nat, k: nat)
    requires k <= |free| && forall j :: 0 <= j < k ==> !LargeEnough(l, free[j], need, end)
    requires k < |free| ==> LargeEnough(l, free[k], need, end)
    ensures FirstLarge(l, free, need, end) == k
  {
  }

  /** The block at `a` is the first on the free list that is large enough. */
  ghost predicate FirstOf(p: Pool, a: nat, need: nat, end: nat) {
    exists k ::
      && 0 <= k < |p.free| && p.free[k] == a
      && (forall j :: 0 <= j < k ==> !LargeEnough(p.layout, p.free[j], need, end))
  }

  /** The block that the search finds for a request, or the number of blocks: no block is large enough,
      or the request is not below the sum of all free bytes. */
  function Found(p: Pool, need: nat, end: nat): (f: nat)
    ensures f <= |p.layout|
    ensures f < |p.layout| ==> ItemSize(p.layout, f, end) >= need && need < FreeBytes(p.layout, end)
    ensures f < |p.layout| ==> FirstOf(p, p.layout[f].addr, need, end)
    ensures f == |p.layout| ==>
      need >= FreeBytes(p.layout, end) || forall j :: 0 <= j < |p.free| ==> !LargeEnough(p.layout, p.free[j], need, end)
  {
    var k := FirstLarge(p.layout, p.free, need, end);
    if need >= FreeBytes(p.layout, end) || k == |p.free| then |p.layout| else PlaceOf(p.layout, p.free[k])
  }

  lemma FoundIsFree(p: Pool, need: nat, end: nat)
    requires Tiles(p.layout, end) && FreeSet(p.free, p.layout) && Found(p, need, end) < |p.layout|
    ensures !p.layout[Found(p, need, end)].used
  {
    var f := Found(p, need, end);
    assert IsFree(p.layout, p.layout[f].addr);
    FreeIndex(p.layout, end, f);
  }

  /** No free block has `need` bytes. */
  ghost predicate AllSmaller(l: Layout, need: nat, end: nat) {
    forall j :: 0 <= j < |l| && !l[j].used ==> ItemSize(l, j, end) < need
  }

  /** What the search comes to: the request is not below the sum of all free bytes, or no free block is large enough. */
  lemma NothingFound(p: Pool, need: nat, end: nat)
    requires Tiles(p.layout, end) && FreeSet(p.free, p.layout)
    ensures Found(p, need, end) == |p.layout| <==>
      need >= FreeBytes(p.layout, end) || AllSmaller(p.layout, need, end)
  {
    if Found(p, need, end) < |p.layout| {
      FoundIsFree(p, need, end);
    } else if need < FreeBytes(p.layout, end) {
      forall j | 0 <= j < |p.layout| && !p.layout[j].used ensures ItemSize(p.layout, j, end) < need {
        FreeIndex(p.layout, end, j);
        PlaceOfBlock(p.layout, end, j);
        assert p.layout[j].addr in p.free;
      }
    }
  }

  // ---------- the operations ----------

  /** Block `i` is taken; a rest of it becomes the first of the free list. */
  function Takes(p: Pool, i: nat, need: nat, end: nat): Pool
    requires i < |p.layout|
  {
    var a := p.layout[i].addr;
    var rest := if Splits(p.layout, i, need, end) then [a + ITEM + need] else [];
    Pool(Taken(p.layout, i, need, end), rest + Without(p.free, a))
  }

  /** The block handed out has the bytes asked for, exactly if aligning the size does not wrap around; it is
      never larger by more than what a block of its own would need. */
  lemma TakenIsLargeEnough(l: Layout, f: nat, size: nat, end: nat)
    requires f < |l| && ItemSize(l, f, end) >= Request(size) && size < WORD_RANGE
    ensures var given := ItemSize(Taken(l, f, Request(size), end), f, end);
      (given >= size <==> size <= WORD_RANGE - ALIGN) && given < Request(size) + ITEM + MINIALLOC
  {
    RequestIsEnough(size);
  }

  /** The free list without the block behind block `i`, if that is free. */
  function WithoutNext(p: Pool, i: nat): seq<nat>
    requires i < |p.layout|
  {
    if Right(p.layout, i) == 1 then Without(p.free, p.layout[i + 1].addr) else p.free
  }

  lemma ReleasedMembers(p: Pool, i: nat, h: nat, after: seq<nat>)
    requires Distinct(p.free) && i < |p.layout|
    requires after == if Left(p.layout, i) == 0 then [h] + WithoutNext(p, i) else WithoutNext(p, i)
    ensures forall a :: a in after <==>
      || (a in p.free && !(Right(p.layout, i) == 1 && a == p.layout[i + 1].addr))
      || (Left(p.layout, i) == 0 && a == h)
  {
    if Right(p.layout, i) == 1 { WithoutKeepsDistinct(p.free, p.layout[i + 1].addr); }
  }

  /** Block `i` is released; it goes to the front of the free list unless it is merged into a free one before it. */
  function Releases(p: Pool, i: nat): Pool
    requires i < |p.layout|
  {
    var f := WithoutNext(p, i);
    Pool(Freed(p.layout, i), if Left(p.layout, i) == 0 then [p.layout[i].addr] + f else f)
  }

  /** Block `i` grows into the free one behind it, of which the rest goes to the front of the free list. */
  function Grows(p: Pool, i: nat, need: nat): Pool
    requires i + 1 < |p.layout|
  {
    Pool(Grown(p.layout, i, need), [p.layout[i].addr + ITEM + need] + Without(p.free, p.layout[i + 1].addr))
  }

  /** Block `i` is cut; its rest, with a free block behind it, goes to the front of the free list. */
  function Cuts(p: Pool, i: nat, need: nat): Pool
    requires i < |p.layout|
  {
    Pool(Cut(p.layout, i, need), [p.layout[i].addr + ITEM + need] + WithoutNext(p, i))
  }

  /** Block `f` is taken, and block `i` released. */
  function Moves(p: Pool, f: nat, need: nat, end: nat, i: nat): Pool
    requires f < |p.layout| && i < |p.layout|
  {
    var k := Shifted(p.layout, f, need, end, i);
    var q := Takes(p, f, need, end);
    if k < |q.layout| then Releases(q, k) else q
  }

  lemma MovesLayout(p: Pool, f: nat, need: nat, end: nat, i: nat)
    requires f < |p.layout| && i < |p.layout| && i != f
    requires Shifted(p.layout, f, need, end, i) < |Taken(p.layout, f, need, end)|
    ensures Moves(p, f, need, end, i).layout == Freed(Taken(p.layout, f, need, end), Shifted(p.layout, f, need, end, i))
  {
  }

  /** The free block behind block `i` has enough room for it to grow to `need` bytes. */
  predicate CanGrow(l: Layout, i: nat, need: nat, end: nat)
    requires i < |l|
  {
    Right(l, i) == 1 && ItemSize(l, i + 1, end) + ItemSize(l, i, end) > need + MINIALLOC
  }

  /** The same test as `rt_memheap_realloc` makes it, of two sums of 32-bit words. */
  predicate GrowthTest(l: Layout, i: nat, need: nat, end: nat)
    requires i < |l|
  {
    Right(l, i) == 1
    && (ItemSize(l, i + 1, end) + ItemSize(l, i, end)) % WORD_RANGE > (need + MINIALLOC) % WORD_RANGE
  }

  /** The sum of MINIALLOC and the request for `size` bytes is not a 32-bit word. */
  predicate SumWraps(size: nat) {
    Request(size) + MINIALLOC >= WORD_RANGE
  }

  /** Which sizes these are. */
  lemma SumWrapsIff(size: nat)
    requires size < WORD_RANGE
    ensures SumWraps(size) <==> WORD_RANGE - MINIALLOC - ALIGN < size <= WORD_RANGE - ALIGN
    ensures SumWraps(size) ==> Request(size) == WORD_RANGE - MINIALLOC || Request(size) == WORD_RANGE - ALIGN
  {
    RtAlignRoundsUp(size);
  }

  /** With a free block behind block `i`, the code's test is the intended one exactly if its sum does not wrap. */
  lemma GrowthTestIff(l: Layout, i: nat, size: nat, end: nat)
    requires Wide(l, end) && end + ITEM < WORD_RANGE && i < |l| && l[i].used && Right(l, i) == 1
    ensures (GrowthTest(l, i, Request(size), end) <==> CanGrow(l, i, Request(size), end)) <==> !SumWraps(size)
    ensures SumWraps(size) ==> GrowthTest(l, i, Request(size), end) && !CanGrow(l, i, Request(size), end)
  {
    UsedIsRoomy(l, i, end);
    assert RoomyAt(l, i, end) && RoomyAt(l, i + 1, end);
    TilesBelow(l, end, i + 1);
    RequestIsWord(size);
  }

  lemma RequestIsWord(size: nat)
    ensures Request(size) <= WORD_RANGE - ALIGN
  {
  }

  /** Where the code then puts what should be the rest of the free block. */
  function RestAt(h: nat, need: nat): nat { (h + ITEM + need) % WORD_RANGE }

  /** If the sum wraps, that is within the header of the block itself. */
  lemma RestIsInside(l: Layout, i: nat, size: nat, end: nat)
    requires Tiles(l, end) && end + ITEM < WORD_RANGE && i < |l|
    requires SumWraps(size) && Request(size) > ItemSize(l, i, end)
    ensures l[i].addr < RestAt(l[i].addr, Request(size)) < l[i].addr + ITEM
  {
    TilesBelow(l, end, i);
    RequestIsWord(size);
  }

  /** No pool has a free block there, as long as the block is in use. */
  lemma NoBlockInside(p: Pool, h: nat, a: nat, end: nat)
    requires Wide(p.layout, end) && FreeSet(p.free, p.layout) && h < a < h + ITEM && a in p.free
    ensures Block(h, true) !in p.layout
  {
    if Block(h, true) in p.layout {
      var l := p.layout;
      assert IsFree(l, a);
      var i :| 0 <= i < |l| && l[i] == Block(h, true);
      var j :| 0 <= j < |l| && l[j] == Block(a, false);
      UsedIsRoomy(l, i, end);
      assert RoomyAt(l, i, end) && RoomyAt(l, j, end);
      BlocksApart(l, end, i, j);
    }
  }

  // ---------- a new pool ----------

  /** `RT_ALIGN_DOWN` */
  function AlignedDown(size: nat): nat { size / ALIGN * ALIGN }

  /** `available_size` of a new pool, in 32-bit arithmetic. */
  function AvailableAtFirst(size: nat): nat {
    (AlignedDown(size) - 2 * ITEM) % WORD_RANGE
  }

  /** It is not more than the pool exactly if the pool has room for two headers. */
  lemma RoomForHeaders(size: nat)
    requires size < WORD_RANGE
    ensures AvailableAtFirst(size) <= size <==> AlignedDown(size) >= 2 * ITEM
    ensures AlignedDown(size) >= 2 * ITEM ==> AvailableAtFirst(size) == AlignedDown(size) - 2 * ITEM
  {
  }

  /** The neighbours of a block that was just taken: used, but for its own rest. */
  lemma TakenNeighbours(l: Layout, i: nat, need: nat, end: nat)
    requires NoFreeNeighbours(l) && i < |l| && !l[i].used
    ensures var r := Taken(l, i, need, end);
      && i < |r| && r[i] == Block(l[i].addr, true) && Left(r, i) == 0
      && Right(r, i) == (if Splits(l, i, need, end) then 1 else 0)
      && (Splits(l, i, need, end) ==> r[i + 1] == Block(l[i].addr + ITEM + need, false))
  {
    NeighboursUsed(l, i);
  }

  /** Releasing a block that was just taken restores the blocks; it leads the free list then. */
  lemma ReleaseUndoesTaking(p: Pool, i: nat, need: nat, end: nat)
    requires NoFreeNeighbours(p.layout) && i < |p.layout| && !p.layout[i].used
    ensures i < |Takes(p, i, need, end).layout|
    ensures Releases(Takes(p, i, need, end), i) ==
      Pool(p.layout, [p.layout[i].addr] + Without(p.free, p.layout[i].addr))
  {
    var q := Takes(p, i, need, end);
    FreeUndoesTaking(p.layout, i, need, end);
    TakenNeighbours(p.layout, i, need, end);
    if Splits(p.layout, i, need, end) {
      assert Without(q.free, q.layout[i + 1].addr) == Without(p.free, p.layout[i].addr);
    } else {
      assert q.free == Without(p.free, p.layout[i].addr);
    }
  }
}
