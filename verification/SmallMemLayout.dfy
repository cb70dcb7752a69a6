/**
  The block layout of the small memory heap (rt-thread/src/mem.c) as a value: which blocks tile
  the heap, what allocation, release and shrinking make of them, and what that keeps.

  Sizes and offsets are in bytes. The constants are those of a 32-bit target (no ARCH_CPU_64BIT,
  RT_ALIGN_SIZE 8): a header of three words aligned to 16 bytes.
 */
module SmallMemLayout {
  const ALIGN: nat := 8
  const HEADER: nat := 16            // SIZEOF_STRUCT_MEM
  const MIN_SIZE: nat := 12
  const MIN_SIZE_ALIGNED: nat := 16
  const WORD_RANGE: nat := 0x1_0000_0000

  /** RT_ALIGN in 32-bit arithmetic. */
  function RtAlign(size: nat): (r: nat)
    ensures r % ALIGN == 0
  {
    (size + ALIGN - 1) % WORD_RANGE / ALIGN * ALIGN
  }

  /** Aligning rounds up to the next multiple, unless the sum wraps around: then it yields zero. */
  lemma RtAlignRoundsUp(size: nat)
    requires size < WORD_RANGE
    ensures RtAlign(size) >= size <==> size <= WORD_RANGE - ALIGN
    ensures size <= WORD_RANGE - ALIGN ==> RtAlign(size) < size + ALIGN
    ensures size > WORD_RANGE - ALIGN ==> RtAlign(size) == 0
  {
  }

  lemma RtAlignTwice(size: nat)
    ensures RtAlign(RtAlign(size)) == RtAlign(size)
  {
  }

  /** The number of data bytes a request of `size` bytes is given at least. */
  function Needed(size: nat): nat {
    if RtAlign(size) < MIN_SIZE_ALIGNED then MIN_SIZE_ALIGNED else RtAlign(size)
  }

  datatype Block = Block(addr: nat, used: bool)

  type Layout = seq<Block>

  /** Where block `i` ends: at the next block or at the sentinel `end`. */
  function Next(l: Layout, i: nat, end: nat): nat
    requires i < |l|
  {
    if i + 1 < |l| then l[i + 1].addr else end
  }

  /** `MEM_SIZE`: the data bytes of block `i`. */
  function DataSize(l: Layout, i: nat, end: nat): int
    requires i < |l|
  {
    Next(l, i, end) - l[i].addr - HEADER
  }

  predicate BlockFits(l: Layout, i: nat, end: nat)
    requires i < |l|
  {
    l[i].addr % ALIGN == 0 && l[i].addr + HEADER <= Next(l, i, end)
  }

  /** The blocks tile the heap from 0 to `end`: each begins where the one before it ends, and has
      room for its header. */
  ghost predicate Tiles(l: Layout, end: nat) {
    && l != [] && l[0].addr == 0 && end % ALIGN == 0
    && (forall i :: 0 <= i < |l| ==> BlockFits(l, i, end))
  }

  predicate OneUsed(l: Layout, i: nat)
    requires i + 1 < |l|
  {
    l[i].used || l[i + 1].used
  }

  ghost predicate NoFreeNeighbours(l: Layout) {
    forall i :: 0 <= i < |l| - 1 ==> OneUsed(l, i)
  }

  ghost predicate WellFormed(l: Layout, end: nat) {
    Tiles(l, end) && NoFreeNeighbours(l)
  }

  /** Blocks further on begin at least a header further on. */
  lemma {:induction false} TilesApart(l: Layout, end: nat, i: nat, j: nat)
    requires Tiles(l, end) && i < j < |l|
    ensures Next(l, i, end) <= l[j].addr
    decreases j - i
  {
    if i + 1 < j {
      assert BlockFits(l, j - 1, end);
      TilesApart(l, end, i, j - 1);
    }
  }

  lemma {:induction false} TilesBelow(l: Layout, end: nat, i: nat)
    requires Tiles(l, end) && i < |l|
    ensures Next(l, i, end) <= end && l[i].addr + HEADER <= end
    decreases |l| - i
  {
    assert BlockFits(l, i, end);
    if i + 1 < |l| {
      TilesBelow(l, end, i + 1);
    }
  }

  // ---------- accounting ----------

  lemma AddressesDiffer(l: Layout, end: nat, i: nat, j: nat)
    requires Tiles(l, end) && i < |l| && j < |l| && i != j
    ensures l[i].addr != l[j].addr
  {
    assert BlockFits(l, i, end) && BlockFits(l, j, end);
    if i < j { TilesApart(l, end, i, j); } else { TilesApart(l, end, j, i); }
  }

  /** The address of the first free block, or `end`. */
  function LowestFree(l: Layout, end: nat): nat {
    if l == [] then end else if !l[0].used then l[0].addr else LowestFree(l[1..], end)
  }

  /** The bytes of the used blocks, headers included. */
  function UsedBytes(l: Layout, end: nat): int {
    if l == [] then 0
    else (if l[0].used then Next(l, 0, end) - l[0].addr else 0) + UsedBytes(l[1..], end)
  }

  lemma {:induction false} UsedBytesConcat(a: Layout, b: Layout, end: nat)
    ensures UsedBytes(a + b, end) == UsedBytes(a, if b == [] then end else b[0].addr) + UsedBytes(b, end)
  {
    if a == [] {
      assert a + b == b;
    } else {
      assert (a + b)[1..] == a[1..] + b;
      UsedBytesConcat(a[1..], b, end);
    }
  }

  lemma UsedBytesOfTwo(x: Block, y: Block, end: nat)
    ensures UsedBytes([x, y], end) ==
      (if x.used then y.addr - x.addr else 0) + (if y.used then end - y.addr else 0)
  {
    assert [x, y][1..] == [y];
    assert UsedBytes([y], end) == if y.used then end - y.addr else 0;
  }

  lemma {:induction false} LowestFreeConcat(a: Layout, b: Layout, end: nat)
    ensures LowestFree(a + b, end) == LowestFree(a, LowestFree(b, end))
  {
    if a == [] {
      assert a + b == b;
    } else {
      assert (a + b)[1..] == a[1..] + b;
      LowestFreeConcat(a[1..], b, end);
    }
  }

  lemma {:induction false} LowestFreeIsFirst(l: Layout, end: nat) returns (i: nat)
    ensures i <= |l| && (forall j :: 0 <= j < i ==> l[j].used)
    ensures i < |l| ==> !l[i].used && LowestFree(l, end) == l[i].addr
    ensures i == |l| ==> LowestFree(l, end) == end
  {
    if l == [] || !l[0].used {
      i := 0;
    } else {
      var k := LowestFreeIsFirst(l[1..], end);
      i := k + 1;
      forall j | 0 <= j < i ensures l[j].used {
        if j > 0 { assert l[j] == l[1..][j - 1]; }
      }
    }
  }

  /** No free block lies below the lowest one. */
  lemma LowestFreeAtMost(l: Layout, end: nat, i: nat)
    requires Tiles(l, end) && i < |l| && !l[i].used
    ensures LowestFree(l, end) <= l[i].addr
  {
    var k := LowestFreeIsFirst(l, end);
    if k < i {
      assert BlockFits(l, k, end);
      TilesApart(l, end, k, i);
    }
  }

  lemma {:induction false} AllUsedLowest(l: Layout, end: nat)
    requires forall j :: 0 <= j < |l| ==> l[j].used
    ensures LowestFree(l, end) == end
  {
    if l != [] {
      AllUsedLowest(l[1..], end);
    }
  }

  // ---------- allocation ----------

  predicate Fits(l: Layout, i: nat, need: nat, end: nat)
    requires i < |l|
  {
    !l[i].used && DataSize(l, i, end) >= need
  }

  /** The index of the first free block with `need` data bytes, or the number of blocks. */
  function FirstFit(l: Layout, need: nat, end: nat): (i: nat)
    ensures i <= |l|
    ensures i < |l| ==> Fits(l, i, need, end)
    ensures forall j :: 0 <= j < i ==> !Fits(l, j, need, end)
  {
    FirstFitFrom(l, 0, need, end)
  }

  function FirstFitFrom(l: Layout, k: nat, need: nat, end: nat): (i: nat)
    requires k <= |l|
    ensures k <= i <= |l|
    ensures i < |l| ==> Fits(l, i, need, end)
    ensures forall j :: k <= j < i ==> !Fits(l, j, need, end)
    decreases |l| - k
  {
    if k == |l| || Fits(l, k, need, end) then k else FirstFitFrom(l, k + 1, need, end)
  }

  /** The first fit is unique. */
  lemma FirstFitIs(l: Layout, i: nat, need: nat, end: nat)
    requires i < |l| && Fits(l, i, need, end) && forall j :: 0 <= j < i ==> !Fits(l, j, need, end)
    ensures FirstFit(l, need, end) == i
  {
  }

  /** A search that stops where the rest of the heap is too short has missed nothing. */
  lemma NothingFits(l: Layout, i: nat, need: nat, end: nat)
    requires Tiles(l, end) && i <= |l| && forall j :: 0 <= j < i ==> !Fits(l, j, need, end)
    requires i < |l| ==> l[i].addr + HEADER + need > end
    ensures FirstFit(l, need, end) == |l|
  {
    forall j | i <= j < |l| ensures !Fits(l, j, need, end) {
      TilesBelow(l, end, j);
      if i < j {
        assert BlockFits(l, i, end);
        TilesApart(l, end, i, j);
      }
    }
  }

  /** Block `i` replaced by the blocks `mid`. */
  function Replaced(l: Layout, i: nat, mid: Layout): Layout
    requires i < |l|
  {
    l[..i] + mid + l[i + 1..]
  }

  /** Block `i` becomes used; what it has beyond `need` bytes is split off if that can hold a block. */
  function Allocated(l: Layout, i: nat, need: nat, end: nat): Layout
    requires i < |l|
  {
    if DataSize(l, i, end) >= need + HEADER + MIN_SIZE_ALIGNED
    then Replaced(l, i, [Block(l[i].addr, true), Block(l[i].addr + HEADER + need, false)])
    else Replaced(l, i, [Block(l[i].addr, true)])
  }

  // ---------- release ----------

  /** Free block `i` merged with a free block behind it, then with a free block before it. */
  function Merged(l: Layout, i: nat): Layout
    requires i < |l|
  {
    var l1 := if i + 1 < |l| && !l[i + 1].used then l[..i + 1] + l[i + 2..] else l;
    if i > 0 && !l[i - 1].used then l1[..i] + l1[i + 1..] else l1
  }

  /** What merging makes of a pointer to a free block. */
  function Moved(a: nat, l: Layout, i: nat): nat
    requires i < |l|
  {
    var b := if i + 1 < |l| && !l[i + 1].used && a == l[i + 1].addr then l[i].addr else a;
    if i > 0 && !l[i - 1].used && b == l[i].addr then l[i - 1].addr else b
  }

  function Freed(l: Layout, i: nat): Layout
    requires i < |l|
  {
    Merged(Replaced(l, i, [Block(l[i].addr, false)]), i)
  }

  // ---------- shrinking ----------

  /** Block `i` keeps `need` data bytes; the rest becomes a free block, merged with a free successor. */
  function Shrunk(l: Layout, i: nat, need: nat): Layout
    requires i < |l|
  {
    Merged(Replaced(l, i, [l[i], Block(l[i].addr + HEADER + need, false)]), i + 1)
  }

  // ---------- replacing one block ----------

  /** `mid` occupies exactly the extent of block `i`. */
  ghost predicate SameExtent(l: Layout, i: nat, mid: Layout, end: nat)
    requires i < |l|
  {
    && 1 <= |mid| <= 2 && mid[0].addr == l[i].addr
    && (|mid| == 2 ==>
          mid[1].addr % ALIGN == 0 && mid[0].addr + HEADER <= mid[1].addr && mid[1].addr + HEADER <= Next(l, i, end))
  }

  lemma ReplacedTiles(l: Layout, i: nat, mid: Layout, end: nat)
    requires Tiles(l, end) && i < |l| && SameExtent(l, i, mid, end)
    ensures Tiles(Replaced(l, i, mid), end)
  {
    var r := Replaced(l, i, mid);
    forall j | 0 <= j < |r| ensures BlockFits(r, j, end) {
      var k := if j < i then j else if j < i + |mid| then i else j - |mid| + 1;
      assert BlockFits(l, k, end);
    }
  }

  lemma ReplacedUsedBytes(l: Layout, i: nat, mid: Layout, end: nat)
    requires i < |l| && mid != [] && mid[0].addr == l[i].addr
    ensures UsedBytes(Replaced(l, i, mid), end) ==
      UsedBytes(l, end) - (if l[i].used then Next(l, i, end) - l[i].addr else 0) + UsedBytes(mid, Next(l, i, end))
  {
    var a, b := l[..i], l[i + 1..];
    assert l == a + ([l[i]] + b);
    assert Replaced(l, i, mid) == a + (mid + b);
    UsedBytesConcat(a, [l[i]] + b, end);
    UsedBytesConcat(a, mid + b, end);
    UsedBytesConcat(mid, b, end);
    assert ([l[i]] + b)[1..] == b;
  }

  /** A used block of which a part at address `a` becomes free. */
  lemma ReplacedLowestFree(l: Layout, i: nat, mid: Layout, a: nat, end: nat)
    requires Tiles(l, end) && i < |l| && l[i].used && l[i].addr <= a <= Next(l, i, end)
    requires forall d :: LowestFree(mid, d) == a
    ensures LowestFree(Replaced(l, i, mid), end) == (if a < LowestFree(l, end) then a else LowestFree(l, end))
  {
    var p, q := l[..i], l[i + 1..];
    assert l == p + ([l[i]] + q);
    assert Replaced(l, i, mid) == p + (mid + q);
    LowestFreeConcat(p, [l[i]] + q, end);
    LowestFreeConcat(p, mid + q, end);
    LowestFreeConcat(mid, q, end);
    assert ([l[i]] + q)[1..] == q;
    LowestFreeBeyond(l, end, i);
    var k := LowestFreeIsFirst(p, a);
    if k < |p| {
      assert BlockFits(l, k, end);
      TilesApart(l, end, k, i);
      LowestFreeDefault(p, a, LowestFree(q, end));
    } else {
      AllUsedLowest(p, a);
      AllUsedLowest(p, LowestFree(q, end));
    }
  }

  /** The free blocks behind block `i` lie behind it. */
  lemma LowestFreeBeyond(l: Layout, end: nat, i: nat)
    requires Tiles(l, end) && i < |l|
    ensures Next(l, i, end) <= LowestFree(l[i + 1..], end)
  {
    TilesBelow(l, end, i);
    var q := l[i + 1..];
    var k := LowestFreeIsFirst(q, end);
    if k < |q| {
      TilesApart(l, end, i, i + 1 + k);
    }
  }

  lemma {:induction false} LowestFreeDefault(l: Layout, d: nat, d': nat)
    requires exists j :: 0 <= j < |l| && !l[j].used
    ensures LowestFree(l, d) == LowestFree(l, d')
  {
    if l[0].used {
      var j :| 0 <= j < |l| && !l[j].used;
      assert l[1..][j - 1] == l[j];
      LowestFreeDefault(l[1..], d, d');
    }
  }

  lemma NeighboursUsed(l: Layout, i: nat)
    requires NoFreeNeighbours(l) && i < |l| && !l[i].used
    ensures i > 0 ==> l[i - 1].used
    ensures i + 1 < |l| ==> l[i + 1].used
  {
    assert i > 0 ==> OneUsed(l, i - 1);
    assert i + 1 < |l| ==> OneUsed(l, i);
  }

  // ---------- what the operations keep ----------

  /** No two free blocks are neighbours, unless one of them is block `i`. */
  ghost predicate NoFreeNeighboursBut(l: Layout, i: nat) {
    forall j :: 0 <= j < |l| - 1 && j != i && j + 1 != i ==> OneUsed(l, j)
  }

  lemma MergedKeeps(l: Layout, i: nat, end: nat)
    requires Tiles(l, end) && i < |l| && !l[i].used && NoFreeNeighboursBut(l, i)
    ensures WellFormed(Merged(l, i), end)
    ensures UsedBytes(Merged(l, i), end) == UsedBytes(l, end)
    ensures LowestFree(Merged(l, i), end) == LowestFree(l, end)
  {
    var l1 := if i + 1 < |l| && !l[i + 1].used then l[..i + 1] + l[i + 2..] else l;
    if i + 1 < |l| && !l[i + 1].used {
      DropFree(l, i + 1, end);
    }
    if i > 0 && !l[i - 1].used {
      assert l1[i - 1] == l[i - 1] && l1[i] == l[i];
      DropFree(l1, i, end);
    }
    MergedNeighbours(l, i);
  }

  /** The pointer to the lowest free block never has to move. */
  lemma LowestFreeStays(l: Layout, i: nat, end: nat)
    requires Tiles(l, end) && i < |l| && !l[i].used && NoFreeNeighboursBut(l, i)
    ensures Moved(LowestFree(l, end), l, i) == LowestFree(l, end) == LowestFree(Merged(l, i), end)
  {
    MergedKeeps(l, i, end);
    LowestFreeAtMost(l, end, i);
    if i + 1 < |l| { TilesApart(l, end, i, i + 1); assert BlockFits(l, i, end); }
    if i > 0 && !l[i - 1].used {
      LowestFreeAtMost(l, end, i - 1);
      assert BlockFits(l, i - 1, end);
    }
  }

  lemma MergedNeighbours(l: Layout, i: nat)
    requires i < |l| && !l[i].used && NoFreeNeighboursBut(l, i)
    ensures NoFreeNeighbours(Merged(l, i))
  {
    var r := Merged(l, i);
    var f := if i + 1 < |l| && !l[i + 1].used then 1 else 0;
    var b := if i > 0 && !l[i - 1].used then 1 else 0;
    assert forall j :: 0 <= j < i - b ==> r[j] == l[j];
    assert forall j :: i - b < j < |r| ==> r[j] == l[j + b + f];
    forall j | 0 <= j < |r| - 1 ensures OneUsed(r, j) {
      if j < i - b {
        if j != i - 1 { assert OneUsed(l, j); }
      } else if j == i - b {
        if f == 1 { assert OneUsed(l, i + 1); }
      } else {
        assert OneUsed(l, j + b + f);
      }
    }
  }

  /** Dropping a free block that follows a free block hands its bytes to that block. */
  lemma DropFree(l: Layout, i: nat, end: nat)
    requires Tiles(l, end) && 0 < i < |l| && !l[i].used && !l[i - 1].used
    ensures var r := l[..i] + l[i + 1..];
      && Tiles(r, end)
      && UsedBytes(r, end) == UsedBytes(l, end)
      && LowestFree(r, end) == LowestFree(l, end)
  {
    DropTiles(l, i, end);
    var r := l[..i] + l[i + 1..];
    var a, b := l[..i - 1], l[i + 1..];
    var x, y := l[i - 1], l[i];
    assert l == a + ([x, y] + b);
    assert r == a + ([x] + b);
    assert ([x, y] + b)[1..] == [y] + b && ([y] + b)[1..] == b && ([x] + b)[1..] == b;
    UsedBytesConcat(a, [x, y] + b, end);
    UsedBytesConcat(a, [x] + b, end);
    LowestFreeConcat(a, [x, y] + b, end);
    LowestFreeConcat(a, [x] + b, end);
  }

  lemma DropTiles(l: Layout, i: nat, end: nat)
    requires Tiles(l, end) && 0 < i < |l|
    ensures Tiles(l[..i] + l[i + 1..], end)
  {
    var r := l[..i] + l[i + 1..];
    assert BlockFits(l, i - 1, end) && BlockFits(l, i, end);
    forall j | 0 <= j < |r| ensures BlockFits(r, j, end) {
      var k := if j < i then j else j + 1;
      assert r[j] == l[k];
      assert BlockFits(l, k, end);
      if j != i - 1 { assert Next(r, j, end) == Next(l, k, end); }
    }
  }

  lemma AllocatedKeeps(l: Layout, i: nat, need: nat, end: nat)
    requires WellFormed(l, end) && i < |l| && Fits(l, i, need, end) && need % ALIGN == 0
    ensures WellFormed(Allocated(l, i, need, end), end)
    ensures UsedBytes(Allocated(l, i, need, end), end) == UsedBytes(l, end) + HEADER +
      (if DataSize(l, i, end) >= need + HEADER + MIN_SIZE_ALIGNED then need else DataSize(l, i, end))
  {
    var r := Allocated(l, i, need, end);
    var split := DataSize(l, i, end) >= need + HEADER + MIN_SIZE_ALIGNED;
    var x, y := Block(l[i].addr, true), Block(l[i].addr + HEADER + need, false);
    var mid := if split then [x, y] else [x];
    UsedBytesOfTwo(x, y, Next(l, i, end));
    assert BlockFits(l, i, end);
    ReplacedTiles(l, i, mid, end);
    ReplacedUsedBytes(l, i, mid, end);
    AllocatedNeighbours(l, i, mid);
  }

  lemma AllocatedNeighbours(l: Layout, i: nat, mid: Layout)
    requires NoFreeNeighbours(l) && i < |l| && !l[i].used && 1 <= |mid| <= 2 && mid[0].used
    ensures NoFreeNeighbours(Replaced(l, i, mid))
  {
    var r := Replaced(l, i, mid);
    NeighboursUsed(l, i);
    forall j | 0 <= j < |r| - 1 ensures OneUsed(r, j) {
      if j + 1 < i {
        assert OneUsed(l, j);
      } else if j >= i + |mid| {
        assert OneUsed(l, j - |mid| + 1);
      }
    }
  }

  lemma AllocatedBySplit(l: Layout, i: nat, need: nat, end: nat)
    requires i < |l| && !l[i].used
    ensures var x, y := Block(l[i].addr, true), Block(l[i].addr + HEADER + need, false);
      Allocated(l, i, need, end) ==
        (if DataSize(l, i, end) >= need + HEADER + MIN_SIZE_ALIGNED
         then Replaced(Replaced(l, i, [l[i], y]), i, [x])
         else Replaced(l, i, [x]))
  {
    var x, y := Block(l[i].addr, true), Block(l[i].addr + HEADER + need, false);
    var r := Replaced(l, i, [l[i], y]);
    assert r[..i] == l[..i] && r[i + 1..] == [y] + l[i + 1..];
  }

  lemma LowestIsBelow(l: Layout, i: nat, end: nat)
    requires Tiles(l, end) && i < |l| && !l[i].used && LowestFree(l, end) == l[i].addr
    ensures forall j :: 0 <= j < i ==> l[j].used
  {
    var k := LowestFreeIsFirst(l, end);
    if k < i {
      assert BlockFits(l, k, end);
      TilesApart(l, end, k, i);
    }
  }

  /** A free block below the allocated one remains the lowest. */
  lemma AllocatedAbove(l: Layout, i: nat, need: nat, end: nat)
    requires i < |l| && LowestFree(l, end) != l[i].addr && !l[i].used
    ensures LowestFree(Allocated(l, i, need, end), end) == LowestFree(l, end)
  {
    var k := LowestFreeIsFirst(l, end);
    LowestFreeAt(Allocated(l, i, need, end), k, end);
  }

  lemma {:induction false} LowestFreeAt(l: Layout, k: nat, end: nat)
    requires k <= |l| && (forall j :: 0 <= j < k ==> l[j].used) && (k < |l| ==> !l[k].used)
    ensures LowestFree(l, end) == if k < |l| then l[k].addr else end
  {
    if k > 0 {
      LowestFreeAt(l[1..], k - 1, end);
    }
  }

  lemma FreedKeeps(l: Layout, i: nat, end: nat)
    requires WellFormed(l, end) && i < |l| && l[i].used
    ensures WellFormed(Freed(l, i), end)
    ensures UsedBytes(Freed(l, i), end) == UsedBytes(l, end) - (Next(l, i, end) - l[i].addr)
    ensures LowestFree(Freed(l, i), end) == (if l[i].addr < LowestFree(l, end) then l[i].addr else LowestFree(l, end))
  {
    MarkedKeeps(l, i, end);
    MergedKeeps(Replaced(l, i, [Block(l[i].addr, false)]), i, end);
  }

  /** Marking a used block free, before it is merged with its neighbours. */
  lemma MarkedKeeps(l: Layout, i: nat, end: nat)
    requires WellFormed(l, end) && i < |l| && l[i].used
    ensures var r := Replaced(l, i, [Block(l[i].addr, false)]);
      && Tiles(r, end) && NoFreeNeighboursBut(r, i)
      && UsedBytes(r, end) == UsedBytes(l, end) - (Next(l, i, end) - l[i].addr)
      && LowestFree(r, end) == (if l[i].addr < LowestFree(l, end) then l[i].addr else LowestFree(l, end))
  {
    var mid := [Block(l[i].addr, false)];
    var r := Replaced(l, i, mid);
    ReplacedTiles(l, i, mid, end);
    ReplacedUsedBytes(l, i, mid, end);
    assert BlockFits(l, i, end);
    ReplacedLowestFree(l, i, mid, l[i].addr, end);
    forall j | 0 <= j < |r| - 1 && j != i && j + 1 != i ensures OneUsed(r, j) {
      assert OneUsed(l, j);
    }
  }

  lemma ShrunkKeeps(l: Layout, i: nat, need: nat, end: nat)
    requires WellFormed(l, end) && i < |l| && l[i].used && need % ALIGN == 0
    requires need + HEADER + MIN_SIZE < DataSize(l, i, end)
    ensures WellFormed(Shrunk(l, i, need), end)
    ensures UsedBytes(Shrunk(l, i, need), end) == UsedBytes(l, end) - (DataSize(l, i, end) - need)
    ensures var a := l[i].addr + HEADER + need;
      LowestFree(Shrunk(l, i, need), end) == (if a < LowestFree(l, end) then a else LowestFree(l, end))
  {
    SplitKeeps(l, i, need, end);
    MergedKeeps(Replaced(l, i, [l[i], Block(l[i].addr + HEADER + need, false)]), i + 1, end);
  }

  /** Splitting the tail off a used block, before it is merged with a free successor. */
  lemma SplitKeeps(l: Layout, i: nat, need: nat, end: nat)
    requires WellFormed(l, end) && i < |l| && l[i].used && need % ALIGN == 0
    requires need + HEADER + MIN_SIZE < DataSize(l, i, end)
    ensures var a := l[i].addr + HEADER + need; var r := Replaced(l, i, [l[i], Block(a, false)]);
      && Tiles(r, end) && NoFreeNeighboursBut(r, i + 1)
      && UsedBytes(r, end) == UsedBytes(l, end) - (DataSize(l, i, end) - need)
      && LowestFree(r, end) == (if a < LowestFree(l, end) then a else LowestFree(l, end))
  {
    var x := Block(l[i].addr + HEADER + need, false);
    var mid := [l[i], x];
    var r := Replaced(l, i, mid);
    assert BlockFits(l, i, end);
    ReplacedTiles(l, i, mid, end);
    ReplacedUsedBytes(l, i, mid, end);
    UsedBytesOfTwo(l[i], x, Next(l, i, end));
    assert mid[1..] == [x];
    ReplacedLowestFree(l, i, mid, x.addr, end);
    forall j | 0 <= j < |r| - 1 && j != i + 1 && j + 1 != i + 1 ensures OneUsed(r, j) {
      if j < i { assert OneUsed(l, j); } else { assert OneUsed(l, j - 1); }
    }
  }

  /** The two steps of shrinking: the split, then the merge with what follows. */
  lemma ShrunkBySteps(l: Layout, i: nat, need: nat, end: nat)
    requires WellFormed(l, end) && i < |l| && l[i].used && need % ALIGN == 0
    requires need + HEADER + MIN_SIZE < DataSize(l, i, end)
    ensures var a := l[i].addr + HEADER + need; var r := Replaced(l, i, [l[i], Block(a, false)]);
      && Tiles(r, end) && i + 1 < |r| && r[i + 1] == Block(a, false) && Shrunk(l, i, need) == Merged(r, i + 1)
      && Moved(if a < LowestFree(l, end) then a else LowestFree(l, end), r, i + 1) ==
        LowestFree(Shrunk(l, i, need), end)
    ensures WellFormed(Shrunk(l, i, need), end)
    ensures UsedBytes(Shrunk(l, i, need), end) == UsedBytes(l, end) - (DataSize(l, i, end) - need)
  {
    ShrunkKeeps(l, i, need, end);
    SplitKeeps(l, i, need, end);
    LowestFreeStays(Replaced(l, i, [l[i], Block(l[i].addr + HEADER + need, false)]), i + 1, end);
  }

  lemma TailFits(l: Layout, i: nat, need: nat, end: nat)
    requires WellFormed(l, end) && i < |l| && l[i].used && need % ALIGN == 0
    requires need + HEADER + MIN_SIZE < DataSize(l, i, end)
    ensures var a := l[i].addr + HEADER + need; var r := Replaced(l, i, [l[i], Block(a, false)]);
      && a % ALIGN == 0 && a + HEADER <= Next(l, i, end) && i + 1 < |r| && Merged(r, i + 1) == Shrunk(l, i, need)
      && Moved(if a < LowestFree(l, end) then a else LowestFree(l, end), r, i + 1) ==
        LowestFree(Shrunk(l, i, need), end)
    ensures WellFormed(Shrunk(l, i, need), end)
    ensures UsedBytes(Shrunk(l, i, need), end) == UsedBytes(l, end) - (DataSize(l, i, end) - need)
  {
    assert BlockFits(l, i, end);
    ShrunkBySteps(l, i, need, end);
  }

  /** A merge of block `i` reaches the end of the heap. */
  predicate ReachesEnd(l: Layout, i: nat)
    requires i < |l|
  {
    (i + 2 == |l| && !l[i + 1].used) || (i > 0 && i + 1 == |l| && !l[i - 1].used)
  }

  /** An allocation in block `i` splits the last block. */
  predicate SplitsLast(l: Layout, i: nat, need: nat, end: nat)
    requires i < |l|
  {
    i + 1 == |l| && DataSize(l, i, end) >= need + HEADER + MIN_SIZE_ALIGNED
  }

  // ---------- the main properties of the layout ----------

  /** What the search comes to: no free block is large enough, or the lowest that is. */
  lemma LowestFit(l: Layout, need: nat, end: nat)
    requires Tiles(l, end)
    ensures FirstFit(l, need, end) == |l| <==> forall j :: 0 <= j < |l| && !l[j].used ==> DataSize(l, j, end) < need
    ensures FirstFit(l, need, end) < |l| ==>
      var f := FirstFit(l, need, end);
      forall j :: 0 <= j < |l| && !l[j].used && DataSize(l, j, end) >= need ==> l[f].addr <= l[j].addr
  {
    var f := FirstFit(l, need, end);
    if f < |l| {
      forall j | 0 <= j < |l| && !l[j].used && DataSize(l, j, end) >= need ensures l[f].addr <= l[j].addr {
        assert Fits(l, j, need, end);
        if f < j { TilesApart(l, end, f, j); }
      }
    } else {
      forall j | 0 <= j < |l| && !l[j].used ensures DataSize(l, j, end) < need { assert !Fits(l, j, need, end); }
    }
  }

  /** The block handed out has the bytes asked for, exactly if aligning the size does not wrap around; and no more
      than are needed to align the size, or would not make a block of their own. */
  lemma AllocatedIsLargeEnough(l: Layout, size: nat, end: nat)
    requires Tiles(l, end) && FirstFit(l, Needed(size), end) < |l| && size < WORD_RANGE && end <= WORD_RANGE - ALIGN
    ensures
      var f := FirstFit(l, Needed(size), end);
      DataSize(Allocated(l, f, Needed(size), end), f, end) >= size <==> size <= WORD_RANGE - ALIGN
    ensures
      var f := FirstFit(l, Needed(size), end);
      var most := if size < MIN_SIZE_ALIGNED then MIN_SIZE_ALIGNED else size + ALIGN - 1;
      var given := DataSize(Allocated(l, f, Needed(size), end), f, end);
      given < Needed(size) + HEADER + MIN_SIZE_ALIGNED <= most + HEADER + MIN_SIZE_ALIGNED
  {
    var f := FirstFit(l, Needed(size), end);
    RtAlignRoundsUp(size);
    TilesBelow(l, end, f);
    assert BlockFits(l, f, end);
  }

  /** A size above 0 that is aligned to 0: then `rt_smem_realloc` releases the block. */
  lemma AlignedToZero(size: nat)
    requires 0 < size < WORD_RANGE
    ensures RtAlign(size) == 0 <==> size > WORD_RANGE - ALIGN
  {
    RtAlignRoundsUp(size);
  }

  /** Allocating and releasing again restores the layout, whether the block was split or not. */
  lemma FreeUndoesAllocation(l: Layout, need: nat, end: nat)
    requires WellFormed(l, end) && FirstFit(l, need, end) < |l|
    ensures Freed(Allocated(l, FirstFit(l, need, end), need, end), FirstFit(l, need, end)) == l
  {
    var i := FirstFit(l, need, end);
    var r := Allocated(l, i, need, end);
    var f := Replaced(r, i, [Block(l[i].addr, false)]);
    NeighboursUsed(l, i);
    assert l[i] == Block(l[i].addr, false);
    if DataSize(l, i, end) >= need + HEADER + MIN_SIZE_ALIGNED {
      assert f[..i] == l[..i] && f[i] == l[i] && !f[i + 1].used && f[i + 2..] == l[i + 1..];
      assert f[..i + 1] == l[..i + 1];
    } else {
      assert f == l;
    }
  }

  /** A heap without used blocks is one free block again, whatever was done to it before. */
  lemma EmptyHeapIsWhole(l: Layout, end: nat)
    requires WellFormed(l, end) && forall i :: 0 <= i < |l| ==> !l[i].used
    ensures l == [Block(0, false)]
  {
    assert |l| > 1 ==> OneUsed(l, 0);
  }

  /** A block that is shrunk leaves at least the minimum block behind, although the test of the
      source is made with the minimum that is not aligned. */
  lemma RemainderIsABlock(size: nat, need: nat)
    requires size % ALIGN == 0 && need % ALIGN == 0 && need + HEADER + MIN_SIZE < size
    ensures size - need - HEADER >= MIN_SIZE_ALIGNED
  {
  }
}
