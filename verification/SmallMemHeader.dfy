/**
  How the block headers of the small memory heap lie in its memory. The memory holds 32-bit
  words, each found at the byte offset of its first byte; the cells between are not used. A
  header at offset `a` consists of the pool pointer at `a`, whose lowest bit says used, the
  offset of the next block at `a + 4`, that of the previous block at `a + 8`, and padding.
 */
module SmallMemHeader {
  import opened SmallMemLayout
  import opened Memories

  const POOL: nat := 0   // the words of a header
  const NEXT: nat := 4
  const PREV: nat := 8

  /** MEM_USED and MEM_FREED of the heap whose control block is at `pool`. */
  function Mark(pool: nat, used: bool): nat { if used then pool + 1 else pool }

  function Prev(l: Layout, i: nat): nat
    requires i < |l|
  {
    if i == 0 then 0 else l[i - 1].addr
  }

  ghost predicate HeaderIs(m: Memory, l: Layout, i: nat, end: nat, pool: nat)
    requires i < |l|
  {
    && l[i].addr + HEADER <= end <= |m|
    && m[l[i].addr + POOL] == Mark(pool, l[i].used)
    && m[l[i].addr + NEXT] == Next(l, i, end)
    && m[l[i].addr + PREV] == Prev(l, i)
  }

  /** The memory holds the headers of all blocks and of the sentinel. The sentinel's pointer to the block
      before it is apart: see `SentinelPrev`. */
  ghost predicate Represents(m: Memory, l: Layout, end: nat, pool: nat) {
    && |m| == end + HEADER
    && (forall i :: 0 <= i < |l| ==> HeaderIs(m, l, i, end, pool))
    && m[end + POOL] == Mark(pool, true) && m[end + NEXT] == end
  }

  /** The sentinel points to the last block. */
  predicate SentinelPrev(m: Memory, l: Layout, end: nat)
    requires l != [] && end + PREV < |m|
  {
    m[end + PREV] == l[|l| - 1].addr
  }

  /** Word `w` belongs to the data of a used block. */
  ghost predicate Live(l: Layout, end: nat, w: nat) {
    exists i :: 0 <= i < |l| && DataWord(l, i, end, w)
  }

  ghost predicate DataWord(l: Layout, i: nat, end: nat, w: nat)
    requires i < |l|
  {
    l[i].used && l[i].addr + HEADER <= w < Next(l, i, end)
  }

  /** The data of all used blocks of `l` are the same in both memories. */
  ghost predicate DataKept(m: Memory, m': Memory, l: Layout, end: nat) {
    |m'| == |m| && forall w :: 0 <= w < |m| && Live(l, end, w) ==> m'[w] == m[w]
  }

  /** The same, but for the data of block `i` from `from` on. */
  ghost predicate KeptBut(m: Memory, m': Memory, l: Layout, i: nat, from: nat, end: nat)
    requires i < |l|
  {
    |m'| == |m|
    && forall w :: 0 <= w < |m| && Live(l, end, w) && (DataWord(l, i, end, w) ==> w < from) ==> m'[w] == m[w]
  }

  /** The same, but for the data of blocks `i` and `j`. */
  ghost predicate KeptButTwo(m: Memory, m': Memory, l: Layout, i: nat, j: nat, end: nat)
    requires i < |l| && j < |l|
  {
    |m'| == |m|
    && forall w :: 0 <= w < |m| && Live(l, end, w) && !DataWord(l, i, end, w) && !DataWord(l, j, end, w) ==>
      m'[w] == m[w]
  }

  /** A heap of one free block. */
  lemma FreshHeap(m: Memory, end: nat, pool: nat)
    requires end % ALIGN == 0 && end >= HEADER && |m| == end + HEADER
    requires m[POOL] == Mark(pool, false) && m[NEXT] == end && m[PREV] == 0
    requires m[end + POOL] == Mark(pool, true) && m[end + NEXT] == end
    ensures Tiles([Block(0, false)], end) && NoFreeNeighbours([Block(0, false)])
    ensures Represents(m, [Block(0, false)], end, pool)
    ensures LowestFree([Block(0, false)], end) == 0 && UsedBytes([Block(0, false)], end) == 0
  {
    var l := [Block(0, false)];
    assert BlockFits(l, 0, end);
    assert HeaderIs(m, l, 0, end, pool);
  }

  /** Headers of different blocks, and the sentinel, do not overlap. */
  ghost predicate Apart(l: Layout, i: nat, j: nat, end: nat)
    requires i < |l| && j < |l|
  {
    && l[i].addr + HEADER <= Next(l, i, end) <= end && l[j].addr + HEADER <= Next(l, j, end) <= end
    && (i < j ==> Next(l, i, end) <= l[j].addr) && (j < i ==> Next(l, j, end) <= l[i].addr)
  }

  lemma HeadersApart(l: Layout, end: nat, i: nat, j: nat)
    requires Tiles(l, end) && i < |l| && j < |l|
    ensures Apart(l, i, j, end)
  {
    assert BlockFits(l, i, end) && BlockFits(l, j, end);
    TilesBelow(l, end, i);
    TilesBelow(l, end, j);
    if i < j { TilesApart(l, end, i, j); }
    if j < i { TilesApart(l, end, j, i); }
  }

  /** No data word of a used block is a header word, nor lies in another block. */
  lemma DataIsApart(l: Layout, end: nat, w: nat, j: nat)
    requires Tiles(l, end) && j < |l| && Live(l, end, w)
    ensures !(l[j].addr <= w < l[j].addr + HEADER) && w < end
    ensures l[j].addr <= w < Next(l, j, end) ==> DataWord(l, j, end, w)
  {
    var i :| 0 <= i < |l| && DataWord(l, i, end, w);
    HeadersApart(l, end, i, j);
  }

  /** Dropping a free block behind a free block does not change which words are data. */
  lemma DropKeepsLive(l: Layout, i: nat, end: nat, w: nat)
    requires 0 < i < |l| && !l[i].used && !l[i - 1].used
    ensures Live(l, end, w) <==> Live(l[..i] + l[i + 1..], end, w)
  {
    var r := l[..i] + l[i + 1..];
    if Live(l, end, w) {
      var j :| 0 <= j < |l| && DataWord(l, j, end, w);
      assert DataWord(r, if j < i then j else j - 1, end, w);
    }
    if Live(r, end, w) {
      var j :| 0 <= j < |r| && DataWord(r, j, end, w);
      assert DataWord(l, if j < i then j else j + 1, end, w);
    }
  }

  // ---------- marking a block used or free ----------

  lemma MarkRepresents(m: Memory, l: Layout, i: nat, used: bool, end: nat, pool: nat)
    requires Tiles(l, end) && Represents(m, l, end, pool) && i < |l|
    ensures l[i].addr + HEADER <= end
    ensures Represents(m[l[i].addr + POOL := Mark(pool, used)], Replaced(l, i, [Block(l[i].addr, used)]), end, pool)
  {
    HeadersApart(l, end, i, i);
    var r := Replaced(l, i, [Block(l[i].addr, used)]);
    var m' := m[l[i].addr + POOL := Mark(pool, used)];
    forall j | 0 <= j < |r| ensures HeaderIs(m', r, j, end, pool) {
      assert HeaderIs(m, l, j, end, pool);
      HeadersApart(l, end, i, j);
    }
  }

  // ---------- splitting a block ----------

  /** The writes of a split of the block at `p` followed by the one at `next`: a free block at `p2`. */
  function SplitMemory(m: Memory, p: nat, p2: nat, next: nat, end: nat, pool: nat): Memory
    requires p + HEADER <= |m| && p2 + HEADER <= |m| && next + HEADER <= |m|
  {
    var m1 := m[p2 + POOL := Mark(pool, false)][p2 + NEXT := next][p2 + PREV := p][p + NEXT := p2];
    if next != end then m1[next + PREV := p2] else m1
  }

  /** What a split leaves of the header of another block, or changes in that of block `i` and the next. */
  lemma SplitOther(m: Memory, l: Layout, i: nat, p2: nat, k: nat, end: nat, pool: nat)
    requires Tiles(l, end) && Represents(m, l, end, pool) && i < |l| && k < |l|
    requires l[i].addr + HEADER <= p2 && p2 + HEADER <= Next(l, i, end)
    ensures l[k].addr + HEADER <= end && Next(l, i, end) <= end
    ensures var m' := SplitMemory(m, l[i].addr, p2, Next(l, i, end), end, pool); var a := l[k].addr;
      && m'[a + POOL] == Mark(pool, l[k].used)
      && m'[a + NEXT] == (if k == i then p2 else Next(l, k, end))
      && m'[a + PREV] == (if k == i + 1 then p2 else Prev(l, k))
  {
    assert HeaderIs(m, l, k, end, pool);
    HeadersApart(l, end, i, k);
    if i + 1 < |l| { HeadersApart(l, end, i + 1, k); }
  }

  lemma SplitRepresents(m: Memory, l: Layout, i: nat, p2: nat, end: nat, pool: nat)
    requires Tiles(l, end) && Represents(m, l, end, pool) && i < |l|
    requires l[i].addr + HEADER <= p2 && p2 + HEADER <= Next(l, i, end)
    ensures Next(l, i, end) <= end
    ensures Represents(SplitMemory(m, l[i].addr, p2, Next(l, i, end), end, pool),
                       Replaced(l, i, [l[i], Block(p2, false)]), end, pool)
  {
    HeadersApart(l, end, i, i);
    if i + 1 < |l| { HeadersApart(l, end, i, i + 1); }
    var r := Replaced(l, i, [l[i], Block(p2, false)]);
    var m' := SplitMemory(m, l[i].addr, p2, Next(l, i, end), end, pool);
    forall j | 0 <= j < |r| ensures HeaderIs(m', r, j, end, pool) {
      if j != i + 1 {
        var k := if j <= i then j else j - 1;
        SplitOther(m, l, i, p2, k, end, pool);
        assert r[j] == l[k];
        assert k != i ==> Next(r, j, end) == Next(l, k, end);
        assert k != i + 1 ==> Prev(r, j) == Prev(l, k);
      }
    }
  }

  lemma SplitKeepsData(m: Memory, l: Layout, i: nat, p2: nat, end: nat, pool: nat, w: nat)
    requires Tiles(l, end) && Represents(m, l, end, pool) && i < |l|
    requires l[i].addr + HEADER <= p2 && p2 + HEADER <= Next(l, i, end)
    requires w < |m| && Live(l, end, w) && (DataWord(l, i, end, w) ==> w < p2)
    ensures Next(l, i, end) <= end
    ensures SplitMemory(m, l[i].addr, p2, Next(l, i, end), end, pool)[w] == m[w]
  {
    HeadersApart(l, end, i, i);
    DataIsApart(l, end, w, i);
    if i + 1 < |l| { HeadersApart(l, end, i, i + 1); DataIsApart(l, end, w, i + 1); }
  }

  /** A split does not write the sentinel's pointer: it is right after the split of the last block only if
      it was the address of the new block before, by chance. */
  lemma SplitSentinel(m: Memory, l: Layout, i: nat, p2: nat, end: nat, pool: nat)
    requires Tiles(l, end) && Represents(m, l, end, pool) && i < |l|
    requires l[i].addr + HEADER <= p2 && p2 + HEADER <= Next(l, i, end)
    ensures Next(l, i, end) <= end
    ensures
      var m', r := SplitMemory(m, l[i].addr, p2, Next(l, i, end), end, pool), Replaced(l, i, [l[i], Block(p2, false)]);
      SentinelPrev(m', r, end) <==> if i + 1 == |l| then m[end + PREV] == p2 else SentinelPrev(m, l, end)
  {
    HeadersApart(l, end, i, i);
    if i + 1 < |l| { HeadersApart(l, end, i, i + 1); }
  }

  /** A split of the last block makes a right pointer wrong, and only that does. */
  lemma SplitBreaksSentinel(m: Memory, l: Layout, i: nat, p2: nat, end: nat, pool: nat)
    requires Tiles(l, end) && Represents(m, l, end, pool) && i < |l| && SentinelPrev(m, l, end)
    requires l[i].addr + HEADER <= p2 && p2 + HEADER <= Next(l, i, end)
    ensures Next(l, i, end) <= end
    ensures
      var m', r := SplitMemory(m, l[i].addr, p2, Next(l, i, end), end, pool), Replaced(l, i, [l[i], Block(p2, false)]);
      SentinelPrev(m', r, end) <==> i + 1 < |l|
  {
    SplitSentinel(m, l, i, p2, end, pool);
  }

  // ---------- merging a block with the one before it ----------

  /** The writes of `plug_holes` that merge the block at `q` into the block at `p` before it. */
  function MergeMemory(m: Memory, p: nat, q: nat, next: nat): Memory
    requires p + HEADER <= |m| && q + HEADER <= |m| && next + HEADER <= |m|
  {
    m[q + POOL := 0][p + NEXT := next][next + PREV := p]
  }

  lemma MergeRepresents(m: Memory, l: Layout, i: nat, end: nat, pool: nat)
    requires Tiles(l, end) && Represents(m, l, end, pool) && 0 < i < |l|
    ensures l[i - 1].addr + HEADER <= end && l[i].addr + HEADER <= end && Next(l, i, end) <= end
    ensures Represents(MergeMemory(m, l[i - 1].addr, l[i].addr, Next(l, i, end)), l[..i] + l[i + 1..], end, pool)
  {
    HeadersApart(l, end, i - 1, i);
    if i + 1 < |l| { HeadersApart(l, end, i, i + 1); }
    var r := l[..i] + l[i + 1..];
    var m' := MergeMemory(m, l[i - 1].addr, l[i].addr, Next(l, i, end));
    forall j | 0 <= j < |r| ensures HeaderIs(m', r, j, end, pool) {
      assert HeaderIs(m, l, if j < i then j else j + 1, end, pool);
      MergedHeader(m, l, i, end, pool, j);
    }
  }

  lemma MergedHeader(m: Memory, l: Layout, i: nat, end: nat, pool: nat, j: nat)
    requires Tiles(l, end) && |m| == end + HEADER && 0 < i < |l| && j < |l| - 1
    requires HeaderIs(m, l, if j < i then j else j + 1, end, pool)
    ensures l[i - 1].addr + HEADER <= end && l[i].addr + HEADER <= end && Next(l, i, end) <= end
    ensures HeaderIs(MergeMemory(m, l[i - 1].addr, l[i].addr, Next(l, i, end)), l[..i] + l[i + 1..], j, end, pool)
  {
    var k := if j < i then j else j + 1;
    HeadersApart(l, end, i, k);
    HeadersApart(l, end, i - 1, k);
    if i + 1 < |l| { HeadersApart(l, end, i + 1, k); }
  }

  lemma MergeKeepsData(m: Memory, l: Layout, i: nat, end: nat, pool: nat)
    requires Tiles(l, end) && Represents(m, l, end, pool) && 0 < i < |l|
    ensures l[i - 1].addr + HEADER <= end && l[i].addr + HEADER <= end && Next(l, i, end) <= end
    ensures DataKept(m, MergeMemory(m, l[i - 1].addr, l[i].addr, Next(l, i, end)), l, end)
  {
    HeadersApart(l, end, i - 1, i);
    if i + 1 < |l| { HeadersApart(l, end, i, i + 1); }
    forall w | 0 <= w < |m| && Live(l, end, w)
      ensures MergeMemory(m, l[i - 1].addr, l[i].addr, Next(l, i, end))[w] == m[w]
    {
      DataIsApart(l, end, w, i);
      DataIsApart(l, end, w, i - 1);
      if i + 1 < |l| { DataIsApart(l, end, w, i + 1); }
    }
  }

  /** A merge that reaches the end makes the sentinel's pointer right, any other leaves it as it is. */
  lemma MergeSentinel(m: Memory, l: Layout, i: nat, end: nat, pool: nat)
    requires Tiles(l, end) && Represents(m, l, end, pool) && 0 < i < |l|
    ensures l[i - 1].addr + HEADER <= end && l[i].addr + HEADER <= end && Next(l, i, end) <= end
    ensures
      var m' := MergeMemory(m, l[i - 1].addr, l[i].addr, Next(l, i, end));
      SentinelPrev(m', l[..i] + l[i + 1..], end) <==> i + 1 == |l| || SentinelPrev(m, l, end)
  {
    HeadersApart(l, end, i - 1, i);
    if i + 1 < |l| { HeadersApart(l, end, i, i + 1); }
  }

  // ---------- writing data ----------

  /** Writing into the data of a used block harms no header. */
  lemma DataWriteRepresents(m: Memory, l: Layout, w: nat, v: nat, end: nat, pool: nat)
    requires Tiles(l, end) && Represents(m, l, end, pool) && w < |m| && Live(l, end, w)
    ensures Represents(m[w := v], l, end, pool)
  {
    DataIsApart(l, end, w, 0);
    var m' := m[w := v];
    forall j | 0 <= j < |l| ensures HeaderIs(m', l, j, end, pool) {
      assert HeaderIs(m, l, j, end, pool);
      DataIsApart(l, end, w, j);
    }
  }

  // ---------- which words are data ----------

  /** The data words after block `i` was released and merged are those of the other blocks. */
  lemma FreedLive(l: Layout, i: nat, end: nat, w: nat)
    requires Tiles(l, end) && i < |l| && l[i].used
    ensures Live(Replaced(l, i, [Block(l[i].addr, false)]), end, w) <==> Live(l, end, w) && !DataWord(l, i, end, w)
  {
    var r := Replaced(l, i, [Block(l[i].addr, false)]);
    if Live(l, end, w) && !DataWord(l, i, end, w) {
      var j :| 0 <= j < |l| && DataWord(l, j, end, w);
      assert DataWord(r, j, end, w);
    }
    if Live(r, end, w) {
      var j :| 0 <= j < |r| && DataWord(r, j, end, w);
      assert DataWord(l, j, end, w);
      HeadersApart(l, end, i, j);
    }
  }

  /** The blocks of a layout after an allocation, by their number before it. */
  function Shifted(l: Layout, f: nat, need: nat, end: nat, i: nat): nat
    requires f < |l|
  {
    if f < i && DataSize(l, f, end) >= need + HEADER + MIN_SIZE_ALIGNED then i + 1 else i
  }

  lemma AllocatedBlocks(l: Layout, f: nat, need: nat, end: nat, i: nat)
    requires Tiles(l, end) && f < |l| && Fits(l, f, need, end) && i < |l| && i != f
    ensures var r := Allocated(l, f, need, end); var k := Shifted(l, f, need, end, i);
      && k < |r| && r[k] == l[i] && Next(r, k, end) == Next(l, i, end)
      && f < |r| && r[f] == Block(l[f].addr, true) && Next(r, f, end) >= l[f].addr + HEADER + need
  {
    assert BlockFits(l, f, end);
  }

  /** Data of other blocks are still data after an allocation in block `f`, and not in block `f`. */
  lemma MovedLive(l: Layout, f: nat, need: nat, end: nat, i: nat, w: nat)
    requires Tiles(l, end) && f < |l| && Fits(l, f, need, end) && i < |l| && i != f
    requires Tiles(Allocated(l, f, need, end), end)
    requires Live(l, end, w) && !DataWord(l, i, end, w)
    ensures var r := Allocated(l, f, need, end); var k := Shifted(l, f, need, end, i);
      && Live(r, end, w) && f < |r| && k < |r| && !DataWord(r, f, end, w) && !DataWord(r, k, end, w)
  {
    var r := Allocated(l, f, need, end);
    var j :| 0 <= j < |l| && DataWord(l, j, end, w);
    AllocatedBlocks(l, f, need, end, i);
    AllocatedBlocks(l, f, need, end, j);
    var k := Shifted(l, f, need, end, j);
    assert DataWord(r, k, end, w);
    HeadersApart(r, end, k, f);
  }

  /** Allocation in block `f` and its release touch no data. */
  lemma UndoneKeepsData(m: Memory, m1: Memory, m2: Memory, l: Layout, f: nat, need: nat, end: nat)
    requires Tiles(l, end) && f < |l| && Fits(l, f, need, end) && Tiles(Allocated(l, f, need, end), end)
    requires f < |Allocated(l, f, need, end)| && DataKept(m, m1, l, end)
    requires KeptBut(m1, m2, Allocated(l, f, need, end), f, 0, end)
    ensures DataKept(m, m2, l, end)
  {
    var r := Allocated(l, f, need, end);
    forall w | 0 <= w < |m| && Live(l, end, w) ensures m2[w] == m[w] {
      var j :| 0 <= j < |l| && DataWord(l, j, end, w);
      AllocatedBlocks(l, f, need, end, j);
      var k := Shifted(l, f, need, end, j);
      assert DataWord(r, k, end, w);
      HeadersApart(r, end, k, f);
    }
  }

  /** Data in front of the split are still data after it. */
  lemma SplitLive(l: Layout, i: nat, p2: nat, end: nat, w: nat)
    requires i < |l| && Live(l, end, w) && (DataWord(l, i, end, w) ==> w < p2)
    ensures Live(Replaced(l, i, [l[i], Block(p2, false)]), end, w)
  {
    var r := Replaced(l, i, [l[i], Block(p2, false)]);
    var j :| 0 <= j < |l| && DataWord(l, j, end, w);
    assert DataWord(r, if j <= i then j else j + 1, end, w);
  }

  lemma ShrinkKeepsData(m: Memory, m1: Memory, m2: Memory, l: Layout, i: nat, p2: nat, end: nat)
    requires i < |l| && KeptBut(m, m1, l, i, p2, end)
    requires DataKept(m1, m2, Replaced(l, i, [l[i], Block(p2, false)]), end)
    ensures KeptBut(m, m2, l, i, p2, end)
  {
    forall w | 0 <= w < |m| && Live(l, end, w) && (DataWord(l, i, end, w) ==> w < p2) ensures m2[w] == m[w] {
      SplitLive(l, i, p2, end, w);
    }
  }

  /** A free block, split or not, is marked used: no data are touched. */
  lemma TakenKeepsData(m: Memory, m1: Memory, m2: Memory, l: Layout, i: nat, p2: nat, v: nat, end: nat)
    requires Tiles(l, end) && i < |l| && !l[i].used && l[i].addr < |m1|
    requires m1 == m || KeptBut(m, m1, l, i, p2, end)
    requires m2 == m1[l[i].addr + POOL := v]
    ensures DataKept(m, m2, l, end)
  {
    forall w | 0 <= w < |m| && Live(l, end, w) ensures m2[w] == m[w] {
      DataIsApart(l, end, w, i);
    }
  }

  lemma FreeKeepsData(m: Memory, m1: Memory, m2: Memory, l: Layout, i: nat, end: nat)
    requires Tiles(l, end) && i < |l| && l[i].used && DataKept(m, m1, l, end)
    requires DataKept(m1, m2, Replaced(l, i, [Block(l[i].addr, false)]), end)
    ensures KeptBut(m, m2, l, i, 0, end)
  {
    forall w | 0 <= w < |m| && Live(l, end, w) && (DataWord(l, i, end, w) ==> w < 0) ensures m2[w] == m[w] {
      FreedLive(l, i, end, w);
    }
  }

  /** Block `i` is copied into block `f` and then released. */
  lemma CopyStays(m: Memory, m1: Memory, m2: Memory, l: Layout, f: nat, i: nat, from: nat, count: nat, end: nat)
    requires Tiles(l, end) && f < |l| && i < |l| && f != i && l[f].used && count <= DataSize(l, f, end)
    requires Copied(m, m1, from, l[f].addr + HEADER, count) && KeptBut(m, m1, l, f, 0, end)
    requires KeptBut(m1, m2, l, i, 0, end)
    ensures Copied(m, m2, from, l[f].addr + HEADER, count) && KeptButTwo(m, m2, l, f, i, end)
  {
    HeadersApart(l, end, f, i);
    var to := l[f].addr + HEADER;
    forall w | to <= w < to + count ensures m2[w] == m[from + (w - to)] {
      assert DataWord(l, f, end, w);
    }
  }

  /** Allocation in block `f`, then the copy of block `i` into it and the release of block `i`. */
  lemma MoveKeepsData(m: Memory, m1: Memory, m2: Memory, l: Layout, f: nat, need: nat, end: nat, i: nat, count: nat)
    requires Tiles(l, end) && f < |l| && Fits(l, f, need, end) && i < |l| && i != f && l[i].used && |m| == end + HEADER
    requires Tiles(Allocated(l, f, need, end), end) && count <= DataSize(l, i, end)
    requires f < |Allocated(l, f, need, end)| && Shifted(l, f, need, end, i) < |Allocated(l, f, need, end)|
    requires DataKept(m, m1, l, end)
    requires KeptButTwo(m1, m2, Allocated(l, f, need, end), f, Shifted(l, f, need, end, i), end)
    requires Copied(m1, m2, l[i].addr + HEADER, l[f].addr + HEADER, count)
    ensures KeptBut(m, m2, l, i, 0, end)
    ensures Copied(m, m2, l[i].addr + HEADER, l[f].addr + HEADER, count)
  {
    forall w | 0 <= w < |m| && Live(l, end, w) && (DataWord(l, i, end, w) ==> w < 0) ensures m2[w] == m[w] {
      MovedLive(l, f, need, end, i, w);
    }
    HeadersApart(l, end, i, i);
    var p, q := l[i].addr + HEADER, l[f].addr + HEADER;
    forall w | q <= w < q + count ensures m2[w] == m[p + (w - q)] {
      assert DataWord(l, i, end, p + (w - q));
    }
  }
}
