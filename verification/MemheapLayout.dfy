/**
  The block layout of a memheap (rt-thread/src/memheap.c) as a value. Layouts are those of
  SmallMemLayout; a memheap has larger headers, and puts its free blocks on a list as well.
 */
module MemheapLayout {
  import opened KernelLists
  import opened SmallMemLayout

  const ITEM: nat := 24        // RT_MEMHEAP_SIZE of a 32-bit target
  const MINIALLOC: nat := 16   // RT_MEMHEAP_MINIALLOC

  /** `MEMITEM_SIZE`: the data bytes of block `i`. */
  function ItemSize(l: Layout, i: nat, end: nat): int
    requires i < |l|
  {
    Next(l, i, end) - l[i].addr - ITEM
  }

  predicate RoomyAt(l: Layout, i: nat, end: nat)
    requires i < |l|
  {
    ItemSize(l, i, end) >= MINIALLOC
  }

  /** Every block has room for its header and MINIALLOC data bytes. */
  ghost predicate Roomy(l: Layout, end: nat) {
    forall i :: 0 <= i < |l| ==> RoomyAt(l, i, end)
  }

  /** A pool without room for a block of that size is one block for ever. */
  ghost predicate Wide(l: Layout, end: nat) {
    WellFormed(l, end) && if end >= ITEM + MINIALLOC then Roomy(l, end) else end >= ITEM && l == [Block(0, false)]
  }

  /** In any other state there is room. */
  lemma UsedIsRoomy(l: Layout, i: nat, end: nat)
    requires Wide(l, end) && i < |l| && (l[i].used || ItemSize(l, i, end) >= MINIALLOC)
    ensures Roomy(l, end)
  {
  }

  predicate IsFree(l: Layout, a: nat) { Block(a, false) in l }

  /** The sum of the data bytes of all free blocks. */
  function FreeBytes(l: Layout, end: nat): int {
    if l == [] then 0 else (if l[0].used then 0 else ItemSize(l, 0, end)) + FreeBytes(l[1..], end)
  }

  function FreeCount(l: Layout): nat {
    if l == [] then 0 else (if l[0].used then 0 else 1) + FreeCount(l[1..])
  }

  /** All bytes are those of used blocks, of free blocks, or of headers of free blocks. */
  lemma {:induction false} BytesAddUp(l: Layout, end: nat)
    ensures UsedBytes(l, end) + FreeBytes(l, end) + ITEM * FreeCount(l) == if l == [] then 0 else end - l[0].addr
  {
    if l != [] {
      BytesAddUp(l[1..], end);
    }
  }

  lemma {:induction false} FreeCountConcat(a: Layout, b: Layout)
    ensures FreeCount(a + b) == FreeCount(a) + FreeCount(b)
  {
    if a == [] {
      assert a + b == b;
    } else {
      assert (a + b)[1..] == a[1..] + b;
      FreeCountConcat(a[1..], b);
    }
  }

  lemma FreeCountReplaced(l: Layout, i: nat, mid: Layout)
    requires i < |l|
    ensures FreeCount(Replaced(l, i, mid)) == FreeCount(l) - (if l[i].used then 0 else 1) + FreeCount(mid)
  {
    var a, b := l[..i], l[i + 1..];
    assert l == a + ([l[i]] + b);
    assert Replaced(l, i, mid) == a + (mid + b);
    FreeCountConcat(a, [l[i]] + b);
    FreeCountConcat(a, mid + b);
    FreeCountConcat(mid, b);
    assert ([l[i]] + b)[1..] == b;
  }

  lemma FreeCountOfTwo(x: Block, y: Block)
    ensures FreeCount([x]) == (if x.used then 0 else 1)
    ensures FreeCount([x, y]) == (if x.used then 0 else 1) + (if y.used then 0 else 1)
  {
    assert [x, y][1..] == [y] && [y][1..] == [] && [x][1..] == [];
    assert FreeCount([y]) == if y.used then 0 else 1;
  }

  lemma FreeCountDropped(l: Layout, i: nat)
    requires i < |l| && !l[i].used
    ensures FreeCount(Dropped(l, i)) == FreeCount(l) - 1
  {
    FreeCountReplaced(l, i, []);
    assert Replaced(l, i, []) == Dropped(l, i);
  }

  /** Free block `i` has all free bytes but those of the others, which are at least MINIALLOC each. */
  lemma {:induction false} OthersAreFreeToo(l: Layout, i: nat, end: nat)
    requires Roomy(l, end) && i < |l| && !l[i].used
    ensures FreeBytes(l, end) >= ItemSize(l, i, end) + MINIALLOC * (FreeCount(l) - 1)
    ensures FreeCount(l) == 1 ==> FreeBytes(l, end) == ItemSize(l, i, end)
  {
    assert RoomyAt(l, 0, end);
    forall j | 0 <= j < |l[1..]| ensures RoomyAt(l[1..], j, end) { assert RoomyAt(l, j + 1, end); }
    if i > 0 {
      assert ItemSize(l[1..], i - 1, end) == ItemSize(l, i, end);
      OthersAreFreeToo(l[1..], i - 1, end);
      FreeCountPositive(l[1..], i - 1);
    } else {
      AllFreeBytes(l[1..], end);
    }
  }

  lemma {:induction false} AllFreeBytes(l: Layout, end: nat)
    requires Roomy(l, end)
    ensures FreeBytes(l, end) >= MINIALLOC * FreeCount(l) && (FreeCount(l) == 0 ==> FreeBytes(l, end) == 0)
  {
    if l != [] {
      assert RoomyAt(l, 0, end);
      forall j | 0 <= j < |l[1..]| ensures RoomyAt(l[1..], j, end) { assert RoomyAt(l, j + 1, end); }
      AllFreeBytes(l[1..], end);
    }
  }

  lemma {:induction false} FreeCountPositive(l: Layout, i: nat)
    requires i < |l| && !l[i].used
    ensures FreeCount(l) >= 1
  {
    if i > 0 { FreeCountPositive(l[1..], i - 1); }
  }

  // ---------- addresses ----------

  lemma BlocksApart(l: Layout, end: nat, i: nat, j: nat)
    requires Tiles(l, end) && i < |l| && j < |l| && i != j
    ensures Next(l, i, end) <= l[j].addr || Next(l, j, end) <= l[i].addr
  {
    if i < j { TilesApart(l, end, i, j); } else { TilesApart(l, end, j, i); }
  }

  lemma FreeIndex(l: Layout, end: nat, i: nat)
    requires Tiles(l, end) && i < |l|
    ensures IsFree(l, l[i].addr) <==> !l[i].used
  {
    if IsFree(l, l[i].addr) {
      var j :| 0 <= j < |l| && l[j] == Block(l[i].addr, false);
      if j != i { AddressesDiffer(l, end, i, j); }
    }
    if !l[i].used {
      assert l[i] == Block(l[i].addr, false);
    }
  }

  // ---------- what the operations make of a layout ----------

  /** The part of block `i` from `a` on becomes a free block. */
  function SplitAt(l: Layout, i: nat, a: nat): Layout
    requires i < |l|
  {
    Replaced(l, i, [l[i], Block(a, false)])
  }

  function Dropped(l: Layout, i: nat): Layout
    requires i < |l|
  {
    l[..i] + l[i + 1..]
  }

  function Flagged(l: Layout, i: nat, used: bool): Layout
    requires i < |l|
  {
    Replaced(l, i, [Block(l[i].addr, used)])
  }

  predicate Splits(l: Layout, i: nat, need: nat, end: nat)
    requires i < |l|
  {
    ItemSize(l, i, end) >= need + ITEM + MINIALLOC
  }

  function Taken(l: Layout, i: nat, need: nat, end: nat): Layout
    requires i < |l|
  {
    Flagged(if Splits(l, i, need, end) then SplitAt(l, i, l[i].addr + ITEM + need) else l, i, true)
  }

  /** Block `i` takes what it needs from the free block behind it. */
  function Grown(l: Layout, i: nat, need: nat): Layout
    requires i + 1 < |l|
  {
    SplitAt(Dropped(l, i + 1), i, l[i].addr + ITEM + need)
  }

  function Cut(l: Layout, i: nat, need: nat): Layout
    requires i < |l|
  {
    var r := SplitAt(l, i, l[i].addr + ITEM + need);
    if i + 2 < |r| && !r[i + 2].used then Dropped(r, i + 2) else r
  }

  // ---------- membership ----------

  lemma SplitFree(l: Layout, i: nat, a: nat, x: nat)
    requires i < |l|
    ensures IsFree(SplitAt(l, i, a), x) <==> IsFree(l, x) || x == a
  {
    var r := SplitAt(l, i, a);
    assert l == l[..i] + [l[i]] + l[i + 1..];
    assert r == l[..i] + [l[i]] + [Block(a, false)] + l[i + 1..];
  }

  lemma DroppedFree(l: Layout, end: nat, i: nat, x: nat)
    requires Tiles(l, end) && i < |l|
    ensures IsFree(Dropped(l, i), x) <==> IsFree(l, x) && x != l[i].addr
  {
    assert l == l[..i] + [l[i]] + l[i + 1..];
    if IsFree(Dropped(l, i), x) {
      var j :| 0 <= j < |Dropped(l, i)| && Dropped(l, i)[j] == Block(x, false);
      AddressesDiffer(l, end, i, if j < i then j else j + 1);
    }
  }

  lemma FlaggedFree(l: Layout, end: nat, i: nat, used: bool, x: nat)
    requires Tiles(l, end) && i < |l|
    ensures IsFree(Flagged(l, i, used), x) <==> (IsFree(l, x) && x != l[i].addr) || (!used && x == l[i].addr)
  {
    DroppedFree(l, end, i, x);
    assert Flagged(l, i, used) == l[..i] + [Block(l[i].addr, used)] + l[i + 1..];
  }

  /** `free` holds the addresses of the free blocks. */
  ghost predicate FreeSet(free: seq<nat>, l: Layout) {
    forall a {:trigger IsFree(l, a)} :: a in free <==> IsFree(l, a)
  }

  /** The free list after block `i` was taken whole, or in part. */
  lemma WholeFreeSet(l: Layout, end: nat, i: nat, free: seq<nat>, after: seq<nat>)
    requires Tiles(l, end) && i < |l| && FreeSet(free, l)
    requires forall a :: a in after <==> a in free && a != l[i].addr
    ensures FreeSet(after, Flagged(l, i, true))
  {
    forall a ensures a in after <==> IsFree(Flagged(l, i, true), a) { FlaggedFree(l, end, i, true, a); }
  }

  lemma PartFreeSet(l: Layout, end: nat, i: nat, n: nat, free: seq<nat>, after: seq<nat>)
    requires Tiles(l, end) && i < |l| && n % ALIGN == 0 && l[i].addr + ITEM <= n && n + ITEM <= Next(l, i, end)
    requires FreeSet(free, l)
    requires forall a :: a in after <==> (a in free && a != l[i].addr) || a == n
    ensures FreeSet(after, Flagged(SplitAt(l, i, n), i, true))
  {
    var s := SplitAt(l, i, n);
    SplitTiles(l, i, n, end);
    assert s[i] == l[i];
    forall a ensures a in after <==> IsFree(Flagged(s, i, true), a) {
      SplitFree(l, i, n, a);
      FlaggedFree(s, end, i, true, a);
    }
  }

  // ---------- what is kept ----------

  lemma SplitTiles(l: Layout, i: nat, a: nat, end: nat)
    requires Tiles(l, end) && i < |l| && a % ALIGN == 0 && l[i].addr + ITEM <= a && a + ITEM <= Next(l, i, end)
    ensures Tiles(SplitAt(l, i, a), end)
    ensures UsedBytes(SplitAt(l, i, a), end) == UsedBytes(l, end) - (if l[i].used then Next(l, i, end) - a else 0)
  {
    var mid := [l[i], Block(a, false)];
    ReplacedTiles(l, i, mid, end);
    ReplacedUsedBytes(l, i, mid, end);
    UsedBytesOfTwo(l[i], Block(a, false), Next(l, i, end));
  }

  lemma FlaggedTiles(l: Layout, i: nat, used: bool, end: nat)
    requires Tiles(l, end) && i < |l|
    ensures Tiles(Flagged(l, i, used), end)
    ensures UsedBytes(Flagged(l, i, used), end) == UsedBytes(l, end)
      + (if used then Next(l, i, end) - l[i].addr else 0) - (if l[i].used then Next(l, i, end) - l[i].addr else 0)
  {
    ReplacedTiles(l, i, [Block(l[i].addr, used)], end);
    ReplacedUsedBytes(l, i, [Block(l[i].addr, used)], end);
  }

  lemma TakenKeeps(l: Layout, i: nat, need: nat, end: nat)
    requires Wide(l, end) && i < |l| && !l[i].used && need % ALIGN == 0 && MINIALLOC <= need <= ItemSize(l, i, end)
    ensures Wide(Taken(l, i, need, end), end)
    ensures FreeBytes(Taken(l, i, need, end), end) == FreeBytes(l, end)
      - (if Splits(l, i, need, end) then need + ITEM else ItemSize(l, i, end))
  {
    TakenWellFormed(l, i, need, end);
    TakenRoomy(l, i, need, end);
    BytesAddUp(l, end);
    BytesAddUp(Taken(l, i, need, end), end);
    FreeCountTaken(l, i, need, end);
  }

  lemma TakenWellFormed(l: Layout, i: nat, need: nat, end: nat)
    requires WellFormed(l, end) && i < |l| && !l[i].used && need % ALIGN == 0
    requires MINIALLOC <= need <= ItemSize(l, i, end)
    ensures WellFormed(Taken(l, i, need, end), end)
    ensures UsedBytes(Taken(l, i, need, end), end) == UsedBytes(l, end) + ITEM +
      (if Splits(l, i, need, end) then need else ItemSize(l, i, end))
  {
    var a := l[i].addr + ITEM + need;
    assert BlockFits(l, i, end);
    if Splits(l, i, need, end) {
      SplitTiles(l, i, a, end);
      FlaggedTiles(SplitAt(l, i, a), i, true, end);
      assert Taken(l, i, need, end) == Replaced(l, i, [Block(l[i].addr, true), Block(a, false)]);
      AllocatedNeighbours(l, i, [Block(l[i].addr, true), Block(a, false)]);
    } else {
      FlaggedTiles(l, i, true, end);
      AllocatedNeighbours(l, i, [Block(l[i].addr, true)]);
    }
  }

  lemma TakenRoomy(l: Layout, i: nat, need: nat, end: nat)
    requires Roomy(l, end) && i < |l| && MINIALLOC <= need <= ItemSize(l, i, end)
    ensures Roomy(Taken(l, i, need, end), end)
  {
    var r := Taken(l, i, need, end);
    assert RoomyAt(l, i, end);
    forall j | 0 <= j < |r| ensures RoomyAt(r, j, end) {
      assert RoomyAt(l, if Splits(l, i, need, end) && j > i then j - 1 else j, end);
    }
  }

  lemma GrownKeeps(l: Layout, i: nat, need: nat, end: nat)
    requires Wide(l, end) && i + 1 < |l| && l[i].used && !l[i + 1].used && need % ALIGN == 0
    requires ItemSize(l, i, end) < need && need + MINIALLOC <= ItemSize(l, i, end) + ItemSize(l, i + 1, end)
    ensures Wide(Grown(l, i, need), end)
    ensures FreeBytes(Grown(l, i, need), end) == FreeBytes(l, end) - (need - ItemSize(l, i, end))
  {
    BytesAddUp(l, end);
    BytesAddUp(Grown(l, i, need), end);
    FreeCountDropped(l, i + 1);
    FreeCountSplit(Dropped(l, i + 1), i, l[i].addr + ITEM + need);
    var a := l[i].addr + ITEM + need;
    var d, r := Dropped(l, i + 1), Grown(l, i, need);
    assert BlockFits(l, i, end);
    DropTiles(l, i + 1, end);
    SplitTiles(d, i, a, end);
    assert r == l[i + 1 := Block(a, false)];
    forall j | 0 <= j < |r| ensures RoomyAt(r, j, end) { assert RoomyAt(l, j, end); }
    forall j | 0 <= j < |r| - 1 ensures OneUsed(r, j) { assert OneUsed(l, j); }
    DroppedUsedBytes(l, i, end);
  }

  /** A used block that swallows the free block behind it. */
  lemma DroppedUsedBytes(l: Layout, i: nat, end: nat)
    requires i + 1 < |l| && l[i].used && !l[i + 1].used
    ensures UsedBytes(Dropped(l, i + 1), end) == UsedBytes(l, end) + (Next(l, i + 1, end) - l[i + 1].addr)
  {
    var a, x, y, b := l[..i], l[i], l[i + 1], l[i + 2..];
    assert l == a + ([x, y] + b);
    assert Dropped(l, i + 1) == a + ([x] + b);
    assert ([x, y] + b)[1..] == [y] + b && ([y] + b)[1..] == b && ([x] + b)[1..] == b;
    UsedBytesConcat(a, [x, y] + b, end);
    UsedBytesConcat(a, [x] + b, end);
  }

  lemma CutKeeps(l: Layout, i: nat, need: nat, end: nat)
    requires Wide(l, end) && i < |l| && l[i].used && need % ALIGN == 0 && MINIALLOC <= need
    requires need + ITEM + MINIALLOC < ItemSize(l, i, end)
    ensures Wide(Cut(l, i, need), end)
    ensures FreeBytes(Cut(l, i, need), end) == FreeBytes(l, end) + ItemSize(l, i, end) - need
      - (if i + 1 < |l| && !l[i + 1].used then 0 else ITEM)
  {
    CutWide(l, i, need, end);
    CutCount(l, i, need);
    BytesAddUp(l, end);
    BytesAddUp(Cut(l, i, need), end);
  }

  lemma CutWide(l: Layout, i: nat, need: nat, end: nat)
    requires Wide(l, end) && i < |l| && l[i].used && need % ALIGN == 0 && MINIALLOC <= need
    requires need + ITEM + MINIALLOC < ItemSize(l, i, end)
    ensures Wide(Cut(l, i, need), end)
    ensures UsedBytes(Cut(l, i, need), end) == UsedBytes(l, end) - (ItemSize(l, i, end) - need)
  {
    ShrunkKeeps(l, i, need + ITEM - HEADER, end);
    assert Cut(l, i, need) == Shrunk(l, i, need + ITEM - HEADER);
    CutRoomy(l, i, need, end);
  }

  lemma CutCount(l: Layout, i: nat, need: nat)
    requires i < |l|
    ensures FreeCount(Cut(l, i, need)) == FreeCount(l) + 1 - Right(l, i)
  {
    FreeCountSplit(l, i, l[i].addr + ITEM + need);
    CutBySteps(l, i, need, 0);
    if Right(l, i) == 1 { FreeCountDropped(SplitAt(l, i, l[i].addr + ITEM + need), i + 2); }
  }

  /** The two steps of a cut. */
  lemma CutBySteps(l: Layout, i: nat, need: nat, end: nat)
    requires i < |l|
    ensures var s := SplitAt(l, i, l[i].addr + ITEM + need);
      && i + 1 < |s| && s[i + 1] == Block(l[i].addr + ITEM + need, false) && Right(s, i + 1) == Right(l, i)
      && (Right(l, i) == 1 ==> s[i + 2] == l[i + 1] && ItemSize(s, i + 2, end) == ItemSize(l, i + 1, end))
      && Cut(l, i, need) == if Right(l, i) == 1 then Dropped(s, i + 2) else s
    ensures var c := Cut(l, i, need);
      && i + 1 < |c| && c[i + 1] == Block(l[i].addr + ITEM + need, false)
      && ItemSize(c, i + 1, end) ==
        ItemSize(l, i, end) - need - ITEM + if Right(l, i) == 1 then ITEM + ItemSize(l, i + 1, end) else 0
  {
  }

  lemma SplitShape(l: Layout, i: nat, a: nat)
    requires i < |l|
    ensures var r := SplitAt(l, i, a);
      && |r| == |l| + 1 && r[i + 1] == Block(a, false)
      && (forall j :: 0 <= j <= i ==> r[j] == l[j]) && forall j :: i + 1 < j < |r| ==> r[j] == l[j - 1]
  {
  }

  lemma DroppedShape(l: Layout, i: nat)
    requires i < |l|
    ensures var r := Dropped(l, i);
      |r| == |l| - 1 && (forall j :: 0 <= j < i ==> r[j] == l[j]) && forall j :: i <= j < |r| ==> r[j] == l[j + 1]
  {
  }

  lemma CutShape(l: Layout, i: nat, need: nat, end: nat, c: Layout)
    requires i < |l| && c == Cut(l, i, need)
    ensures |c| == |l| + 1 - Right(l, i) && c[i + 1] == Block(l[i].addr + ITEM + need, false)
    ensures forall j :: 0 <= j <= i ==> c[j] == l[j]
    ensures forall j :: i + 1 < j < |c| ==> c[j] == l[j - 1 + Right(l, i)]
  {
    var n := l[i].addr + ITEM + need;
    CutBySteps(l, i, need, end);
    SplitShape(l, i, n);
    if Right(l, i) == 1 { DroppedShape(SplitAt(l, i, n), i + 2); }
  }

  lemma CutRoomy(l: Layout, i: nat, need: nat, end: nat)
    requires Roomy(l, end) && i < |l| && MINIALLOC <= need && need + ITEM + MINIALLOC < ItemSize(l, i, end)
    ensures Roomy(Cut(l, i, need), end)
  {
    var c := Cut(l, i, need);
    CutBySteps(l, i, need, end);
    CutShape(l, i, need, end, c);
    RestRoomy(l, i, need, end, c);
  }

  lemma RestRoomy(l: Layout, i: nat, need: nat, end: nat, c: Layout)
    requires Roomy(l, end) && i < |l| && MINIALLOC <= need && need + ITEM + MINIALLOC < ItemSize(l, i, end)
    requires |c| == |l| + 1 - Right(l, i) && c[i + 1] == Block(l[i].addr + ITEM + need, false)
    requires forall j :: 0 <= j <= i ==> c[j] == l[j]
    requires forall j :: i + 1 < j < |c| ==> c[j] == l[j - 1 + Right(l, i)]
    requires ItemSize(c, i + 1, end) >=
      ItemSize(l, i, end) - need - ITEM + if Right(l, i) == 1 then ITEM + ItemSize(l, i + 1, end) else 0
    ensures Roomy(c, end)
  {
    forall j | 0 <= j < |c| ensures RoomyAt(c, j, end) {
      if j < i {
        assert RoomyAt(l, j, end) && Next(c, j, end) == Next(l, j, end);
      } else if j == i + 1 {
        if Right(l, i) == 1 { assert RoomyAt(l, i + 1, end); }
      } else if j > i + 1 {
        assert RoomyAt(l, j - 1 + Right(l, i), end) && Next(c, j, end) == Next(l, j - 1 + Right(l, i), end);
      }
    }
  }

  lemma FreeCountSplit(l: Layout, i: nat, a: nat)
    requires i < |l|
    ensures FreeCount(SplitAt(l, i, a)) == FreeCount(l) + 1
  {
    FreeCountReplaced(l, i, [l[i], Block(a, false)]);
    FreeCountOfTwo(l[i], Block(a, false));
  }

  lemma FreeCountFlagged(l: Layout, i: nat, used: bool)
    requires i < |l|
    ensures FreeCount(Flagged(l, i, used)) == FreeCount(l) - (if l[i].used then 0 else 1) + (if used then 0 else 1)
  {
    FreeCountReplaced(l, i, [Block(l[i].addr, used)]);
    FreeCountOfTwo(Block(l[i].addr, used), Block(0, used));
  }

  lemma FreeCountTaken(l: Layout, i: nat, need: nat, end: nat)
    requires i < |l| && !l[i].used
    ensures FreeCount(Taken(l, i, need, end)) == FreeCount(l) - (if Splits(l, i, need, end) then 0 else 1)
  {
    if Splits(l, i, need, end) {
      FreeCountSplit(l, i, l[i].addr + ITEM + need);
      FreeCountFlagged(SplitAt(l, i, l[i].addr + ITEM + need), i, true);
    } else {
      FreeCountFlagged(l, i, true);
    }
  }

  /** Whether a neighbour of block `i` is free. */
  function Left(l: Layout, i: nat): nat
    requires i < |l|
  {
    if i > 0 && !l[i - 1].used then 1 else 0
  }

  function Right(l: Layout, i: nat): nat
    requires i < |l|
  {
    if i + 1 < |l| && !l[i + 1].used then 1 else 0
  }

  function MergedLeft(l: Layout, i: nat): Layout
    requires i < |l|
  {
    if Left(l, i) == 1 then Dropped(l, i) else l
  }

  /** After the left neighbour was merged, the right one is where it was. */
  lemma AfterLeft(l: Layout, i: nat)
    requires i < |l|
    ensures i - Left(l, i) < |MergedLeft(l, i)| && Right(MergedLeft(l, i), i - Left(l, i)) == Right(l, i)
    ensures Right(l, i) == 1 ==>
      i - Left(l, i) + 1 < |MergedLeft(l, i)| && MergedLeft(l, i)[i - Left(l, i) + 1] == l[i + 1]
  {
  }

  /** `SmallMemLayout.Merged`, step by step as a memheap does it: the left neighbour first. */
  lemma MergedBySteps(l: Layout, i: nat)
    requires i < |l|
    ensures i - Left(l, i) < |MergedLeft(l, i)| && Right(MergedLeft(l, i), i - Left(l, i)) == Right(l, i)
    ensures Right(l, i) == 1 ==>
      i - Left(l, i) + 1 < |MergedLeft(l, i)| && MergedLeft(l, i)[i - Left(l, i) + 1] == l[i + 1]
    ensures Merged(l, i) == if Right(l, i) == 1 then Dropped(MergedLeft(l, i), i - Left(l, i) + 1) else MergedLeft(l, i)
  {
    if Left(l, i) == 1 && Right(l, i) == 1 {
      assert Dropped(Dropped(l, i), i) == l[..i] + l[i + 2..];
      assert Dropped(Dropped(l, i + 1), i) == l[..i] + l[i + 2..];
    }
  }

  /** Marking a block changes none of its neighbours. */
  lemma FlaggedNeighbours(l: Layout, i: nat, used: bool)
    requires i < |l|
    ensures
      var m := Flagged(l, i, used);
      i < |m| && m[i] == Block(l[i].addr, used) && Left(m, i) == Left(l, i) && Right(m, i) == Right(l, i)
    ensures var m := Flagged(l, i, used); i + 1 < |l| ==> i + 1 < |m| && m[i + 1] == l[i + 1]
  {
  }

  lemma FreeCountFreed(l: Layout, i: nat)
    requires i < |l| && l[i].used
    ensures FreeCount(Freed(l, i)) == FreeCount(l) + 1 - Left(l, i) - Right(l, i)
  {
    var m := Flagged(l, i, false);
    FlaggedNeighbours(l, i, false);
    MergedBySteps(m, i);
    FreeCountFlagged(l, i, false);
    if Left(l, i) == 1 { FreeCountDropped(m, i); }
    if Right(l, i) == 1 { FreeCountDropped(MergedLeft(m, i), i - Left(l, i) + 1); }
  }

  lemma FreedShape(l: Layout, i: nat)
    requires i < |l|
    ensures var r := Freed(l, i); var h := i - Left(l, i); var d := Left(l, i) + Right(l, i);
      && |r| == |l| - d && h < |r| && r[h].addr == l[h].addr
      && (forall j :: 0 <= j < h ==> r[j] == l[j]) && (forall j :: h < j < |r| ==> r[j] == l[j + d])
  {
    var m := Flagged(l, i, false);
    FlaggedNeighbours(l, i, false);
    MergedBySteps(m, i);
    ShapeBySteps(l, i, m, MergedLeft(m, i), Freed(l, i));
  }

  lemma ShapeBySteps(l: Layout, i: nat, m: Layout, m1: Layout, r: Layout)
    requires i < |l| == |m| && m[i].addr == l[i].addr && forall j :: 0 <= j < |l| && j != i ==> m[j] == l[j]
    requires m1 == if Left(l, i) == 1 then Dropped(m, i) else m
    requires if Right(l, i) == 1 then i - Left(l, i) + 1 < |m1| && r == Dropped(m1, i - Left(l, i) + 1) else r == m1
    ensures var h := i - Left(l, i); var d := Left(l, i) + Right(l, i);
      && |r| == |l| - d && h < |r| && r[h].addr == l[h].addr
      && (forall j :: 0 <= j < h ==> r[j] == l[j]) && (forall j :: h < j < |r| ==> r[j] == l[j + d])
  {
    if Left(l, i) == 1 { DroppedShape(m, i); }
    if Right(l, i) == 1 { DroppedShape(m1, i - Left(l, i) + 1); }
  }

  lemma FreedRoomy(l: Layout, i: nat, end: nat)
    requires Roomy(l, end) && i < |l| && l[i].used
    ensures Roomy(Freed(l, i), end)
  {
    var r, h, d := Freed(l, i), i - Left(l, i), Left(l, i) + Right(l, i);
    FreedShape(l, i);
    forall j | 0 <= j < |r| ensures RoomyAt(r, j, end) {
      var k := if j <= h then j else j + d;
      assert RoomyAt(l, k, end);
      if j == h {
        assert Next(r, j, end) == Next(l, i + Right(l, i), end);
        assert RoomyAt(l, i, end) && RoomyAt(l, i + Right(l, i), end);
      } else {
        assert Next(r, j, end) == Next(l, k, end);
      }
    }
  }

  lemma FreedKeepsAll(l: Layout, i: nat, end: nat)
    requires Wide(l, end) && i < |l| && l[i].used
    ensures Wide(Freed(l, i), end)
    ensures FreeBytes(Freed(l, i), end) == FreeBytes(l, end) + ItemSize(l, i, end) + ITEM * (Left(l, i) + Right(l, i))
  {
    FreedKeeps(l, i, end);
    FreedRoomy(l, i, end);
    BytesAddUp(l, end);
    BytesAddUp(Freed(l, i), end);
    FreeCountFreed(l, i);
  }

  // ---------- the free lists after release, shrinking and growth ----------

  lemma FreedFreeSet(l: Layout, end: nat, i: nat, free: seq<nat>, after: seq<nat>)
    requires Tiles(l, end) && i < |l| && l[i].used && FreeSet(free, l)
    requires forall a :: a in after <==>
      (a in free && !(Right(l, i) == 1 && a == l[i + 1].addr)) || (Left(l, i) == 0 && a == l[i].addr)
    ensures FreeSet(after, Freed(l, i))
  {
    var m := Flagged(l, i, false);
    var d := MergedLeft(m, i);
    var h := i - Left(l, i);
    FlaggedNeighbours(l, i, false);
    MergedBySteps(m, i);
    FlaggedTiles(l, i, false, end);
    if Left(l, i) == 1 { DropTiles(m, i, end); }
    FreeIndex(l, end, i);
    if Right(l, i) == 1 { AddressesDiffer(l, end, i, i + 1); }
    forall a ensures a in after <==> IsFree(Freed(l, i), a) {
      FlaggedFree(l, end, i, false, a);
      if Left(l, i) == 1 { DroppedFree(m, end, i, a); }
      if Right(l, i) == 1 {
        DroppedFree(d, end, h + 1, a);
      }
    }
  }

  lemma CutFreeSet(l: Layout, end: nat, i: nat, need: nat, free: seq<nat>, after: seq<nat>, cut: Layout)
    requires Tiles(l, end) && i < |l| && need % ALIGN == 0 && need + ITEM <= ItemSize(l, i, end) && FreeSet(free, l)
    requires cut == Cut(l, i, need)
    requires forall a :: a in after <==>
      (a in free && !(Right(l, i) == 1 && a == l[i + 1].addr)) || a == l[i].addr + ITEM + need
    ensures FreeSet(after, cut)
  {
    forall a ensures a in after <==> IsFree(cut, a) { CutFree(l, end, i, need, a, cut); }
  }

  lemma CutFree(l: Layout, end: nat, i: nat, need: nat, a: nat, cut: Layout)
    requires Tiles(l, end) && i < |l| && need % ALIGN == 0 && need + ITEM <= ItemSize(l, i, end)
    requires cut == Cut(l, i, need)
    ensures IsFree(cut, a) <==>
      (IsFree(l, a) && !(Right(l, i) == 1 && a == l[i + 1].addr)) || a == l[i].addr + ITEM + need
  {
    var n := l[i].addr + ITEM + need;
    assert BlockFits(l, i, end);
    SplitTiles(l, i, n, end);
    SplitFree(l, i, n, a);
    CutBySteps(l, i, need, end);
    if Right(l, i) == 1 { DroppedFree(SplitAt(l, i, n), end, i + 2, a); }
    assert n != l[i].addr;
    if i + 1 < |l| { assert n < l[i + 1].addr; }
  }

  lemma GrownFreeSet(l: Layout, end: nat, i: nat, need: nat, free: seq<nat>, after: seq<nat>)
    requires Tiles(l, end) && i + 1 < |l| && FreeSet(free, l)
    requires forall a :: a in after <==> (a in free && a != l[i + 1].addr) || a == l[i].addr + ITEM + need
    ensures FreeSet(after, Grown(l, i, need))
  {
    forall a ensures a in after <==> IsFree(Grown(l, i, need), a) {
      DroppedFree(l, end, i + 1, a);
      SplitFree(Dropped(l, i + 1), i, l[i].addr + ITEM + need, a);
    }
  }

  /** The number of block `i` after block `f` was taken. */
  function Shifted(l: Layout, f: nat, need: nat, end: nat, i: nat): nat
    requires f < |l|
  {
    if f < i && Splits(l, f, need, end) then i + 1 else i
  }

  /** Releasing a block that was just taken restores the layout, whether it was split or not. */
  lemma FreeUndoesTaking(l: Layout, i: nat, need: nat, end: nat)
    requires NoFreeNeighbours(l) && i < |l| && !l[i].used
    ensures i < |Taken(l, i, need, end)| && Freed(Taken(l, i, need, end), i) == l
  {
    var r := Taken(l, i, need, end);
    var f := Replaced(r, i, [Block(l[i].addr, false)]);
    NeighboursUsed(l, i);
    assert l[i] == Block(l[i].addr, false);
    if Splits(l, i, need, end) {
      assert f[..i] == l[..i] && f[i] == l[i] && !f[i + 1].used && f[i + 2..] == l[i + 1..];
      assert f[..i + 1] == l[..i + 1];
    } else {
      assert f == l;
    }
  }

  lemma TakenBlocks(l: Layout, f: nat, need: nat, end: nat, i: nat)
    requires f < |l| && i < |l| && i != f
    ensures var r := Taken(l, f, need, end); var k := Shifted(l, f, need, end, i);
      && k < |r| && r[k] == l[i] && f < |r| && r[f] == Block(l[f].addr, true)
  {
  }

  // ---------- the list and the chain agree in number ----------

  /** The free list is as long as there are free blocks. */
  lemma {:induction false} FreeListLength(l: Layout, end: nat, free: seq<nat>)
    requires Tiles(l, end) && Distinct(free) && FreeSet(free, l)
    ensures |free| == FreeCount(l)
  {
    assert l[..|l|] == l;
    assert forall a :: IsFree(l[..|l|], a) <==> IsFree(l, a);
    CountBelow(l, end, |l|, free);
  }

  /** The same for the first `n` blocks. */
  lemma {:induction false} CountBelow(l: Layout, end: nat, n: nat, some: seq<nat>)
    requires Tiles(l, end) && n <= |l| && Distinct(some)
    requires forall a {:trigger IsFree(l[..n], a)} :: a in some <==> IsFree(l[..n], a)
    ensures |some| == FreeCount(l[..n])
  {
    if n == 0 {
      assert |some| > 0 ==> some[0] in some && IsFree(l[..n], some[0]);
    } else {
      var p, x := l[..n - 1], l[n - 1];
      assert l[..n] == p + [x];
      FreeCountConcat(p, [x]);
      FreeCountOfTwo(x, x);
      assert forall a :: IsFree(l[..n], a) <==> IsFree(p, a) || (!x.used && a == x.addr);
      forall a | IsFree(p, a) ensures a != x.addr {
        var j :| 0 <= j < |p| && p[j] == Block(a, false);
        AddressesDiffer(l, end, j, n - 1);
      }
      if x.used {
        CountBelow(l, end, n - 1, some);
      } else {
        assert IsFree(l[..n], x.addr);
        var k := WithoutSplits(some, x.addr);
        WithoutKeepsDistinct(some, x.addr);
        forall a ensures a in Without(some, x.addr) <==> IsFree(p, a) { assert a in some <==> IsFree(l[..n], a); }
        CountBelow(l, end, n - 1, Without(some, x.addr));
      }
    }
  }
}
