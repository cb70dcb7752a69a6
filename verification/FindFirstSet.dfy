/**
  `__rt_ffs` of rt-thread/src/kservice.c, the search for the lowest set bit on which the schedulers
  rest, in its two forms: by a table of bytes, and (RT_USING_TINY_FFS) by a remainder.
 */
module FindFirstSet {
  import opened Tables

  /** `r` is the number of the lowest bit of `v`, counted from 1, or 0 if there is none. */
  predicate IsFirst(v: bv32, r: bv8) {
    if v == 0 then r == 0
    else 1 <= r <= 32 && v & (1 << (r - 1)) != 0 && v & ((1 << (r - 1)) - 1) == 0
  }

  /** `__lowest_bit_bitmap`, the numbers of the lowest bits of all bytes, counted from 0 */
  function LowestBit(i: bv8): bv8 {
    match i >> 4
    case 0 => Row(i, 0, 0, 1, 0, 2, 0, 1, 0, 3, 0, 1, 0, 2, 0, 1, 0)
    case 1 => Row(i, 4, 0, 1, 0, 2, 0, 1, 0, 3, 0, 1, 0, 2, 0, 1, 0)
    case 2 => Row(i, 5, 0, 1, 0, 2, 0, 1, 0, 3, 0, 1, 0, 2, 0, 1, 0)
    case 3 => Row(i, 4, 0, 1, 0, 2, 0, 1, 0, 3, 0, 1, 0, 2, 0, 1, 0)
    case 4 => Row(i, 6, 0, 1, 0, 2, 0, 1, 0, 3, 0, 1, 0, 2, 0, 1, 0)
    case 5 => Row(i, 4, 0, 1, 0, 2, 0, 1, 0, 3, 0, 1, 0, 2, 0, 1, 0)
    case 6 => Row(i, 5, 0, 1, 0, 2, 0, 1, 0, 3, 0, 1, 0, 2, 0, 1, 0)
    case 7 => Row(i, 4, 0, 1, 0, 2, 0, 1, 0, 3, 0, 1, 0, 2, 0, 1, 0)
    case 8 => Row(i, 7, 0, 1, 0, 2, 0, 1, 0, 3, 0, 1, 0, 2, 0, 1, 0)
    case 9 => Row(i, 4, 0, 1, 0, 2, 0, 1, 0, 3, 0, 1, 0, 2, 0, 1, 0)
    case 10 => Row(i, 5, 0, 1, 0, 2, 0, 1, 0, 3, 0, 1, 0, 2, 0, 1, 0)
    case 11 => Row(i, 4, 0, 1, 0, 2, 0, 1, 0, 3, 0, 1, 0, 2, 0, 1, 0)
    case 12 => Row(i, 6, 0, 1, 0, 2, 0, 1, 0, 3, 0, 1, 0, 2, 0, 1, 0)
    case 13 => Row(i, 4, 0, 1, 0, 2, 0, 1, 0, 3, 0, 1, 0, 2, 0, 1, 0)
    case 14 => Row(i, 5, 0, 1, 0, 2, 0, 1, 0, 3, 0, 1, 0, 2, 0, 1, 0)
    case _ => Row(i, 4, 0, 1, 0, 2, 0, 1, 0, 3, 0, 1, 0, 2, 0, 1, 0)
  }

  lemma LowestBitOf(i: bv8)
    requires i != 0
    ensures LowestBit(i) < 8 && i & (1 << LowestBit(i)) != 0 && i & ((1 << LowestBit(i)) - 1) == 0
  {
  }

  /** `__rt_ffs` */
  function Ffs(v: bv32): bv8 {
    if v == 0 then 0
    else if v & 0xFF != 0 then LowestBit((v & 0xFF) as bv8) + 1
    else if v & 0xFF00 != 0 then LowestBit(((v & 0xFF00) >> 8) as bv8) + 9
    else if v & 0xFF0000 != 0 then LowestBit(((v & 0xFF0000) >> 16) as bv8) + 17
    else LowestBit(((v & 0xFF000000) >> 24) as bv8) + 25
  }

  lemma FfsFinds(v: bv32)
    ensures IsFirst(v, Ffs(v))
  {
    if v == 0 {
    } else if v & 0xFF != 0 {
      LowestBitOf((v & 0xFF) as bv8);
    } else if v & 0xFF00 != 0 {
      LowestBitOf(((v & 0xFF00) >> 8) as bv8);
    } else if v & 0xFF0000 != 0 {
      LowestBitOf(((v & 0xFF0000) >> 16) as bv8);
    } else {
      LowestBitOf(((v & 0xFF000000) >> 24) as bv8);
    }
  }

  // ---------- the tiny form ----------

  /** `__lowest_bit_bitmap` of the tiny form, 37 entries */
  function TinyBitmap(i: bv8): bv8 {
    match i >> 4
    case 0 => Row(i, 0, 1, 2, 27, 3, 24, 28, 32, 4, 17, 25, 31, 29, 12, 32, 14)
    case 1 => Row(i, 5, 8, 18, 32, 26, 23, 32, 16, 30, 11, 13, 7, 32, 22, 15, 10)
    case _ => Row(i, 6, 21, 9, 20, 19, 0, 0, 0, 0, 0, 0, 0, 0, 0, 0, 0)
  }

  /** `__rt_ffs` with RT_USING_TINY_FFS */
  function TinyFfs(v: bv32): bv8 {
    TinyBitmap((((v & (v - 1)) ^ v) % 37) as bv8)
  }

  lemma LowestIsolated(v: bv32, r: bv8)
    requires v != 0 && IsFirst(v, r)
    ensures (v & (v - 1)) ^ v == 1 << (r - 1)
  {
  }

  /** The powers of two have different remainders, and the table turns each back into its exponent. */
  lemma TinyAt(w: bv32, r: bv8)
    requires 1 <= r <= 32 && w == 1 << (r - 1)
    ensures TinyBitmap((w % 37) as bv8) == r
  {
    if r == 1 { assert w == 0x1 && (0x1 as bv32) % 37 == 1; }
    else if r == 2 { assert w == 0x2 && (0x2 as bv32) % 37 == 2; }
    else if r == 3 { assert w == 0x4 && (0x4 as bv32) % 37 == 4; }
    else if r == 4 { assert w == 0x8 && (0x8 as bv32) % 37 == 8; }
    else if r == 5 { assert w == 0x10 && (0x10 as bv32) % 37 == 16; }
    else if r == 6 { assert w == 0x20 && (0x20 as bv32) % 37 == 32; }
    else if r == 7 { assert w == 0x40 && (0x40 as bv32) % 37 == 27; }
    else if r == 8 { assert w == 0x80 && (0x80 as bv32) % 37 == 17; }
    else if r == 9 { assert w == 0x100 && (0x100 as bv32) % 37 == 34; }
    else if r == 10 { assert w == 0x200 && (0x200 as bv32) % 37 == 31; }
    else if r == 11 { assert w == 0x400 && (0x400 as bv32) % 37 == 25; }
    else if r == 12 { assert w == 0x800 && (0x800 as bv32) % 37 == 13; }
    else if r == 13 { assert w == 0x1000 && (0x1000 as bv32) % 37 == 26; }
    else if r == 14 { assert w == 0x2000 && (0x2000 as bv32) % 37 == 15; }
    else if r == 15 { assert w == 0x4000 && (0x4000 as bv32) % 37 == 30; }
    else if r == 16 { assert w == 0x8000 && (0x8000 as bv32) % 37 == 23; }
    else if r == 17 { assert w == 0x10000 && (0x10000 as bv32) % 37 == 9; }
    else if r == 18 { assert w == 0x20000 && (0x20000 as bv32) % 37 == 18; }
    else if r == 19 { assert w == 0x40000 && (0x40000 as bv32) % 37 == 36; }
    else if r == 20 { assert w == 0x80000 && (0x80000 as bv32) % 37 == 35; }
    else if r == 21 { assert w == 0x100000 && (0x100000 as bv32) % 37 == 33; }
    else if r == 22 { assert w == 0x200000 && (0x200000 as bv32) % 37 == 29; }
    else if r == 23 { assert w == 0x400000 && (0x400000 as bv32) % 37 == 21; }
    else if r == 24 { assert w == 0x800000 && (0x800000 as bv32) % 37 == 5; }
    else if r == 25 { assert w == 0x1000000 && (0x1000000 as bv32) % 37 == 10; }
    else if r == 26 { assert w == 0x2000000 && (0x2000000 as bv32) % 37 == 20; }
    else if r == 27 { assert w == 0x4000000 && (0x4000000 as bv32) % 37 == 3; }
    else if r == 28 { assert w == 0x8000000 && (0x8000000 as bv32) % 37 == 6; }
    else if r == 29 { assert w == 0x10000000 && (0x10000000 as bv32) % 37 == 12; }
    else if r == 30 { assert w == 0x20000000 && (0x20000000 as bv32) % 37 == 24; }
    else if r == 31 { assert w == 0x40000000 && (0x40000000 as bv32) % 37 == 11; }
    else if r == 32 { assert w == 0x80000000 && (0x80000000 as bv32) % 37 == 22; }
  }

  /** Both forms of `__rt_ffs` give the same result for every word. */
  lemma FormsAgree(v: bv32)
    ensures TinyFfs(v) == Ffs(v)
  {
    FfsFinds(v);
    if v == 0 {
      assert (0 as bv32 & (0 - 1)) ^ 0 == 0;
    } else {
      LowestIsolated(v, Ffs(v));
      TinyAt((v & (v - 1)) ^ v, Ffs(v));
    }
  }
}
