/**
  The CRC of the MODBUS frames (applications/crc16.c): two tables of bytes against the bitwise
  definition of section 6.2.2 of the MODBUS over Serial Line Specification V1.02.
 */
module Crc16 {
  import opened Tables

  // ---------- the bitwise definition ----------

  const POLYNOMIAL: bv16 := 0xA001
  const INITIAL: bv16 := 0xFFFF

  function Shift(c: bv16): bv16 { if c & 1 == 1 then (c >> 1) ^ POLYNOMIAL else c >> 1 }

  function Shifts(c: bv16, n: nat): bv16
    decreases n, c
  {
    if n == 0 then c else Shifts(Shift(c), n - 1)
  }

  function Step(c: bv16, b: bv8): bv16 { Shifts(c ^ (b as bv16), 8) }

  /** The register after all bytes of `data`. */
  function Register(c: bv16, data: seq<bv8>): bv16
    decreases |data|
  {
    if data == [] then c else Register(Step(c, data[0]), data[1..])
  }

  function Bitwise(data: seq<bv8>): bv16 { Register(INITIAL, data) }

  function Low(c: bv16): bv8 { (c & 0xFF) as bv8 }

  function High(c: bv16): bv8 { (c >> 8) as bv8 }

  function Word(high: bv8, low: bv8): bv16 { ((high as bv16) << 8) | (low as bv16) }

  /** Eight shifts of a byte in closed form. */
  function Entry(i: bv8): bv16 {
    var y := i ^ (i >> 4);
    var z := y ^ (y >> 2);
    (if (z ^ (z >> 1)) & 1 == 1 then 0xC001 else 0) ^ ((i as bv16) << 6) ^ ((i as bv16) << 7)
  }

  lemma EntryIsShifted(i: bv8)
    ensures Shifts(i as bv16, 8) == Entry(i)
  {
    ShiftByLowByte(i as bv16, i);
  }

  /** Shifting eight times only looks at the low byte. */
  lemma ShiftByLowByte(c: bv16, i: bv8)
    requires i == Low(c)
    ensures Shifts(c, 8) == (c >> 8) ^ Entry(i)
  {
    var c1 := Shift(c);
    var c2 := Shift(c1);
    var c3 := Shift(c2);
    var c4 := Shift(c3);
    assert Shifts(c, 8) == Shifts(c1, 7) == Shifts(c2, 6) == Shifts(c3, 5) == Shifts(c4, 4);
    var c5 := Shift(c4);
    var c6 := Shift(c5);
    var c7 := Shift(c6);
    assert Shifts(c4, 4) == Shifts(c5, 3) == Shifts(c6, 2) == Shifts(c7, 1) == Shift(c7);
    FourShifts(c, c1, c2, c3, c4);
    FourShifts(c4, c5, c6, c7, Shift(c7));
    TwoNibbles(c, c4, Shift(c7), i);
  }

  /** What four shifts add to the bits above the low four. */
  function Nibble(c: bv16): bv16 {
    (if c & 1 == 1 then 0xCC01 else 0) ^ (if c & 2 == 2 then 0xD801 else 0) ^ (if c & 4 == 4 then 0xF001 else 0)
    ^ (if c & 8 == 8 then 0xA001 else 0)
  }

  lemma FourShifts(c: bv16, c1: bv16, c2: bv16, c3: bv16, c4: bv16)
    requires c1 == Shift(c) && c2 == Shift(c1) && c3 == Shift(c2) && c4 == Shift(c3)
    ensures c4 == (c >> 4) ^ Nibble(c)
  {
  }

  lemma TwoNibbles(c: bv16, d: bv16, e: bv16, i: bv8)
    requires i == Low(c) && d == (c >> 4) ^ Nibble(c) && e == (d >> 4) ^ Nibble(d)
    ensures e == (c >> 8) ^ Entry(i)
  {
    // the low four bits, one by one
    if c & 1 == 1 {
      if c & 2 == 2 { if c & 4 == 4 {} else {} } else { if c & 4 == 4 {} else {} }
    } else {
      if c & 2 == 2 { if c & 4 == 4 {} else {} } else { if c & 4 == 4 {} else {} }
    }
  }

  // ---------- the tables ----------

  /** `_table_crc_hi` */
  function TableHi(i: bv8): bv8 {
    match i >> 4
    case 0 => Row(i, 0x00, 0xC1, 0x81, 0x40, 0x01, 0xC0, 0x80, 0x41, 0x01, 0xC0, 0x80, 0x41, 0x00, 0xC1, 0x81, 0x40)
    case 1 => Row(i, 0x01, 0xC0, 0x80, 0x41, 0x00, 0xC1, 0x81, 0x40, 0x00, 0xC1, 0x81, 0x40, 0x01, 0xC0, 0x80, 0x41)
    case 2 => Row(i, 0x01, 0xC0, 0x80, 0x41, 0x00, 0xC1, 0x81, 0x40, 0x00, 0xC1, 0x81, 0x40, 0x01, 0xC0, 0x80, 0x41)
    case 3 => Row(i, 0x00, 0xC1, 0x81, 0x40, 0x01, 0xC0, 0x80, 0x41, 0x01, 0xC0, 0x80, 0x41, 0x00, 0xC1, 0x81, 0x40)
    case 4 => Row(i, 0x01, 0xC0, 0x80, 0x41, 0x00, 0xC1, 0x81, 0x40, 0x00, 0xC1, 0x81, 0x40, 0x01, 0xC0, 0x80, 0x41)
    case 5 => Row(i, 0x00, 0xC1, 0x81, 0x40, 0x01, 0xC0, 0x80, 0x41, 0x01, 0xC0, 0x80, 0x41, 0x00, 0xC1, 0x81, 0x40)
    case 6 => Row(i, 0x00, 0xC1, 0x81, 0x40, 0x01, 0xC0, 0x80, 0x41, 0x01, 0xC0, 0x80, 0x41, 0x00, 0xC1, 0x81, 0x40)
    case 7 => Row(i, 0x01, 0xC0, 0x80, 0x41, 0x00, 0xC1, 0x81, 0x40, 0x00, 0xC1, 0x81, 0x40, 0x01, 0xC0, 0x80, 0x41)
    case 8 => Row(i, 0x01, 0xC0, 0x80, 0x41, 0x00, 0xC1, 0x81, 0x40, 0x00, 0xC1, 0x81, 0x40, 0x01, 0xC0, 0x80, 0x41)
    case 9 => Row(i, 0x00, 0xC1, 0x81, 0x40, 0x01, 0xC0, 0x80, 0x41, 0x01, 0xC0, 0x80, 0x41, 0x00, 0xC1, 0x81, 0x40)
    case 10 => Row(i, 0x00, 0xC1, 0x81, 0x40, 0x01, 0xC0, 0x80, 0x41, 0x01, 0xC0, 0x80, 0x41, 0x00, 0xC1, 0x81, 0x40)
    case 11 => Row(i, 0x01, 0xC0, 0x80, 0x41, 0x00, 0xC1, 0x81, 0x40, 0x00, 0xC1, 0x81, 0x40, 0x01, 0xC0, 0x80, 0x41)
    case 12 => Row(i, 0x00, 0xC1, 0x81, 0x40, 0x01, 0xC0, 0x80, 0x41, 0x01, 0xC0, 0x80, 0x41, 0x00, 0xC1, 0x81, 0x40)
    case 13 => Row(i, 0x01, 0xC0, 0x80, 0x41, 0x00, 0xC1, 0x81, 0x40, 0x00, 0xC1, 0x81, 0x40, 0x01, 0xC0, 0x80, 0x41)
    case 14 => Row(i, 0x01, 0xC0, 0x80, 0x41, 0x00, 0xC1, 0x81, 0x40, 0x00, 0xC1, 0x81, 0x40, 0x01, 0xC0, 0x80, 0x41)
    case _ => Row(i, 0x00, 0xC1, 0x81, 0x40, 0x01, 0xC0, 0x80, 0x41, 0x01, 0xC0, 0x80, 0x41, 0x00, 0xC1, 0x81, 0x40)
  }

  /** `_table_crc_lo` */
  function TableLo(i: bv8): bv8 {
    match i >> 4
    case 0 => Row(i, 0x00, 0xC0, 0xC1, 0x01, 0xC3, 0x03, 0x02, 0xC2, 0xC6, 0x06, 0x07, 0xC7, 0x05, 0xC5, 0xC4, 0x04)
    case 1 => Row(i, 0xCC, 0x0C, 0x0D, 0xCD, 0x0F, 0xCF, 0xCE, 0x0E, 0x0A, 0xCA, 0xCB, 0x0B, 0xC9, 0x09, 0x08, 0xC8)
    case 2 => Row(i, 0xD8, 0x18, 0x19, 0xD9, 0x1B, 0xDB, 0xDA, 0x1A, 0x1E, 0xDE, 0xDF, 0x1F, 0xDD, 0x1D, 0x1C, 0xDC)
    case 3 => Row(i, 0x14, 0xD4, 0xD5, 0x15, 0xD7, 0x17, 0x16, 0xD6, 0xD2, 0x12, 0x13, 0xD3, 0x11, 0xD1, 0xD0, 0x10)
    case 4 => Row(i, 0xF0, 0x30, 0x31, 0xF1, 0x33, 0xF3, 0xF2, 0x32, 0x36, 0xF6, 0xF7, 0x37, 0xF5, 0x35, 0x34, 0xF4)
    case 5 => Row(i, 0x3C, 0xFC, 0xFD, 0x3D, 0xFF, 0x3F, 0x3E, 0xFE, 0xFA, 0x3A, 0x3B, 0xFB, 0x39, 0xF9, 0xF8, 0x38)
    case 6 => Row(i, 0x28, 0xE8, 0xE9, 0x29, 0xEB, 0x2B, 0x2A, 0xEA, 0xEE, 0x2E, 0x2F, 0xEF, 0x2D, 0xED, 0xEC, 0x2C)
    case 7 => Row(i, 0xE4, 0x24, 0x25, 0xE5, 0x27, 0xE7, 0xE6, 0x26, 0x22, 0xE2, 0xE3, 0x23, 0xE1, 0x21, 0x20, 0xE0)
    case 8 => Row(i, 0xA0, 0x60, 0x61, 0xA1, 0x63, 0xA3, 0xA2, 0x62, 0x66, 0xA6, 0xA7, 0x67, 0xA5, 0x65, 0x64, 0xA4)
    case 9 => Row(i, 0x6C, 0xAC, 0xAD, 0x6D, 0xAF, 0x6F, 0x6E, 0xAE, 0xAA, 0x6A, 0x6B, 0xAB, 0x69, 0xA9, 0xA8, 0x68)
    case 10 => Row(i, 0x78, 0xB8, 0xB9, 0x79, 0xBB, 0x7B, 0x7A, 0xBA, 0xBE, 0x7E, 0x7F, 0xBF, 0x7D, 0xBD, 0xBC, 0x7C)
    case 11 => Row(i, 0xB4, 0x74, 0x75, 0xB5, 0x77, 0xB7, 0xB6, 0x76, 0x72, 0xB2, 0xB3, 0x73, 0xB1, 0x71, 0x70, 0xB0)
    case 12 => Row(i, 0x50, 0x90, 0x91, 0x51, 0x93, 0x53, 0x52, 0x92, 0x96, 0x56, 0x57, 0x97, 0x55, 0x95, 0x94, 0x54)
    case 13 => Row(i, 0x9C, 0x5C, 0x5D, 0x9D, 0x5F, 0x9F, 0x9E, 0x5E, 0x5A, 0x9A, 0x9B, 0x5B, 0x99, 0x59, 0x58, 0x98)
    case 14 => Row(i, 0x88, 0x48, 0x49, 0x89, 0x4B, 0x8B, 0x8A, 0x4A, 0x4E, 0x8E, 0x8F, 0x4F, 0x8D, 0x4D, 0x4C, 0x8C)
    case _ => Row(i, 0x44, 0x84, 0x85, 0x45, 0x87, 0x47, 0x46, 0x86, 0x82, 0x42, 0x43, 0x83, 0x41, 0x81, 0x80, 0x40)
  }

  /** The tables hold the bytes of eight shifts. */
  lemma TablesAreShifts(i: bv8)
    ensures Word(TableLo(i), TableHi(i)) == Shifts(i as bv16, 8)
  {
    EntryIsShifted(i);
    TableHiRight(i);
    TableLoRight(i);
  }

  lemma TableHiRight(i: bv8)
    ensures TableHi(i) == Low(Entry(i))
  {
  }

  lemma TableLoRight(i: bv8)
    ensures TableLo(i) == High(Entry(i))
  {
  }

  // ---------- crc16 ----------

  lemma RoundParts(hi: bv8, lo: bv8, b: bv8, e: bv16)
    ensures Word(High(e), lo ^ Low(e)) == ((Word(lo, hi) ^ (b as bv16)) >> 8) ^ e
  {
  }

  lemma RoundIndex(hi: bv8, lo: bv8, b: bv8)
    ensures Low(Word(lo, hi) ^ (b as bv16)) == hi ^ b
  {
  }

  /** One round of the loop is one byte of the bitwise definition, with the bytes exchanged. */
  lemma RoundIsStep(hi: bv8, lo: bv8, b: bv8, i: bv8)
    requires i == Low(Word(lo, hi) ^ (b as bv16))
    ensures Word(High(Entry(i)), lo ^ Low(Entry(i))) == Step(Word(lo, hi), b)
  {
    RoundParts(hi, lo, b, Entry(i));
    ShiftByLowByte(Word(lo, hi) ^ (b as bv16), i);
  }

  lemma {:induction false} RegisterAppend(c: bv16, data: seq<bv8>, more: seq<bv8>)
    ensures Register(c, data + more) == Register(Register(c, data), more)
    decreases |data|
  {
    if data == [] {
      assert data + more == more;
    } else {
      assert (data + more)[1..] == data[1..] + more;
      RegisterAppend(Step(c, data[0]), data[1..], more);
    }
  }

  function Swapped(c: bv16): bv16 { Word(Low(c), High(c)) }

  /** `crc16` */
  method Compute(buffer: seq<bv8>) returns (crc: bv16)
    ensures crc == Swapped(Bitwise(buffer))
  {
    var hi: bv8, lo: bv8 := 0xFF, 0xFF;
    var k := 0;
    while k < |buffer|
      invariant k <= |buffer|
      invariant Word(lo, hi) == Register(INITIAL, buffer[..k])
    {
      var i := hi ^ buffer[k];
      Round(buffer, k, hi, lo, i);
      hi := lo ^ TableHi(i);
      lo := TableLo(i);
      k := k + 1;
    }
    assert buffer[..k] == buffer;
    WordBytes(hi, lo);
    return Word(hi, lo);
  }

  lemma Round(buffer: seq<bv8>, k: nat, hi: bv8, lo: bv8, i: bv8)
    requires k < |buffer| && Word(lo, hi) == Register(INITIAL, buffer[..k]) && i == hi ^ buffer[k]
    ensures Word(TableLo(i), lo ^ TableHi(i)) == Register(INITIAL, buffer[..k + 1])
  {
    var c := Register(INITIAL, buffer[..k]);
    RoundTables(hi, lo, buffer[k], i);
    RegisterAppend(INITIAL, buffer[..k], [buffer[k]]);
    assert buffer[..k + 1] == buffer[..k] + [buffer[k]];
    OneByte(c, buffer[k]);
  }

  lemma OneByte(c: bv16, b: bv8)
    ensures Register(c, [b]) == Step(c, b)
  {
    assert [b][1..] == [];
    assert Register(Step(c, b), []) == Step(c, b);
  }

  lemma RoundTables(hi: bv8, lo: bv8, b: bv8, i: bv8)
    requires i == hi ^ b
    ensures Word(TableLo(i), lo ^ TableHi(i)) == Step(Word(lo, hi), b)
  {
    TableHiRight(i);
    TableLoRight(i);
    RoundIndex(hi, lo, b);
    RoundIsStep(hi, lo, b, i);
  }

  lemma WordBytes(hi: bv8, lo: bv8)
    ensures Swapped(Word(lo, hi)) == Word(hi, lo)
  {
  }

  // ---------- what the CRC detects ----------

  lemma StepInjective(c: bv16, d: bv16, b: bv8)
    requires Step(c, b) == Step(d, b)
    ensures c == d
  {
    ShiftsInjective(c ^ (b as bv16), d ^ (b as bv16));
  }

  lemma ShiftsInjective(c: bv16, d: bv16)
    requires Shifts(c, 8) == Shifts(d, 8)
    ensures c == d
  {
    ShiftByLowByte(c, Low(c));
    ShiftByLowByte(d, Low(d));
  }

  /** Two bytes go into the register as one word. */
  lemma TwoSteps(c: bv16, a: bv8, b: bv8)
    ensures Step(Step(c, a), b) == Shifts(Shifts(c ^ Word(b, a), 8), 8)
  {
    var x := c ^ (a as bv16);
    TwoParts(c, a, b, Entry(Low(x)));
    ShiftByLowByte(x, Low(x));
    ShiftByLowByte(c ^ Word(b, a), Low(x));
  }

  lemma TwoParts(c: bv16, a: bv8, b: bv8, e: bv16)
    ensures Low(c ^ Word(b, a)) == Low(c ^ (a as bv16))
    ensures ((c ^ Word(b, a)) >> 8) ^ e == ((c ^ (a as bv16)) >> 8) ^ e ^ (b as bv16)
  {
  }

  lemma {:induction false} RegisterInjective(c: bv16, d: bv16, data: seq<bv8>)
    requires c != d
    ensures Register(c, data) != Register(d, data)
    decreases |data|
  {
    if data != [] {
      if Step(c, data[0]) == Step(d, data[0]) {
        StepInjective(c, d, data[0]);
      }
      RegisterInjective(Step(c, data[0]), Step(d, data[0]), data[1..]);
    }
  }

  lemma WordInjective(c: bv16, a: bv8, b: bv8, a': bv8, b': bv8)
    requires c ^ Word(b, a) == c ^ Word(b', a')
    ensures a == a' && b == b'
  {
  }

  /** From the same register, different pairs of bytes lead to different registers. */
  lemma PairInjective(c: bv16, a: bv8, b: bv8, a': bv8, b': bv8)
    requires a != a' || b != b'
    ensures Register(c, [a, b]) != Register(c, [a', b'])
  {
    RegisterOfPair(c, a, b);
    RegisterOfPair(c, a', b');
    if Register(c, [a, b]) == Register(c, [a', b']) {
      ShiftsInjective(Shifts(c ^ Word(b, a), 8), Shifts(c ^ Word(b', a'), 8));
      ShiftsInjective(c ^ Word(b, a), c ^ Word(b', a'));
      WordInjective(c, a, b, a', b');
    }
  }

  lemma RegisterOfPair(c: bv16, a: bv8, b: bv8)
    ensures Register(c, [a, b]) == Shifts(Shifts(c ^ Word(b, a), 8), 8)
  {
    TwoSteps(c, a, b);
    assert [a, b][1..] == [b] && [b][1..] == [];
    assert Register(Step(c, a), [b]) == Step(Step(c, a), b);
  }

  /** Every error within two neighbouring bytes is detected: two messages of equal length that differ,
      but only there, have different CRCs. */
  lemma NeighbouringErrorDetected(m: seq<bv8>, m': seq<bv8>, k: nat)
    requires |m| == |m'| && m != m' && k < |m|
    requires forall j :: 0 <= j < |m| && j != k && j != k + 1 ==> m[j] == m'[j]
    ensures Swapped(Bitwise(m)) != Swapped(Bitwise(m'))
  {
    if Swapped(Bitwise(m)) == Swapped(Bitwise(m')) {
      SwappedInjective(Bitwise(m), Bitwise(m'));
    }
    var p := m[..k];
    if k + 1 == |m| {
      assert m == p + [m[k]] && m' == p + [m'[k]];
      RegisterAppend(INITIAL, p, [m[k]]);
      RegisterAppend(INITIAL, p, [m'[k]]);
      ByteInjective(Register(INITIAL, p), m[k], m'[k]);
      return;
    }
    var s := m[k + 2..];
    assert m == p + ([m[k], m[k + 1]] + s);
    assert m' == p + ([m'[k], m'[k + 1]] + s);
    var c := Register(INITIAL, p);
    RegisterAppend(INITIAL, p, [m[k], m[k + 1]] + s);
    RegisterAppend(INITIAL, p, [m'[k], m'[k + 1]] + s);
    RegisterAppend(c, [m[k], m[k + 1]], s);
    RegisterAppend(c, [m'[k], m'[k + 1]], s);
    PairInjective(c, m[k], m[k + 1], m'[k], m'[k + 1]);
    RegisterInjective(Register(c, [m[k], m[k + 1]]), Register(c, [m'[k], m'[k + 1]]), s);
  }

  lemma ByteInjective(c: bv16, a: bv8, a': bv8)
    requires a != a'
    ensures Register(c, [a]) != Register(c, [a'])
  {
    assert [a][1..] == [] && [a'][1..] == [];
    if Step(c, a) == Step(c, a') {
      ShiftsInjective(c ^ (a as bv16), c ^ (a' as bv16));
      DifferentBytes(c, a, a');
    }
  }

  lemma DifferentBytes(c: bv16, a: bv8, a': bv8)
    requires a != a'
    ensures c ^ (a as bv16) != c ^ (a' as bv16)
  {
  }

  lemma SwappedInjective(c: bv16, d: bv16)
    requires Swapped(c) == Swapped(d)
    ensures c == d
  {
  }

  /** What a receiver relies on: the CRC of a frame is zero exactly if the frame ends in the CRC of
      its message, sent with the byte first that the program returns as the high one. */
  lemma FrameChecks(m: seq<bv8>, a: bv8, b: bv8)
    ensures Bitwise(m + [a, b]) == 0 <==> Word(a, b) == Swapped(Bitwise(m))
  {
    var c := Bitwise(m);
    RegisterAppend(INITIAL, m, [a, b]);
    RegisterOfPair(c, Low(c), High(c));
    SameWord(c);
    ZeroShifts();
    if Word(a, b) == Swapped(c) {
      PairOfSwapped(c, a, b);
    } else if Register(c, [a, b]) == 0 {
      PairInjective(c, a, b, Low(c), High(c));
    }
  }

  lemma SameWord(c: bv16)
    ensures c ^ Word(High(c), Low(c)) == 0
  {
  }

  lemma PairOfSwapped(c: bv16, a: bv8, b: bv8)
    requires Word(a, b) == Swapped(c)
    ensures a == Low(c) && b == High(c)
  {
  }

  lemma ZeroShifts()
    ensures Shifts(0, 8) == 0
  {
    ShiftByLowByte(0, 0);
  }
}
