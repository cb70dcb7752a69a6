/**
  Numbers written as digits and read back (rt-thread/src/kservice.c: `divide`, `skip_atoi`, and the
  digit loop of `print_number`).
 */
module Numerals {
  predicate IsBase(base: nat) {
    base == 2 || base == 8 || base == 10 || base == 16
  }

  function Digit(d: nat, large: bool): (c: char)
    requires d < 16
  {
    if large then "0123456789ABCDEF"[d] else "0123456789abcdef"[d]
  }

  /** What a digit stands for, in either case of letters. */
  function DigitValue(c: char): nat {
    if '0' <= c <= '9' then (c - '0') as nat
    else if 'a' <= c <= 'f' then 10 + (c - 'a') as nat
    else if 'A' <= c <= 'F' then 10 + (c - 'A') as nat
    else 0
  }

  /** `_ISDIGIT` */
  predicate IsDigit(c: char) {
    '0' <= c <= '9'
  }

  predicate AllDigits(s: string) {
    forall i :: 0 <= i < |s| ==> IsDigit(s[i])
  }

  /** The number that a string of digits stands for. */
  function ValueOf(s: string, base: nat): nat {
    if s == [] then 0 else ValueOf(s[..|s| - 1], base) * base + DigitValue(s[|s| - 1])
  }

  /** The quotient and the remainder of `divide`, for each base in use. */
  function Quotient(num: nat, base: nat): nat
    requires IsBase(base)
  {
    if base == 2 then num / 2 else if base == 8 then num / 8 else if base == 10 then num / 10 else num / 16
  }

  function Remainder(num: nat, base: nat): nat
    requires IsBase(base)
  {
    if base == 2 then num % 2 else if base == 8 then num % 8 else if base == 10 then num % 10 else num % 16
  }

  /** The digits of a number above 0; no digit for 0. */
  function Places(num: nat, base: nat, large: bool): string
    requires IsBase(base)
  {
    if num == 0 then [] else Places(Quotient(num, base), base, large) + [Digit(Remainder(num, base), large)]
  }

  function Numeral(num: nat, base: nat, large: bool): string
    requires IsBase(base)
  {
    if num == 0 then "0" else Places(num, base, large)
  }

  lemma Divides(num: nat, base: nat)
    requires IsBase(base)
    ensures Quotient(num, base) == num / base && Remainder(num, base) == num % base
    ensures num == Quotient(num, base) * base + Remainder(num, base)
  {
  }

  lemma ValueAppend(s: string, c: char, base: nat)
    ensures ValueOf(s + [c], base) == ValueOf(s, base) * base + DigitValue(c)
  {
    assert (s + [c])[..|s|] == s;
  }

  lemma {:induction false} PlacesRead(num: nat, base: nat, large: bool)
    requires IsBase(base)
    ensures ValueOf(Places(num, base, large), base) == num
    ensures base == 10 ==> AllDigits(Places(num, base, large))
    ensures num > 0 ==> Places(num, base, large) != [] && Places(num, base, large)[0] != '0'
  {
    if num > 0 {
      Divides(num, base);
      var q, d := Quotient(num, base), Remainder(num, base);
      PlacesRead(q, base, large);
      ValueAppend(Places(q, base, large), Digit(d, large), base);
      DigitReads(d, large);
    }
  }

  lemma DigitReads(d: nat, large: bool)
    requires d < 16
    ensures DigitValue(Digit(d, large)) == d
    ensures d < 10 ==> IsDigit(Digit(d, large))
    ensures d > 0 ==> Digit(d, large) != '0'
  {
  }

  /** Reading back what was written gives the number, in every base and in either case. */
  lemma NumeralReadsBack(num: nat, base: nat, large: bool)
    requires IsBase(base)
    ensures ValueOf(Numeral(num, base, large), base) == num
    ensures Numeral(num, base, large) != []
    ensures base == 10 ==> AllDigits(Numeral(num, base, large))
    ensures num > 0 ==> Numeral(num, base, large)[0] != '0'
  {
    PlacesRead(num, base, large);
    if num == 0 {
      assert ValueOf("0"[..0], base) == 0;
    }
  }

  function Power2(n: nat): (p: nat)
    ensures p > 0
  {
    if n == 0 then 1 else 2 * Power2(n - 1)
  }

  lemma WordHas32Bits()
    ensures Power2(32) == 0x1_0000_0000
  {
    assert Power2(8) == 0x100 && Power2(16) == 0x1_0000 && Power2(24) == 0x100_0000;
  }

  function Repeat(c: char, n: int): (s: string)
    ensures |s| == if n < 0 then 0 else n
    ensures forall i :: 0 <= i < |s| ==> s[i] == c
  {
    if n <= 0 then [] else Repeat(c, n - 1) + [c]
  }

  lemma {:induction false} ZerosRead(n: int, s: string, base: nat)
    ensures ValueOf(Repeat('0', n) + s, base) == ValueOf(s, base)
    decreases |s|, n
  {
    var zs := Repeat('0', n);
    if s != [] {
      ZerosRead(n, s[..|s| - 1], base);
      assert (zs + s)[..|zs + s| - 1] == zs + s[..|s| - 1];
    } else {
      assert zs + s == zs;
      if n > 0 {
        ZerosRead(n - 1, s, base);
        assert zs[..|zs| - 1] == Repeat('0', n - 1) + s;
      }
    }
  }

  /** How many of the first characters are digits. */
  function DigitSpan(s: string): (n: nat)
    ensures n <= |s| && AllDigits(s[..n]) && (n < |s| ==> !IsDigit(s[n]))
  {
    if s != [] && IsDigit(s[0]) then
      assert s[..1 + DigitSpan(s[1..])] == [s[0]] + s[1..][..DigitSpan(s[1..])];
      1 + DigitSpan(s[1..])
    else 0
  }

  lemma {:induction false} SpanIs(s: string, rest: string)
    requires AllDigits(s) && (rest == [] || !IsDigit(rest[0]))
    ensures DigitSpan(s + rest) == |s|
  {
    if s == [] {
      assert s + rest == rest;
    } else {
      SpanIs(s[1..], rest);
      assert (s + rest)[1..] == s[1..] + rest;
    }
  }

  /** The number that starts a string, as `skip_atoi` reads it. */
  function Leading(s: string): nat {
    ValueOf(s[..DigitSpan(s)], 10)
  }

  /** `skip_atoi` recovers every number from its decimal digits, and from no more than those. */
  lemma LeadingReadsBack(num: nat, rest: string)
    requires rest == [] || !IsDigit(rest[0])
    ensures Leading(Numeral(num, 10, false) + rest) == num
    ensures DigitSpan(Numeral(num, 10, false) + rest) == |Numeral(num, 10, false)|
  {
    NumeralReadsBack(num, 10, false);
    SpanIs(Numeral(num, 10, false), rest);
    var s := Numeral(num, 10, false);
    assert (s + rest)[..|s|] == s;
  }

  const INT_MAX: nat := 0x7fff_ffff

  /** What `skip_atoi` adds up for digit `k`, before it subtracts '0', is an int. */
  predicate AddsUp(s: string, k: nat)
    requires k < |s|
  {
    ValueOf(s[..k], 10) * 10 + s[k] as nat <= INT_MAX
  }

  /** The sums of `skip_atoi` are ints, all of them, exactly for numbers that leave room for a '0': it overflows
      for the largest 48 ints already. */
  lemma AtoiFits(s: string)
    requires AllDigits(s) && s != []
    ensures (forall k :: 0 <= k < |s| ==> AddsUp(s, k)) <==> ValueOf(s, 10) <= INT_MAX - '0' as nat
  {
    var last := |s| - 1;
    assert s[..last] + [s[last]] == s;
    assert AddsUp(s, last) <==> ValueOf(s, 10) <= INT_MAX - '0' as nat;
    forall k | 0 <= k < |s| ensures ValueOf(s, 10) <= INT_MAX - '0' as nat ==> AddsUp(s, k) {
      PrefixIsLess(s, k + 1);
      assert s[..k + 1][..k] == s[..k];
    }
  }

  lemma {:induction false} PrefixIsLess(s: string, k: nat)
    requires k <= |s|
    ensures ValueOf(s[..k], 10) <= ValueOf(s, 10)
  {
    if k < |s| {
      PrefixIsLess(s[..|s| - 1], k);
      assert s[..|s| - 1][..k] == s[..k];
    } else {
      assert s[..k] == s;
    }
  }

  /** The largest int as a field width. */
  lemma LargestIntOverflows(rest: string)
    requires rest == [] || !IsDigit(rest[0])
    ensures var s := Numeral(INT_MAX, 10, false);
      Leading(s + rest) == INT_MAX && AllDigits(s) && exists k :: 0 <= k < |s| && !AddsUp(s, k)
  {
    LeadingReadsBack(INT_MAX, rest);
    NumeralReadsBack(INT_MAX, 10, false);
    AtoiFits(Numeral(INT_MAX, 10, false));
  }

  function Reversed(s: string): (r: string)
    ensures |r| == |s|
  {
    if s == [] then [] else [s[|s| - 1]] + Reversed(s[..|s| - 1])
  }

  lemma ReversedAppend(before: string, c: char, s: string)
    ensures before + Reversed(s + [c]) == before + [c] + Reversed(s)
  {
    assert (s + [c])[..|s|] == s;
  }

  /** The digits stored so far complete those of `num` to the digits of `word`. */
  ghost predicate Reaches(done: string, num: nat, word: nat, base: nat, large: bool)
    requires IsBase(base)
  {
    Places(num, base, large) + Reversed(done) == Places(word, base, large)
  }

  /** What the digit loop keeps: the places that are left are enough for `num`. */
  ghost predicate Halfway(done: string, num: nat, left: nat, word: nat, base: nat, large: bool)
    requires IsBase(base)
  {
    |done| + left == 32 && num < Power2(left) && (num == 0 ==> done != []) && Reaches(done, num, word, base, large)
  }

  lemma Begin(word: nat, base: nat, large: bool)
    requires IsBase(base) && 0 < word < 0x1_0000_0000
    ensures Halfway([], word, 32, word, base, large)
  {
    WordHas32Bits();
  }

  lemma NextPlace(num: nat, base: nat, large: bool, done: string, left: nat, word: nat)
    requires IsBase(base) && 0 < num && Halfway(done, num, left, word, base, large)
    ensures left > 0 && Remainder(num, base) < 16
    ensures Halfway(done + [Digit(Remainder(num, base), large)], Quotient(num, base), left - 1, word, base, large)
  {
    ReversedAppend(Places(Quotient(num, base), base, large), Digit(Remainder(num, base), large), done);
  }

  lemma AllPlaces(done: string, left: nat, word: nat, base: nat, large: bool)
    requires IsBase(base) && 0 < word && Halfway(done, 0, left, word, base, large)
    ensures Reversed(done) == Numeral(word, base, large) && 0 < |done| <= 32
  {
    assert Places(0, base, large) + Reversed(done) == Reversed(done);
  }

  /** The digit loop of `print_number`: the digits go to `tmp`, the lowest first. A word never needs
      more than the 32 places of `tmp`, even in base 2. */
  method Convert(word: nat, base: nat, large: bool) returns (tmp: array<char>, i: nat)
    requires IsBase(base) && word < 0x1_0000_0000
    ensures fresh(tmp) && tmp.Length == 32 && 0 < i <= 32
    ensures Reversed(tmp[..i]) == Numeral(word, base, large)
  {
    tmp := new char[32](_ => '\0');
    i := 0;
    if word == 0 {
      tmp[0] := '0';
      i := 1;
      assert tmp[..1] == ['0'];
      assert Reversed(['0']) == ['0'] + Reversed([]);
    } else {
      i := PutPlaces(tmp, word, base, large);
    }
  }

  method PutPlaces(tmp: array<char>, word: nat, base: nat, large: bool) returns (i: nat)
    requires IsBase(base) && 0 < word < 0x1_0000_0000 && tmp.Length == 32
    modifies tmp
    ensures 0 < i <= 32 && Reversed(tmp[..i]) == Numeral(word, base, large)
  {
    i := 0;
    var num: nat := word;
    ghost var left := 32;
    Begin(word, base, large);
    assert tmp[..i] == [];
    while num != 0
      invariant i <= 32 && left >= 0 && Halfway(tmp[..i], num, left, word, base, large)
    {
      NextPlace(num, base, large, tmp[..i], left, word);
      num := PutPlace(tmp, i, num, base, large);
      i, left := i + 1, left - 1;
    }
    AllPlaces(tmp[..i], left, word, base, large);
  }

  method PutPlace(tmp: array<char>, i: nat, num: nat, base: nat, large: bool) returns (rest: nat)
    requires IsBase(base) && i < tmp.Length && Remainder(num, base) < 16
    modifies tmp
    ensures rest == Quotient(num, base) && (num > 0 ==> rest < num)
    ensures tmp[..i + 1] == old(tmp[..i]) + [Digit(Remainder(num, base), large)]
  {
    tmp[i] := Digit(Remainder(num, base), large);
    rest := Quotient(num, base);
  }
}
