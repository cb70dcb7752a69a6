/**
  What `print_number` writes (rt-thread/src/kservice.c), for 32-bit words, with `RT_PRINTF_PRECISION`
  and `RT_PRINTF_SPECIAL`.
 */
module NumberFields {
  import opened Wrappers
  import opened Numerals

  const WORDS := 0x1_0000_0000

  type Word = n: nat | n < 0x1_0000_0000

  datatype Flags = Flags(zeropad: bool, sign: bool, plus: bool, space: bool, left: bool, special: bool, large: bool)

  const NoFlags := Flags(false, false, false, false, false, false, false)

  datatype Qualifier = NoQualifier | Short | Long

  /** `(rt_int32_t)num` */
  function Signed(num: Word): int {
    if num < 0x8000_0000 then num else num - WORDS
  }

  /** `(rt_int16_t)num` */
  function SignedHalf(num: nat): int {
    if num % 0x1_0000 < 0x8000 then num % 0x1_0000 else num % 0x1_0000 - 0x1_0000
  }

  /** The number that a word stands for with the given flags and qualifier. */
  function Meant(num: Word, qualifier: Qualifier, flags: Flags): int {
    if !flags.sign then num
    else if qualifier == Short && SignedHalf(num) < 0 then SignedHalf(num)
    else if qualifier == Short then num
    else Signed(num)
  }

  function Magnitude(n: int): nat {
    if n < 0 then -n else n
  }

  /** The character before the number, if any. */
  function SignText(n: int, flags: Flags): string {
    if !flags.sign then ""
    else if n < 0 then "-"
    else if flags.plus then "+"
    else if flags.space then " "
    else ""
  }

  function PrefixText(base: nat, flags: Flags): string {
    if !flags.special then ""
    else if base == 2 then "0b"
    else if base == 8 then "0"
    else if base == 16 then if flags.large then "0X" else "0x"
    else ""
  }

  /** The digits, with zeros up to the precision; nothing at all for precision 0. */
  function Padded(digits: string, precision: int): string {
    if precision == 0 then "" else Repeat('0', precision - |digits|) + digits
  }

  function Body(n: int, base: nat, precision: int, flags: Flags): string
    requires IsBase(base)
  {
    Padded(Numeral(Magnitude(n), base, flags.large), precision)
  }

  /** The places that the sign, the prefix and the digits take; the digits are counted even when
      precision 0 drops them. */
  function Needs(n: int, base: nat, precision: int, flags: Flags): nat
    requires IsBase(base)
  {
    |SignText(n, flags)| + |PrefixText(base, flags)| + Max(|Numeral(Magnitude(n), base, flags.large)|, precision)
  }

  /** The text: blanks or zeros before it, or blanks after it, fill the field. */
  function Filled(head: string, body: string, fill: int, flags: Flags): string {
    if flags.left then head + body + Repeat(' ', fill)
    else if flags.zeropad then head + Repeat('0', fill) + body
    else Repeat(' ', fill) + head + body
  }

  function TextOf(n: int, base: nat, width: int, precision: int, flags: Flags): string
    requires IsBase(base)
  {
    var head := SignText(n, flags) + PrefixText(base, flags);
    Filled(head, Body(n, base, precision, flags), width - Needs(n, base, precision, flags), flags)
  }

  /** The text of a word; the field is filled up to `width`. */
  function NumberText(num: Word, base: nat, qualifier: Qualifier, width: int, precision: int, flags: Flags): string
    requires IsBase(base)
  {
    TextOf(Meant(num, qualifier, flags), base, width, precision, flags)
  }

  lemma BodyLength(n: int, base: nat, precision: int, flags: Flags)
    requires IsBase(base)
    ensures |Body(n, base, precision, flags)| ==
      if precision == 0 then 0 else Max(|Numeral(Magnitude(n), base, flags.large)|, precision)
  {
  }

  /** A number fills its field, and is never cut, unless precision 0 drops its digits: they are not
      replaced by blanks, so the text then falls short of every field wider than its sign and prefix. */
  lemma NumberFillsItsField(n: int, base: nat, width: int, precision: int, flags: Flags)
    requires IsBase(base)
    ensures width <= |TextOf(n, base, width, precision, flags)| <==>
      precision != 0 || width <= |SignText(n, flags)| + |PrefixText(base, flags)|
    ensures precision != 0 ==>
      |TextOf(n, base, width, precision, flags)| == Max(width, Needs(n, base, precision, flags))
  {
    NumeralReadsBack(Magnitude(n), base, flags.large);
    BodyLength(n, base, precision, flags);
  }

  lemma PaddedReads(digits: string, base: nat, precision: int, fill: int)
    requires precision != 0 && digits != []
    ensures ValueOf(Repeat('0', fill) + Padded(digits, precision), base) == ValueOf(digits, base)
    ensures Padded(digits, precision) != []
    ensures AllDigits(digits) ==> AllDigits(Repeat('0', fill) + Padded(digits, precision))
  {
    var padded := Padded(digits, precision);
    ZerosRead(precision - |digits|, digits, base);
    ZerosRead(fill, padded, base);
  }

  /** The digits after the sign and the prefix stand for the number, whatever the base and the zeros. */
  lemma BodyReadsBack(n: int, base: nat, precision: int, flags: Flags, fill: int)
    requires IsBase(base) && precision != 0
    ensures ValueOf(Repeat('0', fill) + Body(n, base, precision, flags), base) == Magnitude(n)
    ensures Body(n, base, precision, flags) != []
    ensures base == 10 ==> AllDigits(Repeat('0', fill) + Body(n, base, precision, flags))
  {
    NumeralReadsBack(Magnitude(n), base, flags.large);
    PaddedReads(Numeral(Magnitude(n), base, flags.large), base, precision, fill);
  }

  /** A number in decimal, read as a caller would: blanks, a sign, and then `skip_atoi`. */
  function Scan(s: string): int {
    if s == [] then 0
    else if s[0] == ' ' then Scan(s[1..])
    else if s[0] == '-' then 0 - Leading(s[1..])
    else if s[0] == '+' then Leading(s[1..])
    else Leading(s)
  }

  lemma {:induction false} BlanksAreSkipped(n: int, s: string)
    ensures Scan(Repeat(' ', n) + s) == Scan(s)
  {
    if n <= 0 {
      assert Repeat(' ', n) + s == s;
    } else {
      BlanksAreSkipped(n - 1, s);
      assert (Repeat(' ', n) + s)[1..] == Repeat(' ', n - 1) + s;
    }
  }

  lemma LeadingDigits(digits: string, rest: string)
    requires AllDigits(digits) && (rest == [] || !IsDigit(rest[0]))
    ensures Leading(digits + rest) == ValueOf(digits, 10)
  {
    SpanIs(digits, rest);
    assert (digits + rest)[..|digits|] == digits;
  }

  lemma DigitsScan(sign: string, digits: string, rest: string)
    requires AllDigits(digits) && digits != [] && (rest == [] || !IsDigit(rest[0]))
    requires sign == "" || sign == " " || sign == "+" || sign == "-"
    ensures Scan(sign + digits + rest) == if sign == "-" then 0 - ValueOf(digits, 10) else ValueOf(digits, 10)
  {
    LeadingDigits(digits, rest);
    var s := digits + rest;
    assert s[0] == digits[0];
    if sign == "" {
      assert sign + digits + rest == s;
    } else {
      assert (sign + digits + rest)[1..] == s;
    }
  }

  lemma FilledBefore(head: string, body: string, fill: int, flags: Flags, rest: string)
    ensures Filled(head, body, fill, flags) + rest ==
      if flags.left then head + body + (Repeat(' ', fill) + rest)
      else if flags.zeropad then head + (Repeat('0', fill) + body) + rest
      else Repeat(' ', fill) + (head + body + rest)
  {
  }

  /** A filled field in decimal reads as its sign and digits. */
  lemma FilledScans(sign: string, body: string, fill: int, flags: Flags, rest: string)
    requires AllDigits(body) && AllDigits(Repeat('0', fill) + body) && body != [] && (rest == [] || !IsDigit(rest[0]))
    requires sign == "" || sign == " " || sign == "+" || sign == "-"
    ensures Scan(Filled(sign, body, fill, flags) + rest) ==
      if sign == "-" then 0 - ValueOf(body, 10) else ValueOf(body, 10)
  {
    FilledBefore(sign, body, fill, flags, rest);
    if flags.left {
      var after := Repeat(' ', fill) + rest;
      assert after == [] || !IsDigit(after[0]);
      DigitsScan(sign, body, after);
    } else if flags.zeropad {
      ZerosRead(fill, body, 10);
      DigitsScan(sign, Repeat('0', fill) + body, rest);
    } else {
      BlanksAreSkipped(fill, sign + body + rest);
      DigitsScan(sign, body, rest);
    }
  }

  /** Printing and parsing agree: whatever the flags, width and precision, the decimal text of a word
      reads back as the number meant, unless precision 0 drops the digits. */
  lemma NumberReadsBack(num: Word, qualifier: Qualifier, width: int, precision: int, flags: Flags, rest: string)
    requires precision != 0 && (rest == [] || !IsDigit(rest[0]))
    ensures Scan(NumberText(num, 10, qualifier, width, precision, flags) + rest) == Meant(num, qualifier, flags)
  {
    var n := Meant(num, qualifier, flags);
    var fill := width - Needs(n, 10, precision, flags);
    BodyReadsBack(n, 10, precision, flags, fill);
    BodyReadsBack(n, 10, precision, flags, 0);
    assert Repeat('0', 0) + Body(n, 10, precision, flags) == Body(n, 10, precision, flags);
    assert SignText(n, flags) + PrefixText(10, flags) == SignText(n, flags);
    FilledScans(SignText(n, flags), Body(n, 10, precision, flags), fill, flags, rest);
  }

  /** With precision 0 the number is lost: the text is that of any other number of the same sign and
      as many digits. */
  lemma PrecisionZeroForgets(a: int, b: int, base: nat, width: int, flags: Flags)
    requires IsBase(base) && (a < 0 <==> b < 0)
    requires |Numeral(Magnitude(a), base, flags.large)| == |Numeral(Magnitude(b), base, flags.large)| > 0
    ensures TextOf(a, base, width, 0, flags) == TextOf(b, base, width, 0, flags)
  {
    assert Needs(a, base, 0, flags) == Needs(b, base, 0, flags);
  }
}
