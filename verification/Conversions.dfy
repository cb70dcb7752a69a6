/**
  What each conversion of `rt_vsnprintf` writes (rt-thread/src/kservice.c:1139-1316), said of the text alone: which
  number can be read from it in which base, and where signs, prefixes, blanks and zeros are.
 */
module Conversions {
  import opened Wrappers
  import opened Numerals
  import opened NumberFields
  import opened Formats

  // ---------- numbers ----------

  /** `c` is a digit of the base, with letters of the case asked for. */
  predicate IsDigitOf(c: char, base: nat, large: bool) {
    && DigitValue(c) < base
    && (IsDigit(c) || (if large then 'A' <= c <= 'F' else 'a' <= c <= 'f'))
  }

  predicate AllDigitsOf(s: string, base: nat, large: bool) {
    forall i :: 0 <= i < |s| ==> IsDigitOf(s[i], base, large)
  }

  lemma {:induction false} PlacesAreDigits(num: nat, base: nat, large: bool)
    requires IsBase(base)
    ensures AllDigitsOf(Places(num, base, large), base, large)
  {
    if num > 0 {
      PlacesAreDigits(Quotient(num, base), base, large);
      DigitReads(Remainder(num, base), large);
    }
  }

  lemma ZerosAreDigits(n: int, s: string, base: nat, large: bool)
    requires IsBase(base) && AllDigitsOf(s, base, large)
    ensures AllDigitsOf(Repeat('0', n) + s, base, large)
  {
  }

  /** The parts of the text of a number: `before` and `after` blanks, and the head and the digits in between. */
  datatype Parts = Parts(before: nat, head: string, digits: string, after: nat)

  function Whole(p: Parts): string {
    Repeat(' ', p.before) + p.head + p.digits + Repeat(' ', p.after)
  }

  /** Blanks are on the side that the flags ask for, and only as many as the field needs. */
  predicate Fills(p: Parts, width: int, flags: Flags) {
    && |Whole(p)| >= width && (p.before > 0 || p.after > 0 ==> |Whole(p)| == width)
    && (p.before > 0 ==> !flags.left && !flags.zeropad) && (p.after > 0 ==> flags.left)
  }

  /** Zeros in front are those that the precision asks for, or fill the field. */
  predicate ZerosNeeded(p: Parts, n: nat, width: int, precision: int, flags: Flags) {
    && |p.digits| >= precision && p.digits != []
    && (p.digits[0] == '0' ==>
      n == 0 || |p.digits| <= precision || (flags.zeropad && !flags.left && |Whole(p)| <= width))
  }

  /** What the text of a number consists of. */
  lemma TextParts(n: int, base: nat, width: int, precision: int, flags: Flags) returns (p: Parts)
    requires IsBase(base) && precision != 0
    ensures TextOf(n, base, width, precision, flags) == Whole(p) && Fills(p, width, flags)
    ensures p.head == SignText(n, flags) + PrefixText(base, flags)
    ensures ValueOf(p.digits, base) == Magnitude(n) && AllDigitsOf(p.digits, base, flags.large)
    ensures ZerosNeeded(p, Magnitude(n), width, precision, flags)
  {
    var needs := Needs(n, base, precision, flags);
    var head, body := SignText(n, flags) + PrefixText(base, flags), Body(n, base, precision, flags);
    BodyLength(n, base, precision, flags);
    p := FilledParts(head, body, width - needs, flags);
    PartsFill(p, needs, width, flags);
    BodyDigits(n, base, precision, flags);
    PartsZeros(p, body, Magnitude(n), needs, width, precision, flags);
    DigitsRead(n, base, precision, flags, if flags.zeropad && !flags.left then width - needs else 0, p.digits);
  }

  lemma DigitsRead(n: int, base: nat, precision: int, flags: Flags, fill: int, digits: string)
    requires IsBase(base) && precision != 0 && digits == Repeat('0', fill) + Body(n, base, precision, flags)
    ensures ValueOf(digits, base) == Magnitude(n) && AllDigitsOf(digits, base, flags.large)
  {
    BodyReadsBack(n, base, precision, flags, fill);
    BodyDigits(n, base, precision, flags);
    ZerosAreDigits(fill, Body(n, base, precision, flags), base, flags.large);
  }

  lemma PartsFill(p: Parts, needs: nat, width: int, flags: Flags)
    requires |Whole(p)| == needs + if width > needs then width - needs else 0
    requires p.before == if width > needs && !flags.left && !flags.zeropad then width - needs else 0
    requires p.after == if width > needs && flags.left then width - needs else 0
    ensures Fills(p, width, flags)
  {
  }

  lemma PartsZeros(p: Parts, body: string, n: nat, needs: nat, width: int, precision: int, flags: Flags)
    requires |Whole(p)| == needs + if width > needs then width - needs else 0
    requires p.digits == Repeat('0', if flags.zeropad && !flags.left then width - needs else 0) + body
    requires |body| >= precision && body != [] && (body[0] == '0' ==> n == 0 || |body| <= precision)
    ensures ZerosNeeded(p, n, width, precision, flags)
  {
    assert Repeat('0', 0) + body == body && (width <= needs ==> Repeat('0', width - needs) + body == body);
  }

  lemma FilledParts(head: string, body: string, fill: int, flags: Flags) returns (p: Parts)
    ensures Filled(head, body, fill, flags) == Whole(p) && p.head == head
    ensures p.digits == Repeat('0', if flags.zeropad && !flags.left then fill else 0) + body
    ensures p.before == if fill > 0 && !flags.left && !flags.zeropad then fill else 0
    ensures p.after == if fill > 0 && flags.left then fill else 0
    ensures |Whole(p)| == |head| + |body| + if fill > 0 then fill else 0
  {
    var blanks := if fill > 0 then fill else 0;
    if flags.left {
      p := Parts(0, head, Repeat('0', 0) + body, blanks);
    } else if flags.zeropad {
      p := Parts(0, head, Repeat('0', fill) + body, 0);
    } else {
      p := Parts(blanks, head, Repeat('0', 0) + body, 0);
    }
    WholeIs(p);
    Blanks(fill, blanks, body);
  }

  lemma WholeIs(p: Parts)
    ensures p.before == 0 ==> Whole(p) == p.head + p.digits + Repeat(' ', p.after)
    ensures p.after == 0 ==> Whole(p) == Repeat(' ', p.before) + p.head + p.digits
    ensures p.before == p.after == 0 ==> Whole(p) == p.head + p.digits
    ensures |Whole(p)| == p.before + |p.head| + |p.digits| + p.after
  {
    assert Repeat(' ', 0) == "";
  }

  lemma Blanks(fill: int, blanks: nat, body: string)
    requires blanks == if fill > 0 then fill else 0
    ensures Repeat(' ', fill) == Repeat(' ', blanks) && Repeat('0', 0) + body == body
  {
  }

  lemma BodyDigits(n: int, base: nat, precision: int, flags: Flags)
    requires IsBase(base) && precision != 0
    ensures AllDigitsOf(Body(n, base, precision, flags), base, flags.large)
    ensures |Body(n, base, precision, flags)| >= precision && Body(n, base, precision, flags) != []
    ensures Body(n, base, precision, flags)[0] == '0' ==> n == 0 || |Body(n, base, precision, flags)| <= precision
  {
    var digits := Numeral(Magnitude(n), base, flags.large);
    PlacesAreDigits(Magnitude(n), base, flags.large);
    NumeralReadsBack(Magnitude(n), base, flags.large);
    ZerosAreDigits(precision - |digits|, digits, base, flags.large);
    if precision <= |digits| { assert Body(n, base, precision, flags) == digits; }
  }

  // ---------- conversions to numbers ----------

  predicate WritesNumber(c: Conversion) {
    c == Binary || c == Octal || c == Hex || c == LargeHex || c == Decimal || c == Unsigned
  }

  /** The word that a directive is given. */
  function Argument(p: Piece, args: nat -> Word): Word
    requires p.Directive?
  {
    args(HeadOf(p, args, 0).next)
  }

  /** Of that, what the qualifier asks for. */
  function Taken(p: Piece, args: nat -> Word): Word
    requires p.Directive?
  {
    if p.qualifier == Short then Argument(p, args) % 0x1_0000 else Argument(p, args)
  }

  function TakenSigned(p: Piece, args: nat -> Word): int
    requires p.Directive?
  {
    if p.qualifier == Short then SignedHalf(Argument(p, args)) else Signed(Argument(p, args))
  }

  /** The number that is to be written, without its sign. */
  function Number(p: Piece, args: nat -> Word): nat
    requires p.Directive?
  {
    if p.conversion == Decimal then Magnitude(TakenSigned(p, args)) else Taken(p, args)
  }

  /** Whatever the flags, width, precision but 0 and qualifier, a conversion to a number writes blanks, a sign, a
      prefix, digits and blanks again, and the digits read back as its argument, each in its own base. */
  lemma NumberIsWritten(p: Piece, args: nat -> Word, strings: Word -> CString)
    returns (t: Parts, sign: string, prefix: string)
    requires p.Directive? && Proper(p) && WritesNumber(p.conversion) && HeadOf(p, args, 0).precision != 0
    ensures Rendered(FormatOf([p]), args, strings, 0) == Whole(t) && t.head == sign + prefix
    ensures Reads(p.conversion, t.digits, Number(p, args))
    ensures HasSign(p.conversion, sign, TakenSigned(p, args), p.flags) && HasPrefix(p.conversion, prefix, p.flags)
    ensures
      var h := HeadOf(p, args, 0);
      Fills(t, h.width, h.flags) && ZerosNeeded(t, Number(p, args), h.width, h.precision, h.flags)
  {
    MeaningOfOne(p, args, strings);
    var h := HeadOf(p, args, 0);
    t, sign, prefix := WordIsWritten(p.conversion, h, Argument(p, args), strings,
                                     Converted(p.conversion, h, Argument(p, args), strings));
  }

  /** The digits of each conversion: the base, and the letters of base 16. */
  predicate Reads(c: Conversion, digits: string, n: nat) {
    match c
    case Binary => ValueOf(digits, 2) == n && AllDigitsOf(digits, 2, false)
    case Octal => ValueOf(digits, 8) == n && AllDigitsOf(digits, 8, false)
    case Hex => ValueOf(digits, 16) == n && AllDigitsOf(digits, 16, false)
    case LargeHex => ValueOf(digits, 16) == n && AllDigitsOf(digits, 16, true)
    case _ => ValueOf(digits, 10) == n && AllDigits(digits)
  }

  predicate HasSign(c: Conversion, sign: string, n: int, flags: Flags) {
    if c != Decimal then sign == ""
    else if n < 0 then sign == "-"
    else sign == if flags.plus then "+" else if flags.space then " " else ""
  }

  predicate HasPrefix(c: Conversion, prefix: string, flags: Flags) {
    if !flags.special then prefix == ""
    else
      match c
      case Binary => prefix == "0b"
      case Octal => prefix == "0"
      case Hex => prefix == "0x"
      case LargeHex => prefix == "0X"
      case _ => prefix == ""
  }

  lemma WordIsWritten(c: Conversion, h: Head, word: Word, strings: Word -> CString, text: string)
    returns (t: Parts, sign: string, prefix: string)
    requires WritesNumber(c) && h.precision != 0 && !h.flags.sign && !h.flags.large
    requires text == Converted(c, h, word, strings)
    ensures text == Whole(t) && t.head == sign + prefix
    ensures
      var n := if h.qualifier == Short then SignedHalf(word) else Signed(word);
      var m := if c == Decimal then Magnitude(n) else if h.qualifier == Short then word % 0x1_0000 else word;
      && Reads(c, t.digits, m) && HasSign(c, sign, n, h.flags) && HasPrefix(c, prefix, h.flags)
      && Fills(t, h.width, h.flags) && ZerosNeeded(t, m, h.width, h.precision, h.flags)
  {
    var flags := h.flags.(sign := c == Decimal, large := c == LargeHex);
    var fetched := Fetched(word, h.qualifier, flags);
    var n := Meant(fetched, h.qualifier, flags);
    if c == Decimal { FetchedMeans(word, h.qualifier, flags); }
    t := TextParts(n, BaseOf(c), h.width, h.precision, flags);
    sign, prefix := SignText(n, flags), PrefixText(BaseOf(c), flags);
  }

  // ---------- pointers, characters and strings ----------

  /** A pointer is written in base 16, by default as 0x and eight digits. */
  lemma PointerIsWritten(p: Piece, args: nat -> Word, strings: Word -> CString) returns (t: Parts)
    requires p.Directive? && Proper(p) && p.conversion == Pointer && HeadOf(p, args, 0).precision != 0
    ensures Rendered(FormatOf([p]), args, strings, 0) == Whole(t)
    ensures ValueOf(t.digits, 16) == Argument(p, args) && AllDigitsOf(t.digits, 16, false)
    ensures t.head == if p.flags.special || p.width == Omitted then "0x" else ""
    ensures p.width != Omitted ==> Fills(t, HeadOf(p, args, 0).width, HeadOf(p, args, 0).flags)
    ensures p.width == Omitted ==> t.before == 0 && |Whole(t)| >= 10 && (t.after > 0 ==> p.flags.left)
    ensures p.width == Omitted && !p.flags.left && p.precision == Omitted ==> |t.digits| == 8
  {
    var h := HeadOf(p, args, 0);
    var q := PointerHead(h);
    MeaningOfOne(p, args, strings);
    t := TextParts(Argument(p, args), 16, q.width, q.precision, q.flags);
    if p.width == Omitted && !p.flags.left && p.precision == Omitted {
      WordHasEightDigits(Argument(p, args));
      NumberFillsItsField(Argument(p, args), 16, q.width, q.precision, q.flags);
    }
  }

  lemma WordHasEightDigits(num: Word)
    ensures |Numeral(num, 16, false)| <= 8
  {
    WordHas32Bits();
    PlacesBound(num, 8);
  }

  lemma {:induction false} PlacesBound(num: nat, n: nat)
    requires num < Power2(4 * n)
    ensures |Places(num, 16, false)| <= n
  {
    if num > 0 {
      var m := 4 * (n - 1);
      assert m >= 0 && Power2(4 * n) == 2 * Power2(m + 3) && Power2(m + 3) == 2 * Power2(m + 2);
      assert Power2(m + 2) == 2 * Power2(m + 1) && Power2(m + 1) == 2 * Power2(m);
      PlacesBound(num / 16, n - 1);
    }
  }

  /** A character fills its field up with blanks, on its right if it is to be on the left. */
  lemma CharacterIsWritten(p: Piece, args: nat -> Word, strings: Word -> CString)
    requires p.Directive? && Proper(p) && p.conversion == Character
    ensures
      var h, text := HeadOf(p, args, 0), Rendered(FormatOf([p]), args, strings, 0);
      var at := if h.flags.left then 0 else |text| - 1;
      && |text| == (if h.width > 1 then h.width else 1) && text[at] as nat == Argument(p, args) % 256
      && forall i :: 0 <= i < |text| && i != at ==> text[i] == ' '
  {
    MeaningOfOne(p, args, strings);
  }

  /** The first characters of a string, as many as the width and a precision above 0 leave; and blanks. */
  lemma StringIsWritten(p: Piece, args: nat -> Word, strings: Word -> CString) returns (n: nat, blanks: nat)
    requires p.Directive? && Proper(p) && p.conversion == Text
    ensures
      var h, word := HeadOf(p, args, 0), Argument(p, args);
      StringFits(if word == 0 then "(NULL)" else strings(word), h.width, h.precision, h.flags.left, n, blanks,
                 Rendered(FormatOf([p]), args, strings, 0))
  {
    MeaningOfOne(p, args, strings);
    var h, word := HeadOf(p, args, 0), Argument(p, args);
    n, blanks := TextConverted(h, word, strings, Converted(Text, h, word, strings));
  }

  lemma TextConverted(h: Head, word: Word, strings: Word -> CString, text: string) returns (n: nat, blanks: nat)
    requires text == Converted(Text, h, word, strings)
    ensures
      StringFits(if word == 0 then "(NULL)" else strings(word), h.width, h.precision, h.flags.left, n, blanks, text)
  {
    n, blanks := StringParts(if word == 0 then "(NULL)" else strings(word), h.width, h.precision, h.flags.left);
  }

  /** The first `n` characters, which are all that fit, and as many blanks as are left of the field. */
  predicate StringFits(s: string, width: int, precision: int, left: bool, n: nat, blanks: nat, text: string) {
    && n <= |s| && (n == |s| <==> (width < 0 || |s| <= width) && (precision <= 0 || |s| <= precision))
    && (n < |s| ==> n == width || n == precision)
    && (0 <= width ==> n <= width) && (0 < precision ==> n <= precision)
    && blanks == (if width > n then width - n else 0)
    && text == if left then s[..n] + Repeat(' ', blanks) else Repeat(' ', blanks) + s[..n]
  }

  lemma StringParts(s: CString, width: int, precision: int, left: bool) returns (n: nat, blanks: nat)
    ensures StringFits(s, width, precision, left, n, blanks, StringText(s, width, precision, left))
  {
    n := Shown(s, width, precision);
    blanks := if width > n then width - n else 0;
    StringIsCut(s, width, precision);
    assert Repeat(' ', width - n) == Repeat(' ', blanks);
  }

  // ---------- letters and arguments ----------

  /** A format of two characters. */
  lemma PlainFormat(c: Conversion, letter: char)
    requires ConversionFormat(c) == [letter]
    ensures FormatOf([Directive(NoFlags, Omitted, Omitted, NoQualifier, c)]) == ['%', letter]
  {
    var p := Directive(NoFlags, Omitted, Omitted, NoQualifier, c);
    assert FormatOf([p]) == PieceFormat(p) + FormatOf([]);
  }

  /** A plain directive, which is given the first argument. */
  lemma PlainNumber(fmt: string, c: Conversion, letter: char, args: nat -> Word, strings: Word -> CString)
    requires fmt == ['%', letter] && ConversionFormat(c) == [letter] && WritesNumber(c) && c != Decimal
    ensures Reads(c, Rendered(fmt, args, strings, 0), args(0))
  {
    PlainFormat(c, letter);
    var p := Directive(NoFlags, Omitted, Omitted, NoQualifier, c);
    var t, sign, prefix := NumberIsWritten(p, args, strings);
    NothingElse(t);
  }

  lemma NothingElse(t: Parts)
    requires t.head == "" + "" && Fills(t, -1, NoFlags)
    ensures Whole(t) == t.digits
  {
    assert t.before == 0 && t.after == 0;
    assert Repeat(' ', 0) == "";
  }

  /** The plain directives by their letters. */
  lemma PlainNumbers(fmt: string, args: nat -> Word, strings: Word -> CString)
    ensures var text := Rendered(fmt, args, strings, 0);
      && (fmt == "%b" ==> ValueOf(text, 2) == args(0))
      && (fmt == "%o" ==> ValueOf(text, 8) == args(0))
      && (fmt == "%u" ==> ValueOf(text, 10) == args(0))
      && (fmt == "%x" || fmt == "%X" ==> ValueOf(text, 16) == args(0) && AllDigitsOf(text, 16, fmt == "%X"))
      && (fmt == "%d" || fmt == "%i" ==> Scan(text) == Signed(args(0)))
      && (fmt == "%%" || fmt == "%" ==> text == "%")
  {
    if fmt == "%b" { PlainNumber(fmt, Binary, 'b', args, strings); }
    if fmt == "%o" { PlainNumber(fmt, Octal, 'o', args, strings); }
    if fmt == "%u" { PlainNumber(fmt, Unsigned, 'u', args, strings); }
    if fmt == "%x" { PlainNumber(fmt, Hex, 'x', args, strings); }
    if fmt == "%X" { PlainNumber(fmt, LargeHex, 'X', args, strings); }
    if fmt == "%d" || fmt == "%i" { PlainDecimal(fmt, fmt[1], args, strings); }
    if fmt == "%%" || fmt == "%" { PercentIsWritten(fmt, args, strings); }
  }

  /** A head without flags and sizes. */
  lemma PlainHead(c: char, s: string, rest: string, args: nat -> Word, k: nat)
    requires s == [c] + rest && !IsFlag(c) && !IsDigit(c) && c !in {'*', '.', 'h', 'l'}
    ensures ReadHead(s, args, k) == Head(NoFlags, -1, -1, NoQualifier, s, k)
  {
  }

  lemma PlainDecimal(fmt: string, letter: char, args: nat -> Word, strings: Word -> CString)
    requires fmt == ['%', letter] && (letter == 'd' || letter == 'i')
    ensures Scan(Rendered(fmt, args, strings, 0)) == Signed(args(0))
  {
    var p := Directive(NoFlags, Omitted, Omitted, NoQualifier, Decimal);
    PlainFormat(Decimal, 'd');
    DecimalReadsBack(p, args, strings);
    SameDecimal(fmt, letter, FormatOf([p]), 'd', args, strings);
  }

  /** Both letters mean the same. */
  lemma SameDecimal(fmt: string, letter: char, fmt2: string, letter2: char, args: nat -> Word, strings: Word -> CString)
    requires fmt == ['%', letter] && (letter == 'd' || letter == 'i')
    requires fmt2 == ['%', letter2] && (letter2 == 'd' || letter2 == 'i')
    ensures Rendered(fmt, args, strings, 0) == Rendered(fmt2, args, strings, 0)
  {
    DecimalStep(fmt, letter, args, strings);
    DecimalStep(fmt2, letter2, args, strings);
  }

  lemma DecimalStep(fmt: string, letter: char, args: nat -> Word, strings: Word -> CString)
    requires fmt == ['%', letter] && (letter == 'd' || letter == 'i')
    ensures
      var h := Head(NoFlags, -1, -1, NoQualifier, [], 0);
      Rendered(fmt, args, strings, 0) == Converted(Decimal, h, args(0), strings) + Rendered([], args, strings, 1)
  {
    PlainHead(letter, Tail(fmt), [], args, 0);
    DirectiveStep(fmt, args, strings, 0);
    DecimalLetter(Head(NoFlags, -1, -1, NoQualifier, [letter], 0), letter, args, strings);
  }

  lemma DecimalLetter(h: Head, letter: char, args: nat -> Word, strings: Word -> CString)
    requires h.rest == [letter] && (letter == 'd' || letter == 'i')
    ensures HeadText(h, args, strings) == Converted(Decimal, h.(rest := []), args(h.next), strings)
    ensures HeadNext(h) == h.next + 1 && Tail(h.rest) == []
  {
    KnownText(h, Decimal, args, strings);
    RestDoesNotMatter(Decimal, h, args(h.next), strings);
  }

  lemma RestDoesNotMatter(c: Conversion, h: Head, word: Word, strings: Word -> CString)
    ensures Converted(c, h, word, strings) == Converted(c, h.(rest := []), word, strings)
  {
  }

  lemma PercentIsWritten(fmt: string, args: nat -> Word, strings: Word -> CString)
    requires fmt == "%%" || fmt == "%"
    ensures Rendered(fmt, args, strings, 0) == "%"
  {
    DirectiveStep(fmt, args, strings, 0);
    var h := Head(NoFlags, -1, -1, NoQualifier, Tail(fmt), 0);
    if |fmt| == 2 {
      PlainHead('%', Tail(fmt), [], args, 0);
      PercentLetter(h, '%', args, strings);
    } else {
      EndOfFormat(h, args, strings);
    }
  }

  lemma PercentLetter(h: Head, letter: char, args: nat -> Word, strings: Word -> CString)
    requires h.rest == [letter] && letter == '%'
    ensures HeadText(h, args, strings) == [letter] && HeadNext(h) == h.next && Tail(h.rest) == []
  {
  }

  lemma EndOfFormat(h: Head, args: nat -> Word, strings: Word -> CString)
    requires h.rest == []
    ensures HeadText(h, args, strings) == "%" && HeadNext(h) == h.next && Tail(h.rest) == []
  {
    UnknownText(h, args, strings);
  }

  /** A point without a number is a precision of 0, in front of anything but a digit or a star. */
  lemma PointAlone(h: Head, s: string, args: nat -> Word)
    requires h.rest == ['.'] + s && (s == [] || (!IsDigit(s[0]) && s[0] != '*'))
    ensures ReadPrecision(h, args) == ReadPrecision(h.(rest := ['.', '0'] + s), args)
    ensures ReadPrecision(h, args) == h.(precision := 0, rest := s)
  {
    assert h.rest[1..] == s;
    var zero := ['.', '0'] + s;
    assert zero[1..] == "0" + s;
    LeadingDigits("0", s);
    SpanIs("0", s);
    assert ValueOf("0", 10) == 0 by { assert ("0")[..0] == ""; }
    assert ("0" + s)[1..] == s;
  }

  /** Each flag has its character, in front of the width. */
  lemma FlagCharacters(f: Flags)
    ensures '-' in FlagsFormat(f) <==> f.left
    ensures '+' in FlagsFormat(f) <==> f.plus
    ensures ' ' in FlagsFormat(f) <==> f.space
    ensures '#' in FlagsFormat(f) <==> f.special
    ensures '0' in FlagsFormat(f) <==> f.zeropad
  {
    var left, plus := if f.left then "-" else "", if f.plus then "+" else "";
    var space, special, zeropad := if f.space then " " else "", if f.special then "#" else "",
      if f.zeropad then "0" else "";
    assert FlagsFormat(f) == left + plus + space + special + zeropad;
    assert forall c :: c in FlagsFormat(f) <==>
      c in left || c in plus || c in space || c in special || c in zeropad;
  }

  /** A directive takes one argument for each `*`, and one for what it converts. */
  lemma ArgumentsTaken(p: Piece, args: nat -> Word, k: nat)
    requires p.Directive?
    ensures HeadOf(p, args, k).next == k + (if p.width == Given then 1 else 0) + if p.precision == Given then 1 else 0
    ensures After(p.conversion, HeadOf(p, args, k).next) ==
      HeadOf(p, args, k).next + if p.conversion == Percent then 0 else 1
  {
  }

  /** A directive that is not known is written as it stands, and takes no argument. */
  lemma UnknownIsKept(c: char, s: string, args: nat -> Word, strings: Word -> CString, k: nat)
    requires c !in {'c', 's', 'p', 'b', 'o', 'x', 'X', 'd', 'i', 'u', '%', '*', '.', 'h', 'l', '\0'}
    requires c !in {'-', '+', ' ', '#'} && !IsDigit(c)
    ensures Rendered(['%', c] + s, args, strings, k) == ['%', c] + Rendered(s, args, strings, k)
  {
    var fmt, rest := ['%', c] + s, [c] + s;
    assert Tail(fmt) == rest && Tail(rest) == s;
    PlainHead(c, rest, s, args, k);
    DirectiveStep(fmt, args, strings, k);
    NotKnown(rest, c, s, args, strings, k);
  }

  lemma NotKnown(rest: string, c: char, s: string, args: nat -> Word, strings: Word -> CString, k: nat)
    requires rest == [c] + s && ConversionOf(c).None?
    ensures
      var h := Head(NoFlags, -1, -1, NoQualifier, rest, k);
      HeadText(h, args, strings) == ['%', c] && HeadNext(h) == k
  {
  }
}
