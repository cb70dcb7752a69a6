/**
  What a format string asks `rt_vsnprintf` to write (rt-thread/src/kservice.c), without regard to the
  size of the buffer. An argument is a word, whatever its conversion makes of it; the argument of
  `%s` is the address of a string, and 0 is the null pointer.
 */
module Formats {
  import opened Wrappers
  import opened Numerals
  import opened NumberFields

  /** Characters up to a NUL, which is not stored. */
  type CString = s: string | forall i :: 0 <= i < |s| ==> s[i] != '\0'

  datatype Conversion = Character | Text | Pointer | Percent | Binary | Octal | Hex | LargeHex | Decimal | Unsigned

  /** What stands between `%` and the conversion, with the text after it and the next argument. */
  datatype Head = Head(flags: Flags, width: int, precision: int, qualifier: Qualifier, rest: string, next: nat)

  function First(s: string): char {
    if s == [] then '\0' else s[0]
  }

  predicate IsFlag(c: char) {
    c == '-' || c == '+' || c == ' ' || c == '#' || c == '0'
  }

  function AddFlag(c: char, flags: Flags): Flags {
    if c == '-' then flags.(left := true)
    else if c == '+' then flags.(plus := true)
    else if c == ' ' then flags.(space := true)
    else if c == '#' then flags.(special := true)
    else flags.(zeropad := true)
  }

  function ReadFlags(s: string, flags: Flags): (r: (Flags, string))
    ensures |r.1| <= |s|
  {
    if IsFlag(First(s)) then ReadFlags(s[1..], AddFlag(s[0], flags)) else (flags, s)
  }

  /** Reads the field width: -1 when there is none, and a negative argument sets `left`. */
  function ReadWidth(s: string, flags: Flags, args: nat -> Word, k: nat): (h: Head)
    ensures |h.rest| <= |s|
  {
    if IsDigit(First(s)) then Head(flags, Leading(s), -1, NoQualifier, s[DigitSpan(s)..], k)
    else if First(s) == '*' then
      var n := Signed(args(k));
      if n < 0 then Head(flags.(left := true), -n, -1, NoQualifier, s[1..], k + 1)
      else Head(flags, n, -1, NoQualifier, s[1..], k + 1)
    else Head(flags, -1, -1, NoQualifier, s, k)
  }

  /** Reads the precision: -1 when there is no point, and never below 0 after one. */
  function ReadPrecision(h: Head, args: nat -> Word): (r: Head)
    ensures |r.rest| <= |h.rest|
  {
    if First(h.rest) != '.' then h
    else
      var s := h.rest[1..];
      if IsDigit(First(s)) then h.(precision := Leading(s), rest := s[DigitSpan(s)..])
      else if First(s) == '*' then h.(precision := Max(0, Signed(args(h.next))), rest := s[1..], next := h.next + 1)
      else h.(precision := 0, rest := s)
  }

  function ReadQualifier(h: Head): (r: Head)
    ensures |r.rest| <= |h.rest|
  {
    if First(h.rest) == 'h' then h.(qualifier := Short, rest := h.rest[1..])
    else if First(h.rest) == 'l' then h.(qualifier := Long, rest := h.rest[1..])
    else h
  }

  function ReadHead(s: string, args: nat -> Word, k: nat): (h: Head)
    ensures |h.rest| <= |s|
  {
    var (flags, rest) := ReadFlags(s, NoFlags);
    ReadQualifier(ReadPrecision(ReadWidth(rest, flags, args, k), args))
  }

  function ConversionOf(c: char): Option<Conversion> {
    match c
    case 'c' => Some(Character)
    case 's' => Some(Text)
    case 'p' => Some(Pointer)
    case '%' => Some(Percent)
    case 'b' => Some(Binary)
    case 'o' => Some(Octal)
    case 'x' => Some(Hex)
    case 'X' => Some(LargeHex)
    case 'd' => Some(Decimal)
    case 'i' => Some(Decimal)
    case 'u' => Some(Unsigned)
    case _ => None
  }

  function CharText(word: Word, width: int, left: bool): string {
    var c := [(word % 256) as char];
    if left then c + Repeat(' ', width - 1) else Repeat(' ', width - 1) + c
  }

  /** The characters of a string that are written: the field width, too, cuts it. */
  function Shown(s: CString, width: int, precision: int): nat {
    var n := if 0 <= width < |s| then width else |s|;
    if 0 < precision < n then precision else n
  }

  function StringText(s: CString, width: int, precision: int, left: bool): string {
    var n := Shown(s, width, precision);
    assert n <= |s|;
    if left then s[..n] + Repeat(' ', width - n) else Repeat(' ', width - n) + s[..n]
  }

  /** A string fills its field exactly: unlike in C it is never longer than the field. */
  lemma StringFillsItsField(s: CString, width: int, precision: int, left: bool)
    ensures 0 <= width ==> |StringText(s, width, precision, left)| == width
    ensures width < 0 ==> StringText(s, width, precision, left) == s[..Shown(s, width, precision)]
  {
  }

  /** A string is written whole exactly when it is no longer than a width and a precision above 0. */
  lemma StringIsCut(s: CString, width: int, precision: int)
    ensures Shown(s, width, precision) == |s| <==> (width < 0 || |s| <= width) && (precision <= 0 || |s| <= precision)
  {
  }

  /** The word that a conversion to a number takes from its argument. */
  function Fetched(word: Word, qualifier: Qualifier, flags: Flags): (r: Word) {
    if qualifier != Short then word
    else if flags.sign && word % 0x1_0000 >= 0x8000 then WORDS - 0x1_0000 + word % 0x1_0000
    else word % 0x1_0000
  }

  function BaseOf(c: Conversion): (base: nat)
    ensures IsBase(base)
  {
    match c
    case Binary => 2
    case Octal => 8
    case Hex | LargeHex | Pointer => 16
    case _ => 10
  }

  /** `p`: the head of a pointer, which by default is written in full. */
  function PointerHead(h: Head): Head {
    if h.width == -1 then h.(width := 10, flags := h.flags.(special := true, zeropad := true)) else h
  }

  function Converted(c: Conversion, h: Head, word: Word, strings: Word -> CString): string {
    match c
    case Character => CharText(word, h.width, h.flags.left)
    case Text => StringText(if word == 0 then "(NULL)" else strings(word), h.width, h.precision, h.flags.left)
    case Percent => "%"
    case Pointer => var p := PointerHead(h); NumberText(word, 16, p.qualifier, p.width, p.precision, p.flags)
    case _ =>
      var flags := h.flags.(sign := c == Decimal, large := c == LargeHex);
      NumberText(Fetched(word, h.qualifier, flags), BaseOf(c), h.qualifier, h.width, h.precision, flags)
  }

  function After(c: Conversion, k: nat): nat {
    if c == Percent then k else k + 1
  }

  /** What the characters after a head ask for; an unknown conversion is written as it stands. */
  function HeadText(h: Head, args: nat -> Word, strings: Word -> CString): string {
    match ConversionOf(First(h.rest))
    case Some(c) => Converted(c, h, args(h.next), strings)
    case None => if h.rest == [] then "%" else "%" + h.rest[..1]
  }

  function HeadNext(h: Head): nat {
    match ConversionOf(First(h.rest))
    case Some(c) => After(c, h.next)
    case None => h.next
  }

  lemma KnownText(h: Head, c: Conversion, args: nat -> Word, strings: Word -> CString)
    requires ConversionOf(First(h.rest)) == Some(c)
    ensures h.rest != [] && HeadNext(h) == After(c, h.next)
    ensures HeadText(h, args, strings) == Converted(c, h, args(h.next), strings)
  {
  }

  lemma UnknownText(h: Head, args: nat -> Word, strings: Word -> CString)
    requires ConversionOf(First(h.rest)).None?
    ensures HeadNext(h) == h.next
    ensures HeadText(h, args, strings) == if h.rest == [] then "%" else "%" + h.rest[..1]
  {
  }

  function Tail(s: string): string {
    if s == [] then [] else s[1..]
  }

  /** The whole text of a format, from argument `k` on. */
  function Rendered(fmt: string, args: nat -> Word, strings: Word -> CString, k: nat): string
    decreases |fmt|
  {
    if fmt == [] then ""
    else if fmt[0] != '%' then fmt[..1] + Rendered(fmt[1..], args, strings, k)
    else
      var h := ReadHead(fmt[1..], args, k);
      HeadText(h, args, strings) + Rendered(Tail(h.rest), args, strings, HeadNext(h))
  }

  // Formats that are written from their parts

  datatype Size = Omitted | Fixed(n: nat) | Given

  datatype Piece = Literal(text: string)
                 | Directive(flags: Flags, width: Size, precision: Size, qualifier: Qualifier, conversion: Conversion)

  /** Text has no `%`, and a width of 0 is not written: it would be read as a flag. */
  predicate Proper(p: Piece) {
    match p
    case Literal(text) => forall i :: 0 <= i < |text| ==> text[i] != '%'
    case Directive(flags, width, _, _, _) => !flags.sign && !flags.large && width != Fixed(0)
  }

  function FlagsFormat(f: Flags): string {
    (if f.left then "-" else "") + (if f.plus then "+" else "") + (if f.space then " " else "")
    + (if f.special then "#" else "") + (if f.zeropad then "0" else "")
  }

  function SizeFormat(s: Size): string {
    match s
    case Omitted => ""
    case Fixed(n) => Numeral(n, 10, false)
    case Given => "*"
  }

  function PrecisionFormat(s: Size): string {
    if s == Omitted then "" else "." + SizeFormat(s)
  }

  function QualifierFormat(q: Qualifier): string {
    match q
    case NoQualifier => ""
    case Short => "h"
    case Long => "l"
  }

  function ConversionFormat(c: Conversion): string {
    match c
    case Character => "c"
    case Text => "s"
    case Pointer => "p"
    case Percent => "%"
    case Binary => "b"
    case Octal => "o"
    case Hex => "x"
    case LargeHex => "X"
    case Decimal => "d"
    case Unsigned => "u"
  }

  function PieceFormat(p: Piece): string {
    match p
    case Literal(text) => text
    case Directive(f, w, n, q, c) =>
      "%" + (FlagsFormat(f) + (SizeFormat(w) + (PrecisionFormat(n) + (QualifierFormat(q) + ConversionFormat(c)))))
  }

  function FormatOf(pieces: seq<Piece>): string {
    if pieces == [] then "" else PieceFormat(pieces[0]) + FormatOf(pieces[1..])
  }

  /** The head that a directive stands for, with the arguments that its sizes take. */
  function HeadOf(p: Piece, args: nat -> Word, k: nat): Head
    requires p.Directive?
  {
    var w := if p.width.Fixed? then p.width.n else if p.width.Given? then Magnitude(Signed(args(k))) else -1;
    var flags := if p.width.Given? && Signed(args(k)) < 0 then p.flags.(left := true) else p.flags;
    var k1 := if p.width.Given? then k + 1 else k;
    var n := if p.precision.Fixed? then p.precision.n else if p.precision.Given? then Max(0, Signed(args(k1))) else -1;
    Head(flags, w, n, p.qualifier, ConversionFormat(p.conversion), if p.precision.Given? then k1 + 1 else k1)
  }

  function Meaning(pieces: seq<Piece>, args: nat -> Word, strings: Word -> CString, k: nat): string {
    if pieces == [] then ""
    else
      match pieces[0]
      case Literal(text) => text + Meaning(pieces[1..], args, strings, k)
      case Directive(_, _, _, _, c) =>
        var h := HeadOf(pieces[0], args, k);
        Converted(c, h, args(h.next), strings) + Meaning(pieces[1..], args, strings, After(c, h.next))
  }

  lemma FlagRead(c: char, s: string, flags: Flags)
    requires IsFlag(c)
    ensures ReadFlags([c] + s, flags) == ReadFlags(s, AddFlag(c, flags))
  {
    assert ([c] + s)[1..] == s;
  }

  lemma FlagMayBeRead(given: bool, c: char, s: string, flags: Flags)
    requires IsFlag(c)
    ensures ReadFlags((if given then [c] else "") + s, flags) ==
      ReadFlags(s, if given then AddFlag(c, flags) else flags)
  {
    if given { FlagRead(c, s, flags); } else { assert "" + s == s; }
  }

  lemma Nested(a: string, b: string, c: string, d: string, e: string, s: string)
    ensures a + b + c + d + e + s == a + (b + (c + (d + (e + s))))
  {
  }

  lemma FlagsReadBack(f: Flags, s: string)
    requires !f.sign && !f.large && !IsFlag(First(s))
    ensures ReadFlags(FlagsFormat(f) + s, NoFlags) == (f, s)
  {
    var left, plus := if f.left then "-" else "", if f.plus then "+" else "";
    var space, special, zeropad := if f.space then " " else "", if f.special then "#" else "",
      if f.zeropad then "0" else "";
    Nested(left, plus, space, special, zeropad, s);
    FlagMayBeRead(f.left, '-', plus + (space + (special + (zeropad + s))), NoFlags);
    var f1 := NoFlags.(left := f.left);
    FlagMayBeRead(f.plus, '+', space + (special + (zeropad + s)), f1);
    var f2 := f1.(plus := f.plus);
    FlagMayBeRead(f.space, ' ', special + (zeropad + s), f2);
    var f3 := f2.(space := f.space);
    FlagMayBeRead(f.special, '#', zeropad + s, f3);
    var f4 := f3.(special := f.special);
    FlagMayBeRead(f.zeropad, '0', s, f4);
  }

  lemma NumeralRead(n: nat, s: string)
    requires !IsDigit(First(s))
    ensures IsDigit(First(Numeral(n, 10, false) + s))
    ensures Leading(Numeral(n, 10, false) + s) == n
    ensures (Numeral(n, 10, false) + s)[DigitSpan(Numeral(n, 10, false) + s)..] == s
  {
    NumeralReadsBack(n, 10, false);
    LeadingReadsBack(n, s);
  }

  /** Characters that end a size. */
  predicate EndsSize(s: string) {
    !IsDigit(First(s)) && First(s) != '*'
  }

  lemma WidthReadBack(p: Piece, s: string, args: nat -> Word, k: nat)
    requires p.Directive? && EndsSize(s)
    ensures ReadWidth(SizeFormat(p.width) + s, p.flags, args, k) ==
      Head(HeadOf(p, args, k).flags, HeadOf(p, args, k).width, -1, NoQualifier, s, if p.width.Given? then k + 1 else k)
  {
    match p.width
    case Omitted => assert "" + s == s;
    case Fixed(n) => NumeralRead(n, s);
    case Given => assert ("*" + s)[1..] == s;
  }

  lemma PrecisionReadBack(size: Size, s: string, h: Head, args: nat -> Word)
    requires EndsSize(s) && First(s) != '.' && h.rest == PrecisionFormat(size) + s && h.precision == -1
    ensures ReadPrecision(h, args) ==
      match size
      case Omitted => h.(rest := s)
      case Fixed(n) => h.(precision := n, rest := s)
      case Given => h.(precision := Max(0, Signed(args(h.next))), rest := s, next := h.next + 1)
  {
    match size
    case Omitted => assert "" + s == s;
    case Fixed(n) =>
      NumeralRead(n, s);
      PrecisionNumber(Numeral(n, 10, false), n, s, h, args);
    case Given => assert ("*" + s)[1..] == s && ("." + "*" + s)[1..] == "*" + s;
  }

  lemma PrecisionNumber(digits: string, n: nat, s: string, h: Head, args: nat -> Word)
    requires h.rest == "." + digits + s && IsDigit(First(digits + s))
    requires Leading(digits + s) == n && (digits + s)[DigitSpan(digits + s)..] == s
    ensures ReadPrecision(h, args) == h.(precision := n, rest := s)
  {
    assert h.rest[1..] == digits + s;
  }

  lemma QualifierReadBack(q: Qualifier, s: string, h: Head)
    requires First(s) != 'h' && First(s) != 'l' && h.rest == QualifierFormat(q) + s && h.qualifier == NoQualifier
    ensures ReadQualifier(h) == h.(qualifier := q, rest := s)
  {
    match q
    case NoQualifier => assert "" + s == s;
    case Short => assert ("h" + s)[1..] == s;
    case Long => assert ("l" + s)[1..] == s;
  }

  lemma SizeStarts(size: Size, s: string)
    requires size != Fixed(0) && !IsFlag(First(s))
    ensures !IsFlag(First(SizeFormat(size) + s))
  {
    match size
    case Omitted => assert "" + s == s;
    case Fixed(n) =>
      NumeralReadsBack(n, 10, false);
      assert (Numeral(n, 10, false) + s)[0] == Numeral(n, 10, false)[0];
    case Given =>
  }

  /** Where the parts of a directive begin, no part before them goes on. */
  lemma PartsEnd(p: Piece, s: string, s1: string, s2: string, s3: string)
    requires p.Directive? && s1 == ConversionFormat(p.conversion) + s
    requires s2 == QualifierFormat(p.qualifier) + s1 && s3 == PrecisionFormat(p.precision) + s2
    ensures First(s1) != 'h' && First(s1) != 'l' && EndsSize(s2) && First(s2) != '.' && EndsSize(s3)
    ensures !IsFlag(First(s3))
  {
    assert First(s1) == ConversionFormat(p.conversion)[0];
    if p.qualifier == NoQualifier { assert s2 == s1; }
    if p.precision == Omitted { assert s3 == s2; } else { assert First(s3) == '.'; }
  }

  /** What a directive's text reads as, whatever follows it. */
  lemma HeadReadsBack(p: Piece, s: string, args: nat -> Word, k: nat)
    requires p.Directive? && Proper(p)
    ensures ReadHead(Tail(PieceFormat(p) + s), args, k) ==
      HeadOf(p, args, k).(rest := ConversionFormat(p.conversion) + s)
  {
    var s1 := ConversionFormat(p.conversion) + s;
    var s2 := QualifierFormat(p.qualifier) + s1;
    var s3 := PrecisionFormat(p.precision) + s2;
    var s4 := SizeFormat(p.width) + s3;
    PartsEnd(p, s, s1, s2, s3);
    Joined(FlagsFormat(p.flags), SizeFormat(p.width), PrecisionFormat(p.precision), QualifierFormat(p.qualifier),
      ConversionFormat(p.conversion), s);
    SizeStarts(p.width, s3);
    FlagsReadBack(p.flags, s4);
    PartsReadBack(p, s1, s2, s3, args, k);
  }

  lemma Joined(f: string, w: string, n: string, q: string, c: string, s: string)
    ensures Tail("%" + (f + (w + (n + (q + c)))) + s) == f + (w + (n + (q + (c + s))))
  {
    assert "%" + (f + (w + (n + (q + c)))) + s == ['%'] + (f + (w + (n + (q + (c + s)))));
  }

  lemma PartsReadBack(p: Piece, s1: string, s2: string, s3: string, args: nat -> Word, k: nat)
    requires p.Directive? && s2 == QualifierFormat(p.qualifier) + s1 && s3 == PrecisionFormat(p.precision) + s2
    requires First(s1) != 'h' && First(s1) != 'l' && EndsSize(s2) && First(s2) != '.' && EndsSize(s3)
    ensures ReadQualifier(ReadPrecision(ReadWidth(SizeFormat(p.width) + s3, p.flags, args, k), args)) ==
      HeadOf(p, args, k).(rest := s1)
  {
    WidthReadBack(p, s3, args, k);
    var h := ReadWidth(SizeFormat(p.width) + s3, p.flags, args, k);
    PrecisionReadBack(p.precision, s2, h, args);
    QualifierReadBack(p.qualifier, s1, ReadPrecision(h, args));
  }

  lemma PlainStep(c: char, s: string, args: nat -> Word, strings: Word -> CString, k: nat)
    requires c != '%'
    ensures Rendered([c] + s, args, strings, k) == [c] + Rendered(s, args, strings, k)
  {
    assert ([c] + s)[1..] == s && ([c] + s)[..1] == [c];
  }

  lemma DirectiveStep(s: string, args: nat -> Word, strings: Word -> CString, k: nat)
    requires s != [] && s[0] == '%'
    ensures
      var h := ReadHead(Tail(s), args, k);
      Rendered(s, args, strings, k) == HeadText(h, args, strings) + Rendered(Tail(h.rest), args, strings, HeadNext(h))
  {
  }

  lemma Peeled(text: string, before: string, c: char, s: string, r: string)
    requires text == before + [c]
    ensures text + s == before + ([c] + s) && text + r == before + ([c] + r)
  {
  }

  lemma {:induction false} LiteralIsKept(text: string, s: string, args: nat -> Word, strings: Word -> CString, k: nat)
    requires Proper(Literal(text))
    ensures Rendered(text + s, args, strings, k) == text + Rendered(s, args, strings, k)
  {
    if text == [] {
      assert text + s == s;
    } else {
      var before, c := text[..|text| - 1], text[|text| - 1];
      PlainStep(c, s, args, strings, k);
      LiteralIsKept(before, [c] + s, args, strings, k);
      Peeled(text, before, c, s, Rendered(s, args, strings, k));
    }
  }

  lemma ConversionReadsBack(c: Conversion, s: string)
    ensures ConversionOf(First(ConversionFormat(c) + s)) == Some(c)
    ensures Tail(ConversionFormat(c) + s) == s
  {
  }

  /** One directive: its own text, and then that of what follows it. */
  lemma DirectiveIsRead(p: Piece, s: string, args: nat -> Word, strings: Word -> CString, k: nat)
    requires p.Directive? && Proper(p)
    ensures
      var h := HeadOf(p, args, k);
      Rendered(PieceFormat(p) + s, args, strings, k) ==
        Converted(p.conversion, h, args(h.next), strings) + Rendered(s, args, strings, After(p.conversion, h.next))
  {
    HeadReadsBack(p, s, args, k);
    DirectiveStep(PieceFormat(p) + s, args, strings, k);
    ReadHeadText(p.conversion, HeadOf(p, args, k), s, args, strings);
  }

  lemma ReadHeadText(c: Conversion, h: Head, s: string, args: nat -> Word, strings: Word -> CString)
    ensures
      var r := h.(rest := ConversionFormat(c) + s);
      && Tail(r.rest) == s && HeadNext(r) == After(c, h.next)
      && HeadText(r, args, strings) == Converted(c, r, args(h.next), strings) == Converted(c, h, args(h.next), strings)
  {
    ConversionReadsBack(c, s);
  }

  /** A format written from parts renders as the texts of its parts, one after another, each with the
      arguments that are its own. */
  lemma {:induction false} FormatMeans(pieces: seq<Piece>, args: nat -> Word, strings: Word -> CString, k: nat)
    requires forall i :: 0 <= i < |pieces| ==> Proper(pieces[i])
    ensures Rendered(FormatOf(pieces), args, strings, k) == Meaning(pieces, args, strings, k)
  {
    if pieces != [] {
      var p, s := pieces[0], FormatOf(pieces[1..]);
      match p
      case Literal(text) =>
        FormatMeans(pieces[1..], args, strings, k);
        LiteralIsKept(text, s, args, strings, k);
      case Directive(_, _, _, _, c) =>
        FormatMeans(pieces[1..], args, strings, After(c, HeadOf(p, args, k).next));
        DirectiveIsRead(p, s, args, strings, k);
    }
  }

  lemma MeaningOfOne(p: Piece, args: nat -> Word, strings: Word -> CString)
    requires p.Directive? && Proper(p)
    ensures
      var h := HeadOf(p, args, 0);
      Rendered(FormatOf([p]), args, strings, 0) == Converted(p.conversion, h, args(h.next), strings)
  {
    FormatMeans([p], args, strings, 0);
  }

  /** The number meant by what `%d` fetches. */
  lemma FetchedMeans(word: Word, qualifier: Qualifier, flags: Flags)
    requires flags.sign
    ensures Meant(Fetched(word, qualifier, flags), qualifier, flags) ==
      if qualifier == Short then SignedHalf(word) else Signed(word)
  {
  }

  lemma DecimalText(h: Head, word: Word, strings: Word -> CString)
    requires h.precision != 0
    ensures Scan(Converted(Decimal, h, word, strings)) ==
      if h.qualifier == Short then SignedHalf(word) else Signed(word)
  {
    var flags := h.flags.(sign := true, large := false);
    var fetched := Fetched(word, h.qualifier, flags);
    FetchedMeans(word, h.qualifier, flags);
    NumberReadsBack(fetched, h.qualifier, h.width, h.precision, flags, "");
    var text := NumberText(fetched, 10, h.qualifier, h.width, h.precision, flags);
    assert text + "" == text;
  }

  /** What `%d`, with any flags, width, precision but 0 and qualifier, writes reads back as the number
      in the argument: all of it, or the half that the qualifier asks for. */
  lemma DecimalReadsBack(p: Piece, args: nat -> Word, strings: Word -> CString)
    requires p.Directive? && Proper(p) && p.conversion == Decimal && HeadOf(p, args, 0).precision != 0
    ensures
      var word := args(HeadOf(p, args, 0).next);
      Scan(Rendered(FormatOf([p]), args, strings, 0)) == if p.qualifier == Short then SignedHalf(word) else Signed(word)
  {
    MeaningOfOne(p, args, strings);
    DecimalText(HeadOf(p, args, 0), args(HeadOf(p, args, 0).next), strings);
  }
}
