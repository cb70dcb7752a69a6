/**
  `rt_vsnprintf` and `print_number` (rt-thread/src/kservice.c): the format is read character by
  character, and each character of the text is stored only while there is room for it.
 */
module Printing {
  import opened Wrappers
  import opened Numerals
  import opened NumberFields
  import opened Formats

  /** A buffer that started as `before`, after `text` was written to its first `size` places. */
  ghost predicate Shows(cells: seq<char>, before: seq<char>, text: string, size: nat) {
    |cells| == |before|
    && forall i :: 0 <= i < |cells| ==> cells[i] == if i < |text| && i < size then text[i] else before[i]
  }

  class Printer {
    const fmt: CString
    const args: nat -> Word
    const strings: Word -> CString
    const buf: array<char>
    const size: nat
    ghost const before: seq<char>
    var pos: nat               // how far `fmt` is read
    var nextArg: nat
    var str: nat               // where the next character goes
    ghost var text: string     // all characters written, stored or not

    ghost predicate Valid()
      reads this, buf
    {
      && size <= buf.Length && pos <= |fmt| && str == |text| && Shows(buf[..], before, text, size)
    }

    constructor (buf: array<char>, size: nat, fmt: CString, args: nat -> Word, strings: Word -> CString)
      requires size <= buf.Length
      ensures Valid() && this.buf == buf && this.size == size && this.fmt == fmt && this.args == args
      ensures this.strings == strings
      ensures text == "" && pos == 0 && nextArg == 0 && before == buf[..]
    {
      this.buf, this.size, this.fmt, this.args, this.strings := buf, size, fmt, args, strings;
      before, text, pos, nextArg, str := buf[..], "", 0, 0, 0;
    }

    /** `*fmt`; a NUL at the end. */
    function Char(): char
      reads this`pos
    {
      if pos < |fmt| then fmt[pos] else '\0'
    }

    /** The format that is still to be read. */
    function Left(): string
      requires pos <= |fmt|
      reads this`pos
    {
      fmt[pos..]
    }

    /** One character; it counts even when it is not stored. */
    method Put(c: char)
      requires Valid()
      modifies `str, `text, buf
      ensures Valid() && text == old(text) + [c]
    {
      if str < size {
        buf[str] := c;
      }
      str := str + 1;
      text := text + [c];
    }

    /** `while (count-- > 0)` with the same character each time */
    method Pad(c: char, count: int)
      requires Valid()
      modifies `str, `text, buf
      ensures Valid() && text == old(text) + Repeat(c, count)
    {
      var left := count;
      while left > 0
        invariant Valid() && (left >= 0 || left == count)
        invariant text == old(text) + Repeat(c, if count < 0 then 0 else count - left)
      {
        Put(c);
        left := left - 1;
      }
    }

    /** The first `count` characters of a string. */
    method PutString(s: string, count: nat)
      requires Valid() && count <= |s|
      modifies `str, `text, buf
      ensures Valid() && text == old(text) + s[..count]
    {
      var i := 0;
      while i < count
        invariant Valid() && i <= count && text == old(text) + s[..i]
      {
        Put(s[i]);
        i := i + 1;
      }
    }

    /** The digits from the last in `tmp` to the first. */
    method PutDigits(tmp: array<char>, count: nat)
      requires Valid() && count <= tmp.Length && tmp != buf
      modifies `str, `text, buf
      ensures Valid() && text == old(text) + Reversed(tmp[..count])
    {
      var i: nat := count;
      while i > 0
        invariant Valid() && i <= count && text + Reversed(tmp[..i]) == old(text) + Reversed(tmp[..count])
      {
        i := i - 1;
        assert tmp[..i + 1][..i] == tmp[..i];
        assert Reversed(tmp[..i + 1]) == [tmp[i]] + Reversed(tmp[..i]);
        Put(tmp[i]);
      }
    }

    /** The sign and the magnitude in `print_number`. */
    method Sign(num: Word, qualifier: Qualifier, flags: Flags) returns (sign: string, rest: Word)
      ensures sign == SignText(Meant(num, qualifier, flags), flags)
      ensures rest == Magnitude(Meant(num, qualifier, flags))
    {
      sign, rest := "", num;
      if flags.sign {
        if qualifier == Short {
          if SignedHalf(num) < 0 {
            HalfNegated(num);
            sign, rest := "-", (WORDS - num) % 0x1_0000;
          }
        } else if Signed(num) < 0 {
          sign, rest := "-", WORDS - num;
        }
        if sign != "-" {
          if flags.plus {
            sign := "+";
          } else if flags.space {
            sign := " ";
          }
        }
      }
    }

    /** The places that the prefix takes, as `print_number` counts them before it writes. */
    method PrefixRoom(base: nat, flags: Flags) returns (n: nat)
      ensures n == |PrefixText(base, flags)|
    {
      n := 0;
      if flags.special {
        if base == 2 || base == 16 {
          n := 2;
        } else if base == 8 {
          n := 1;
        }
      }
    }

    method PutPrefix(base: nat, flags: Flags)
      requires Valid()
      modifies `str, `text, buf
      ensures Valid() && text == old(text) + PrefixText(base, flags)
    {
      if flags.special {
        if base == 2 {
          Put('0');
          Put('b');
        } else if base == 8 {
          Put('0');
        } else if base == 16 {
          Put('0');
          Put(if flags.large then 'X' else 'x');
        }
      }
    }

    /** The blanks before a number. A count that has run out stays below 0. */
    method PutBlanks(size: int, sign: string, zeropad: bool, left: bool) returns (rest: int)
      requires Valid() && |sign| <= 1
      modifies `str, `text, buf
      ensures Valid() && text == old(text) + Repeat(' ', if left || zeropad then 0 else size - |sign|)
      ensures if left || zeropad then rest == size else rest < 0
    {
      rest := size;
      if !zeropad && !left {
        if sign != "" && rest > 0 {
          rest := rest - 1;
        }
        Pad(' ', rest);
        rest := if rest > 0 then -1 else rest - 1;
      }
    }

    method PutSign(size: int, sign: string) returns (rest: int)
      requires Valid() && |sign| <= 1
      modifies `str, `text, buf
      ensures Valid() && text == old(text) + sign && rest == size - |sign|
    {
      rest := size;
      if sign != "" {
        Put(sign[0]);
        rest := rest - 1;
      }
    }

    /** The zeros between the sign and the number. */
    method PutZeros(size: int, zeropad: bool, left: bool) returns (rest: int)
      requires Valid() && (zeropad ==> !left) && (!left && !zeropad ==> size < 0)
      modifies `str, `text, buf
      ensures Valid() && text == old(text) + Repeat('0', if zeropad then size else 0)
      ensures if left then rest == size else rest < 0
    {
      rest := size;
      if !left {
        Pad(if zeropad then '0' else ' ', rest);
        rest := if rest > 0 then -1 else rest - 1;
      }
    }

    /** The digits, unless the precision given is 0. */
    method PutBody(tmp: array<char>, i: nat, precision: int, given: int)
      requires Valid() && tmp != buf && i <= tmp.Length && precision == Max(i, given)
      modifies `str, `text, buf
      ensures Valid() && text == old(text) + Padded(Reversed(tmp[..i]), given)
    {
      Pad('0', precision - i);
      if given != 0 {
        PutDigits(tmp, i);
      }
    }

    /** `print_number`: the field is filled before the sign, or between prefix and digits, or after the
        digits. */
    method PrintNumber(word: Word, base: nat, qualifier: Qualifier, width: int, given: int, flags: Flags)
      requires Valid() && IsBase(base)
      modifies `str, `text, buf
      ensures Valid() && text == old(text) + NumberText(word, base, qualifier, width, given, flags)
    {
      var sign, num := Sign(word, qualifier, flags);
      var prefix := PrefixRoom(base, flags);
      var tmp, i := Convert(num, base, flags.large);
      var precision := if i > given then i else given;
      WriteNumber(Meant(word, qualifier, flags), width, width - prefix - precision, sign, base, flags, tmp, i,
        precision, given);
    }

    /** The number `n`, given its sign and its digits. */
    method WriteNumber(ghost n: int, ghost width: int, room: int, sign: string, base: nat, flags: Flags,
                       tmp: array<char>, i: nat, precision: int, given: int)
      requires Valid() && tmp != buf && i <= tmp.Length && precision == Max(i, given) && IsBase(base)
      requires sign == SignText(n, flags) && Reversed(tmp[..i]) == Numeral(Magnitude(n), base, flags.large)
      requires room == width - |PrefixText(base, flags)| - precision
      modifies `str, `text, buf
      ensures Valid() && text == old(text) + TextOf(n, base, width, given, flags)
    {
      NumberIs(text, n, base, width, given, flags, Reversed(tmp[..i]));
      Write(room, sign, base, flags, tmp, i, precision, given);
    }

    /** The part of `print_number` that writes. */
    method Write(room: int, sign: string, base: nat, flags: Flags, tmp: array<char>, i: nat, precision: int, given: int)
      requires Valid() && tmp != buf && i <= tmp.Length && |sign| <= 1 && precision == Max(i, given)
      modifies `str, `text, buf
      ensures Valid()
      ensures text ==
        Written(old(text), sign, PrefixText(base, flags), Padded(Reversed(tmp[..i]), given), room - |sign|, flags)
    {
      var zeropad := flags.zeropad && !flags.left;
      var size := PutBlanks(room, sign, zeropad, flags.left);
      size := PutSign(size, sign);
      PutPrefix(base, flags);
      size := PutZeros(size, zeropad, flags.left);
      PutBody(tmp, i, precision, given);
      Pad(' ', size);
      assert !flags.left ==> Repeat(' ', size) == Repeat(' ', 0);
    }

    /** `skip_atoi` */
    method SkipAtoi() returns (i: nat)
      requires pos <= |fmt|
      modifies `pos
      ensures old(pos) <= pos <= |fmt| && i == Leading(old(Left())) && Left() == old(Left())[DigitSpan(old(Left()))..]
    {
      ghost var s, start := Left(), pos;
      i := 0;
      while IsDigit(Char())
        invariant start <= pos <= |fmt| && AllDigits(fmt[start..pos]) && i == ValueOf(fmt[start..pos], 10)
        decreases |fmt| - pos
      {
        ValueAppend(fmt[start..pos], fmt[pos], 10);
        assert fmt[start..pos + 1] == fmt[start..pos] + [fmt[pos]];
        i := i * 10 + (Char() - '0') as nat;
        pos := pos + 1;
      }
      SpanIs(fmt[start..pos], fmt[pos..]);
      assert s == fmt[start..pos] + fmt[pos..];
    }

    /** The loop over flags; it starts at the `%`. */
    method TakeFlags() returns (flags: Flags)
      requires pos < |fmt|
      modifies `pos
      ensures old(pos) < pos <= |fmt| && (flags, Left()) == ReadFlags(Tail(old(Left())), NoFlags)
    {
      flags := NoFlags;
      ghost var s := Tail(Left());
      pos := pos + 1;
      while IsFlag(Char())
        invariant old(pos) < pos <= |fmt| && ReadFlags(Left(), flags) == ReadFlags(s, NoFlags)
        decreases |fmt| - pos
      {
        flags := AddFlag(Char(), flags);
        pos := pos + 1;
      }
    }

    /** The field width. */
    method TakeWidth(flags: Flags) returns (h: Head)
      requires pos <= |fmt|
      modifies `pos, `nextArg
      ensures old(pos) <= pos <= |fmt| && h.rest == Left() && h.next == nextArg && h.precision == -1
      ensures h.qualifier == NoQualifier
      ensures h == ReadWidth(old(Left()), flags, args, old(nextArg))
    {
      var width, f := -1, flags;
      if IsDigit(Char()) {
        width := SkipAtoi();
      } else if Char() == '*' {
        pos := pos + 1;
        width := Signed(args(nextArg));
        nextArg := nextArg + 1;
        if width < 0 {
          width, f := -width, f.(left := true);
        }
      }
      h := Head(f, width, -1, NoQualifier, Left(), nextArg);
    }

    /** The precision. */
    method TakePrecision(h: Head) returns (r: Head)
      requires pos <= |fmt| && h.rest == Left() && h.next == nextArg && h.precision == -1
      modifies `pos, `nextArg
      ensures old(pos) <= pos <= |fmt| && r == ReadPrecision(h, args) && r.rest == Left() && r.next == nextArg
      ensures r.qualifier == h.qualifier
    {
      var precision := -1;
      if Char() == '.' {
        pos := pos + 1;
        if IsDigit(Char()) {
          precision := SkipAtoi();
        } else if Char() == '*' {
          pos := pos + 1;
          precision := Signed(args(nextArg));
          nextArg := nextArg + 1;
        }
        if precision < 0 {
          precision := 0;
        }
      }
      r := h.(precision := precision, rest := Left(), next := nextArg);
    }

    /** The qualifier. */
    method TakeQualifier(h: Head) returns (r: Head)
      requires pos <= |fmt| && h.rest == Left() && h.qualifier == NoQualifier
      modifies `pos
      ensures old(pos) <= pos <= |fmt| && r == ReadQualifier(h) && r.rest == Left() && r.next == h.next
    {
      var qualifier := NoQualifier;
      if Char() == 'h' || Char() == 'l' {
        qualifier := if Char() == 'h' then Short else Long;
        pos := pos + 1;
      }
      r := h.(qualifier := qualifier, rest := Left());
    }

    /** `c` */
    method PrintChar(word: Word, width: int, left: bool)
      requires Valid()
      modifies `str, `text, buf
      ensures Valid() && text == old(text) + CharText(word, width, left)
    {
      if !left {
        Pad(' ', width - 1);
      }
      Put((word % 256) as char);
      if left {
        Pad(' ', width - 1);
      }
    }

    /** The characters of a string that are written. */
    method Length(s: CString, width: int, precision: int) returns (len: nat)
      ensures len == Shown(s, width, precision)
    {
      len := 0;
      while len != width && len < |s|
        invariant len <= |s| && (0 <= width ==> len <= width)
        decreases |s| - len
      {
        len := len + 1;
      }
      if precision > 0 && len > precision {
        len := precision;
      }
    }

    /** `s` */
    method PrintString(s: CString, width: int, precision: int, left: bool)
      requires Valid()
      modifies `str, `text, buf
      ensures Valid() && text == old(text) + StringText(s, width, precision, left)
    {
      var len := Length(s, width, precision);
      if !left {
        Pad(' ', width - len);
      }
      PutString(s, len);
      if left {
        Pad(' ', width - len);
      }
    }

    /** The conversions that write a number. */
    method PrintWord(c: Conversion, h: Head, word: Word)
      requires Valid() && c !in {Character, Text, Percent, Pointer}
      modifies `str, `text, buf
      ensures Valid() && text == old(text) + Converted(c, h, word, strings)
    {
      var base := match c case Binary => 2 case Octal => 8 case Hex => 16 case LargeHex => 16 case _ => 10;
      var flags := h.flags.(sign := c == Decimal, large := c == LargeHex);
      var num: Word := word;
      if h.qualifier == Short {
        num := word % 0x1_0000;
        if flags.sign && SignedHalf(num) < 0 {
          num := WORDS + SignedHalf(num);
        }
      }
      PrintNumber(num, base, h.qualifier, h.width, h.precision, flags);
    }

    /** The switch over conversions. */
    method Print(c: Conversion, h: Head)
      requires Valid() && h.next == nextArg
      modifies `nextArg, `str, `text, buf
      ensures Valid() && nextArg == After(c, h.next) && text == old(text) + Converted(c, h, args(h.next), strings)
    {
      var word := args(nextArg);
      match c {
        case Character =>
          PrintChar(word, h.width, h.flags.left);
        case Text =>
          PrintString(if word == 0 then "(NULL)" else strings(word), h.width, h.precision, h.flags.left);
        case Percent =>
          Put('%');
        case Pointer =>
          if h.width == -1 {
            PrintNumber(word, 16, h.qualifier, 10, h.precision, h.flags.(special := true, zeropad := true));
          } else {
            PrintNumber(word, 16, h.qualifier, h.width, h.precision, h.flags);
          }
        case _ =>
          PrintWord(c, h, word);
      }
      nextArg := if c == Percent then nextArg else nextArg + 1;
    }

    /** One directive, from its `%` to its conversion. */
    method Directive()
      requires Valid() && pos < |fmt| && fmt[pos] == '%'
      modifies `pos, `nextArg, `str, `text, buf
      ensures Valid() && old(pos) < pos
      ensures
        var h := ReadHead(Tail(old(Left())), args, old(nextArg));
        Left() == Tail(h.rest) && nextArg == HeadNext(h) && text == old(text) + HeadText(h, args, strings)
    {
      var h := TakeHead();
      Conversion(h);
    }

    /** The conversion of a directive, whose head was read. */
    method Conversion(h: Head)
      requires Valid() && h.rest == Left() && h.next == nextArg
      modifies `pos, `nextArg, `str, `text, buf
      ensures Valid() && old(pos) <= pos
      ensures Left() == Tail(h.rest) && nextArg == HeadNext(h) && text == old(text) + HeadText(h, args, strings)
    {
      var c := ConversionOf(Char());
      if c.Some? {
        KnownText(h, c.value, args, strings);
        pos := pos + 1;
        Print(c.value, h);
      } else {
        UnknownText(h, args, strings);
        PrintUnknown();
      }
    }

    /** A conversion that is not known, or the end of the format. */
    method PrintUnknown()
      requires Valid()
      modifies `pos, `str, `text, buf
      ensures Valid() && old(pos) <= pos && Left() == Tail(old(Left()))
      ensures text == old(text) + if old(Left()) == [] then "%" else "%" + old(Left())[..1]
    {
      Put('%');
      if Char() != '\0' {
        Put(Char());
        pos := pos + 1;
      }
    }

    /** What stands before the conversion. */
    method TakeHead() returns (h: Head)
      requires pos < |fmt|
      modifies `pos, `nextArg
      ensures old(pos) < pos <= |fmt|
      ensures h == ReadHead(Tail(old(Left())), args, old(nextArg)) && h.rest == Left() && h.next == nextArg
    {
      ghost var s, k := Tail(Left()), nextArg;
      var flags := TakeFlags();
      ghost var rest := Left();
      var a := TakeWidth(flags);
      var b := TakePrecision(a);
      h := TakeQualifier(b);
      HeadParts(s, args, k, flags, rest, a, b, h);
    }

    /** The loop over the format. */
    method Format()
      requires Valid() && text == "" && pos == 0 && nextArg == 0
      modifies `pos, `nextArg, `str, `text, buf
      ensures Valid() && text == Rendered(fmt, args, strings, 0)
    {
      assert Left() == fmt;
      while Char() != '\0'
        invariant Valid() && text + Rendered(Left(), args, strings, nextArg) == Rendered(fmt, args, strings, 0)
        decreases |fmt| - pos
      {
        ghost var was, left, k := text, Left(), nextArg;
        if Char() != '%' {
          PlainStep(left[0], left[1..], args, strings, k);
          Associates(was, [left[0]], Rendered(left[1..], args, strings, k));
          assert left == [left[0]] + left[1..];
          Put(Char());
          pos := pos + 1;
          assert Left() == left[1..];
        } else {
          DirectiveStep(left, args, strings, k);
          Directive();
          Associates(was, HeadText(ReadHead(Tail(left), args, k), args, strings),
            Rendered(Left(), args, strings, nextArg));
        }
      }
      assert Left() == "";
    }
  }

  /** `(rt_uint16_t)-num` */
  lemma HalfNegated(num: Word)
    requires SignedHalf(num) < 0
    ensures (WORDS - num) % 0x1_0000 == -SignedHalf(num)
  {
    var q, r := num / 0x1_0000, num % 0x1_0000;
    assert WORDS - num == (0xFFFF - q) * 0x1_0000 + (0x1_0000 - r);
  }

  lemma Associates(a: string, b: string, c: string)
    ensures (a + b) + c == a + (b + c)
  {
  }

  /** The parts of a number in the order that they are written. */
  ghost function Written(s: string, sign: string, prefix: string, body: string, fill: int, flags: Flags): string {
    s + Repeat(' ', if flags.left || flags.zeropad then 0 else fill) + sign + prefix
    + Repeat('0', if flags.zeropad && !flags.left then fill else 0) + body + Repeat(' ', if flags.left then fill else 0)
  }

  lemma JoinText(s: string, sign: string, prefix: string, body: string, fill: int, flags: Flags)
    ensures Written(s, sign, prefix, body, fill, flags) == s + Filled(sign + prefix, body, fill, flags)
  {
  }

  lemma NumberIs(s: string, n: int, base: nat, width: int, given: int, flags: Flags, digits: string)
    requires IsBase(base) && digits == Numeral(Magnitude(n), base, flags.large)
    ensures
      var sign, prefix := SignText(n, flags), PrefixText(base, flags);
      Written(s, sign, prefix, Padded(digits, given), width - |prefix| - Max(|digits|, given) - |sign|, flags)
        == s + TextOf(n, base, width, given, flags)
  {
    var sign, prefix := SignText(n, flags), PrefixText(base, flags);
    JoinText(s, sign, prefix, Padded(digits, given), width - |prefix| - Max(|digits|, given) - |sign|, flags);
  }

  lemma HeadParts(s: string, args: nat -> Word, k: nat, flags: Flags, rest: string, a: Head, b: Head, c: Head)
    requires (flags, rest) == ReadFlags(s, NoFlags) && a == ReadWidth(rest, flags, args, k)
    requires b == ReadPrecision(a, args) && c == ReadQualifier(b)
    ensures c == ReadHead(s, args, k)
  {
  }

  /** `rt_vsnprintf`: the result is the length of the whole text, the buffer holds as much of it as
      fits with a NUL after it, and nothing else of the buffer is written. */
  method Vsnprintf(buf: array<char>, size: nat, fmt: CString, args: nat -> Word,
                   strings: Word -> CString) returns (n: nat)
    requires size <= buf.Length
    modifies buf
    ensures n == |Rendered(fmt, args, strings, 0)|
    ensures
      var end := if n < size then n else size - 1;
      forall i :: 0 <= i < buf.Length ==>
        buf[i] == if i < end then Rendered(fmt, args, strings, 0)[i] else if i == end then '\0' else old(buf[i])
  {
    var printer := new Printer(buf, size, fmt, args, strings);
    printer.Format();
    if size > 0 {
      if printer.str < size {
        buf[printer.str] := '\0';
      } else {
        buf[size - 1] := '\0';
      }
    }
    n := printer.str;
  }
}
