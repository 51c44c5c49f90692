/** What the plain specifiers print, format by format. */
module PrintfPlain {
  import opened Machine
  import opened Numeral
  import opened PrintfText
  import opened PrintfIso
  import opened PrintfGrammar

  /** The bytes of a format written as a string. */
  function Ascii(s: string): (t: seq<byte>)
    ensures |t| == |s|
  {
    seq(|s|, i requires 0 <= i < |s| => LowByte(s[i] as int))
  }

  function Decimal(v: int): seq<byte> {
    if v < 0 then ['-' as int] + Text(-v, 10, false) else Text(v, 10, false)
  }

  /** u below the modulus as a number in two's complement. */
  function TwosComplement(u: nat, modulus: nat): int {
    if 2 * u < modulus then u else u - modulus
  }

  function Plain(length: PrintfGrammar.Length, spec: byte): Piece {
    Directive([], NoWidth, NoPrecision, length, spec)
  }

  lemma PlainFormat(length: PrintfGrammar.Length, spec: byte)
    ensures FormatText([Plain(length, spec)]) == ['%' as int] + LengthText(length) + [spec]
  {
    var d := Plain(length, spec);
    assert FormatText([d][1..]) == [];
    assert PieceText(d) == ['%' as int] + LengthText(length) + [spec];
  }

  lemma PlainConversion(length: PrintfGrammar.Length, spec: byte, args: seq<Arg>)
    ensures ConversionOf(Plain(length, spec), args) == Some((Conversion(WithLength(NO_FLAGS, length), 0, 0, spec), 0))
  {
    hide WithLength;
    assert WithFlags(NO_FLAGS, []) == NO_FLAGS;
    assert args[0..] == args;
  }

  /** One specifier with one argument. */
  lemma PlainOutput(format: seq<byte>, length: PrintfGrammar.Length, spec: byte, arg: Arg)
    requires TakesArgument(spec) && format == ['%' as int] + LengthText(length) + [spec]
    ensures Output(format, 0, [arg]) == ConversionText(Conversion(WithLength(NO_FLAGS, length), 0, 0, spec), Some(arg))
  {
    hide ConversionOf, ConversionText, Output, FormatText, Meaning, WithLength, TakesArgument, LengthText;
    var d, args := Plain(length, spec), [arg];
    PlainFormat(length, spec);
    PlainConversion(length, spec, args);
    OutputIsMeaning([d], args);
    FirstPiece([d], args);
    NoPieces([]);
    assert [d][1..] == [] && args[0..][1..] == [];
    var t := ConversionText(Conversion(WithLength(NO_FLAGS, length), 0, 0, spec), Some(arg));
    assert t.Some? ==> t.value + [] == t.value;
  }

  /** A number without width, precision and flags. */
  lemma BareNumber(value: nat, negative: bool, base: nat, flags: Flags)
    requires 2 <= base <= 36 && value < DWORD_LIMIT && |Text(value, base, flags.upper)| <= 32 && (negative ==> base == 10)
    requires !flags.zeropad && !flags.left && !flags.plus && !flags.space && !flags.hash && !flags.precision
    ensures NumberText(value, negative, base, 0, 0, flags) ==
      (if negative then ['-' as int] else []) + Text(value, base, flags.upper)
  {
    hide NumberText, Text;
    var t, sign := Text(value, base, flags.upper), if negative then ['-' as int] else [];
    FollowingIsIso(value, negative, base, 0, 0, flags);
    IsoDigitsAre(value, base, 0, flags);
    assert Repeat(ZERO, 0) + t == t && Repeat(SPACE, 0) + sign + t == sign + t;
  }

  lemma WordDecimal(value: nat)
    requires value < DWORD_LIMIT
    ensures |Text(value, 10, false)| <= 20
  {
    hide Digits;
    SignedDecimalFits(value, 10, NO_FLAGS);
  }

  /** The argument of an integer specifier, as its magnitude and sign. */
  lemma PlainInteger(format: seq<byte>, length: PrintfGrammar.Length, spec: byte, arg: Arg, n: Integer, base: nat)
    requires IsIntegerSpec(spec) && format == ['%' as int] + LengthText(length) + [spec]
    requires IntegerArg(WithLength(NO_FLAGS, length), spec, arg) == Some(n) && base == BaseOf(spec)
    requires n.negative ==> base == 10
    requires |Text(n.magnitude, base, spec == 'X' as int)| <= 32
    ensures Output(format, 0, [arg]) ==
      Some((if n.negative then ['-' as int] else []) + Text(n.magnitude, base, spec == 'X' as int))
  {
    hide Output, Text, NumberText, LengthText, IntegerArg, IsSignedSpec;
    PlainOutput(format, length, spec, arg);
    BareNumber(n.magnitude, n.negative, base, IntegerFlags(WithLength(NO_FLAGS, length), spec));
  }

  lemma PlainSigned(format: seq<byte>, length: PrintfGrammar.Length, spec: byte, n: word)
    requires spec == 'd' as int || spec == 'i' as int
    requires format == ['%' as int] + LengthText(length) + [spec]
    requires length.NoLength? || length.LengthL? || length.LengthZ? || length.LengthT?
    ensures Output(format, 0, [WordArg(n)]) == Some(Decimal(TwosComplement(n, 0x1_0000_0000)))
  {
    hide Output, Text, LengthText;
    var v := TwosComplement(n, 0x1_0000_0000);
    var m := Integer(if v < 0 then -v else v, v < 0);
    WordDecimal(m.magnitude);
    assert IntegerArg(WithLength(NO_FLAGS, length), spec, WordArg(n)) == Some(m);
    PlainInteger(format, length, spec, WordArg(n), m, 10);
    assert [] + Text(m.magnitude, 10, false) == Text(m.magnitude, 10, false);
  }

  lemma PlainUnsigned(format: seq<byte>, length: PrintfGrammar.Length, spec: byte, n: word)
    requires IsIntegerSpec(spec) && spec != 'd' as int && spec != 'i' as int
    requires format == ['%' as int] + LengthText(length) + [spec]
    requires length.NoLength? || length.LengthL? || length.LengthZ? || length.LengthT?
    ensures Output(format, 0, [WordArg(n)]) == Some(Text(n, BaseOf(spec), spec == 'X' as int))
  {
    hide Output, LengthText, Digits;
    WordDigits(n, BaseOf(spec));
    assert IntegerArg(WithLength(NO_FLAGS, length), spec, WordArg(n)) == Some(Integer(n, false));
    PlainInteger(format, length, spec, WordArg(n), Integer(n, false), BaseOf(spec));
    var t := Text(n, BaseOf(spec), spec == 'X' as int);
    assert [] + t == t;
  }

  lemma LengthTexts()
    ensures LengthText(NoLength) == []
    ensures LengthText(LengthL) == ['l' as int] && LengthText(LengthLL) == ['l' as int, 'l' as int]
    ensures LengthText(LengthH) == ['h' as int] && LengthText(LengthHH) == ['h' as int, 'h' as int]
    ensures LengthText(LengthT) == ['t' as int] && LengthText(LengthZ) == ['z' as int] && LengthText(LengthJ) == ['j' as int]
  {
  }

  lemma AsciiTwo(a: char, b: char)
    requires a as int < 256 && b as int < 256
    ensures Ascii([a, b]) == [a as int, b as int] == [a as int] + LengthText(NoLength) + [b as int]
  {
  }

  lemma AsciiThree(a: char, b: char, c: char)
    requires a as int < 256 && b as int < 256 && c as int < 256
    ensures Ascii([a, b, c]) == [a as int] + [b as int] + [c as int]
  {
  }

  lemma AsciiFour(a: char, b: char, c: char, d: char)
    requires a as int < 256 && b as int < 256 && c as int < 256 && d as int < 256
    ensures Ascii([a, b, c, d]) == [a as int] + [b as int, c as int] + [d as int]
  {
  }

  /** int: signed decimals. */
  lemma PlainInts(n: word)
    ensures Output(Ascii("%d"), 0, [WordArg(n)]) == Some(Decimal(TwosComplement(n, 0x1_0000_0000)))
    ensures Output(Ascii("%i"), 0, [WordArg(n)]) == Some(Decimal(TwosComplement(n, 0x1_0000_0000)))
  {
    hide Output, Text, Ascii, Decimal, TwosComplement, LengthText;
    AsciiTwo('%', 'd');
    PlainSigned(Ascii("%d"), NoLength, 'd' as int, n);
    AsciiTwo('%', 'i');
    PlainSigned(Ascii("%i"), NoLength, 'i' as int, n);
  }

  /** unsigned int in decimal and hexadecimal. */
  lemma PlainDecimalAndHex(n: word)
    ensures Output(Ascii("%u"), 0, [WordArg(n)]) == Some(Text(n, 10, false))
    ensures Output(Ascii("%x"), 0, [WordArg(n)]) == Some(Text(n, 16, false))
    ensures Output(Ascii("%X"), 0, [WordArg(n)]) == Some(Text(n, 16, true))
  {
    hide Output, Text, Ascii, LengthText;
    AsciiTwo('%', 'u');
    PlainUnsigned(Ascii("%u"), NoLength, 'u' as int, n);
    AsciiTwo('%', 'x');
    PlainUnsigned(Ascii("%x"), NoLength, 'x' as int, n);
    AsciiTwo('%', 'X');
    PlainUnsigned(Ascii("%X"), NoLength, 'X' as int, n);
  }

  /** unsigned int in octal and binary. */
  lemma PlainOctalAndBinary(n: word)
    ensures Output(Ascii("%o"), 0, [WordArg(n)]) == Some(Text(n, 8, false))
    ensures Output(Ascii("%b"), 0, [WordArg(n)]) == Some(Text(n, 2, false))
  {
    hide Output, Text, Ascii, LengthText;
    AsciiTwo('%', 'o');
    PlainUnsigned(Ascii("%o"), NoLength, 'o' as int, n);
    AsciiTwo('%', 'b');
    PlainUnsigned(Ascii("%b"), NoLength, 'b' as int, n);
  }

  /** long, size_t and ptrdiff_t have 32 bits. */
  lemma PlainLongs(n: word)
    ensures Output(Ascii("%ld"), 0, [WordArg(n)]) == Some(Decimal(TwosComplement(n, 0x1_0000_0000)))
    ensures Output(Ascii("%zd"), 0, [WordArg(n)]) == Some(Decimal(TwosComplement(n, 0x1_0000_0000)))
    ensures Output(Ascii("%td"), 0, [WordArg(n)]) == Some(Decimal(TwosComplement(n, 0x1_0000_0000)))
  {
    hide Output, Text, Ascii, Decimal, TwosComplement, LengthText;
    LengthTexts();
    AsciiThree('%', 'l', 'd');
    PlainSigned(Ascii("%ld"), LengthL, 'd' as int, n);
    AsciiThree('%', 'z', 'd');
    PlainSigned(Ascii("%zd"), LengthZ, 'd' as int, n);
    AsciiThree('%', 't', 'd');
    PlainSigned(Ascii("%td"), LengthT, 'd' as int, n);
  }

  lemma PlainUnsignedLongs(n: word)
    ensures Output(Ascii("%lu"), 0, [WordArg(n)]) == Some(Text(n, 10, false))
    ensures Output(Ascii("%lx"), 0, [WordArg(n)]) == Some(Text(n, 16, false))
    ensures Output(Ascii("%zu"), 0, [WordArg(n)]) == Some(Text(n, 10, false))
  {
    hide Output, Text, Ascii, LengthText;
    LengthTexts();
    AsciiThree('%', 'l', 'u');
    PlainUnsigned(Ascii("%lu"), LengthL, 'u' as int, n);
    AsciiThree('%', 'l', 'x');
    PlainUnsigned(Ascii("%lx"), LengthL, 'x' as int, n);
    AsciiThree('%', 'z', 'u');
    PlainUnsigned(Ascii("%zu"), LengthZ, 'u' as int, n);
  }

  /** short: the low 16 bits, with their sign or without. */
  lemma PlainShorts(n: word)
    ensures Output(Ascii("%hd"), 0, [WordArg(n)]) == Some(Decimal(TwosComplement(n % 0x1_0000, 0x1_0000)))
    ensures Output(Ascii("%hu"), 0, [WordArg(n)]) == Some(Text(n % 0x1_0000, 10, false))
  {
    hide Output, Text, Ascii, LengthText;
    LengthTexts();
    var v := TwosComplement(n % 0x1_0000, 0x1_0000);
    var m, u := Integer(if v < 0 then -v else v, v < 0), Integer(n % 0x1_0000, false);
    WordDecimal(m.magnitude);
    WordDecimal(u.magnitude);
    AsciiThree('%', 'h', 'd');
    ShortArg(n);
    PlainInteger(Ascii("%hd"), LengthH, 'd' as int, WordArg(n), m, 10);
    AsciiThree('%', 'h', 'u');
    PlainInteger(Ascii("%hu"), LengthH, 'u' as int, WordArg(n), u, 10);
    assert [] + Text(m.magnitude, 10, false) == Text(m.magnitude, 10, false);
    assert [] + Text(u.magnitude, 10, false) == Text(u.magnitude, 10, false);
  }

  lemma ShortArg(n: word)
    ensures var v := TwosComplement(n % 0x1_0000, 0x1_0000); var f := WithLength(NO_FLAGS, LengthH);
      && IntegerArg(f, 'd' as int, WordArg(n)) == Some(Integer(if v < 0 then -v else v, v < 0))
      && IntegerArg(f, 'u' as int, WordArg(n)) == Some(Integer(n % 0x1_0000, false))
  {
  }

  /** char: the low byte, never with a sign. */
  lemma PlainChars(n: word)
    ensures Output(Ascii("%hhd"), 0, [WordArg(n)]) == Some(Text(n % 256, 10, false))
    ensures Output(Ascii("%hhu"), 0, [WordArg(n)]) == Some(Text(n % 256, 10, false))
  {
    hide Output, Text, Ascii, LengthText;
    LengthTexts();
    var u := Integer(n % 256, false);
    WordDecimal(u.magnitude);
    CharArg(n);
    AsciiFour('%', 'h', 'h', 'd');
    PlainInteger(Ascii("%hhd"), LengthHH, 'd' as int, WordArg(n), u, 10);
    AsciiFour('%', 'h', 'h', 'u');
    PlainInteger(Ascii("%hhu"), LengthHH, 'u' as int, WordArg(n), u, 10);
    assert [] + Text(u.magnitude, 10, false) == Text(u.magnitude, 10, false);
  }

  lemma CharArg(n: word)
    ensures var f := WithLength(NO_FLAGS, LengthHH);
      && IntegerArg(f, 'd' as int, WordArg(n)) == Some(Integer(n % 256, false))
      && IntegerArg(f, 'u' as int, WordArg(n)) == Some(Integer(n % 256, false))
  {
  }

  /** long long and intmax_t have 64 bits. */
  lemma PlainLongLongs(n: dword)
    ensures Output(Ascii("%lld"), 0, [DwordArg(n)]) == Some(Decimal(TwosComplement(n, 0x1_0000_0000_0000_0000)))
    ensures Output(Ascii("%jd"), 0, [DwordArg(n)]) == Some(Decimal(TwosComplement(n, 0x1_0000_0000_0000_0000)))
    ensures Output(Ascii("%llu"), 0, [DwordArg(n)]) == Some(Text(n, 10, false))
  {
    hide Output, Text, Ascii, LengthText;
    LengthTexts();
    var v := TwosComplement(n, 0x1_0000_0000_0000_0000);
    var m, u := Integer(if v < 0 then -v else v, v < 0), Integer(n, false);
    WordDecimal(m.magnitude);
    WordDecimal(n);
    LongLongArg(n);
    AsciiFour('%', 'l', 'l', 'd');
    PlainInteger(Ascii("%lld"), LengthLL, 'd' as int, DwordArg(n), m, 10);
    AsciiThree('%', 'j', 'd');
    PlainInteger(Ascii("%jd"), LengthJ, 'd' as int, DwordArg(n), m, 10);
    AsciiFour('%', 'l', 'l', 'u');
    PlainInteger(Ascii("%llu"), LengthLL, 'u' as int, DwordArg(n), u, 10);
    assert [] + Text(m.magnitude, 10, false) == Text(m.magnitude, 10, false);
    assert [] + Text(n, 10, false) == Text(n, 10, false);
  }

  lemma LongLongArg(n: dword)
    ensures var v := TwosComplement(n, 0x1_0000_0000_0000_0000); var m := Integer(if v < 0 then -v else v, v < 0);
      && IntegerArg(WithLength(NO_FLAGS, LengthLL), 'd' as int, DwordArg(n)) == Some(m)
      && IntegerArg(WithLength(NO_FLAGS, LengthJ), 'd' as int, DwordArg(n)) == Some(m)
      && IntegerArg(WithLength(NO_FLAGS, LengthLL), 'u' as int, DwordArg(n)) == Some(Integer(n, false))
  {
  }

  /** A character, a string, a pointer in eight upper-case hexadecimal digits, and a per cent sign. */
  lemma PlainOthers(n: word, s: seq<byte>, args: seq<Arg>)
    requires NUL !in s
    ensures Output(Ascii("%c"), 0, [WordArg(n)]) == Some([n % 256])
    ensures Output(Ascii("%s"), 0, [TextArg(s)]) == Some(s)
    ensures |Text(n, 16, true)| <= 8
    ensures Output(Ascii("%p"), 0, [WordArg(n)]) == Some(Repeat('0' as int, 8 - |Text(n, 16, true)|) + Text(n, 16, true))
    ensures Output(Ascii("%%"), 0, args) == Some(['%' as int])
  {
    hide Output, Text, Ascii, ConversionText;
    AsciiTwo('%', 'c');
    PlainOutput(Ascii("%c"), NoLength, 'c' as int, WordArg(n));
    AsciiTwo('%', 's');
    PlainOutput(Ascii("%s"), NoLength, 's' as int, TextArg(s));
    AsciiTwo('%', 'p');
    PlainOutput(Ascii("%p"), NoLength, 'p' as int, WordArg(n));
    OtherTexts(n, s);
    PointerText(n);
    AsciiTwo('%', '%');
    PerCent(Ascii("%%"), args);
  }

  lemma OtherTexts(n: word, s: seq<byte>)
    requires NUL !in s
    ensures ConversionText(Conversion(NO_FLAGS, 0, 0, 'c' as int), Some(WordArg(n))) == Some([n % 256])
    ensures ConversionText(Conversion(NO_FLAGS, 0, 0, 's' as int), Some(TextArg(s))) == Some(s)
  {
    assert Repeat(SPACE, 0) + s == s && Repeat(SPACE, 0) + [n % 256] == [n % 256];
  }

  lemma PointerText(n: word)
    ensures |Text(n, 16, true)| <= 8
    ensures ConversionText(Conversion(NO_FLAGS, 0, 0, 'p' as int), Some(WordArg(n))) ==
      Some(Repeat('0' as int, 8 - |Text(n, 16, true)|) + Text(n, 16, true))
  {
    hide Text, NumberText, IsoInteger;
    var flags, t := NO_FLAGS.(zeropad := true, upper := true), Text(n, 16, true);
    HexDigits(n);
    FollowingIsIso(n, false, 16, 0, 8, flags);
    IsoLayout(n, false, 16, 0, 8, flags);
    var zeros := Repeat('0' as int, 8 - |t|);
    assert Layout(0, [], 8 - |t|, t, 0) == zeros + t;
  }

  lemma HexDigits(n: word)
    ensures 1 <= |Text(n, 16, true)| <= 8
  {
    hide Digits;
    assert Pow(16, 4) == 0x1_0000;
    assert Pow(16, 8) == 0x1_0000_0000;
    DigitsCount(n, 16, 8);
  }

  lemma PerCent(format: seq<byte>, args: seq<Arg>)
    requires format == ['%' as int, '%' as int]
    ensures Output(format, 0, args) == Some(['%' as int])
  {
    hide ConversionOf, ConversionText, Output, FormatText, Meaning, LengthText;
    var d := Plain(NoLength, '%' as int);
    PlainFormat(NoLength, '%' as int);
    assert format == ['%' as int] + LengthText(NoLength) + ['%' as int] by { LengthTexts(); }
    PlainConversion(NoLength, '%' as int, args);
    OutputIsMeaning([d], args);
    FirstPiece([d], args);
    NoPieces(args);
    assert [d][1..] == [] && args[0..] == args;
    var percent: seq<byte> := ['%' as int];
    assert percent + [] == percent && !TakesArgument('%' as int);
    PerCentText(NextArg(PrintfText.Parsed(Conversion(NO_FLAGS, 0, 0, '%' as int), 0, 0), args));
  }

  lemma PerCentText(arg: Option<Arg>)
    ensures ConversionText(Conversion(NO_FLAGS, 0, 0, '%' as int), arg) == Some(['%' as int])
  {
  }
}
