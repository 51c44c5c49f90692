/** The libraries together: three converters with one numeral, and a parser that undoes the printers. */
module RoundTrips {
  import opened Machine
  import opened Numeral
  import opened Itoa
  import opened IntegerText
  import Print
  import Printf
  import PrintfText
  import Stream

  const UPPERCASE := PrintfText.NO_FLAGS.(upper := true)

  /** _ntoa_long with nothing but the UPPERCASE flag writes the bare numeral. */
  lemma PlainNumber(n: word, base: nat)
    requires base >= 2
    ensures PrintfText.NumberText(n, false, base, 0, 0, UPPERCASE) == Text(n, base, true)
  {
    hide Digits;
    WordDigits(n, base);
    var t := Text(n, base, true);
    assert PrintfText.FittingDigits(n, base, UPPERCASE) == t;
    assert Repeat(ZERO, 0) + t == t && [] + t == t;
  }

  /** The C string ultoa leaves in a caller's buffer. */
  method ItoaText(n: word, base: byte) returns (t: seq<byte>)
    requires RadixOk(base)
    ensures t == Text(n, base, false)
  {
    hide Digits;
    WordFits(n, base);
    TextChars(n, base, false);
    ghost var text := Text(n, base, false);
    var str := new byte[33];
    var ok := Ultoa(n, str, base);
    var end := 0;
    assert str[0] == (text + [NUL])[0];
    while str[end] != NUL
      invariant 0 <= end <= |text| && str[end] == (text + [NUL])[end]
      invariant str[..|text| + 1] == text + [NUL]
      decreases |text| - end
    {
      end := end + 1;
      assert str[end] == str[..|text| + 1][end];
    }
    t := str[..end];
    assert t == str[..|text| + 1][..end];
  }

  method PrintText(n: word, base: byte) returns (t: seq<byte>)
    requires RadixOk(base)
    ensures t == Text(n, base, true)
  {
    hide Digits, Print.NumberText;
    var sink := new Print.Sink(32);
    var count := sink.PrintNumber(n, base);
    Print.NumberTextIsNumeral(n, base);
    WordDigits(n, base);
    t := sink.out;
    ghost var text := Text(n, base, true);
    assert text[..|text|] == text && [] + text == text;
  }

  method PlainText(n: word, base: byte) returns (t: seq<byte>)
    requires RadixOk(base)
    ensures t == Text(n, base, true)
  {
    hide Digits, PrintfText.NumberText;
    var nothing := new byte[0];
    var engine := new Printf.Engine(Printf.ToStream, nothing, 0);
    PlainNumber(n, base);
    var idx := engine.NtoaLong(0, n, false, base, 0, 0, UPPERCASE);
    t := engine.stream;
    TextChars(n, base, true);
    Printf.NonNulIs(Text(n, base, true), []);
  }

  /** ultoa, printNumber and _ntoa_long side by side: one text, up to letter case, that decodes to n. */
  method ThreeConverters(n: word, base: byte) returns (itoa: seq<byte>, print_: seq<byte>, printf: seq<byte>)
    requires RadixOk(base)
    ensures UpperText(itoa) == print_ == printf
    ensures Decode(itoa, base) == n && Decode(print_, base) == n
  {
    hide Text, Decode, UpperText;
    DecodeText(n, base, false);
    DecodeText(n, base, true);
    UpperIsUpperText(n, base);
    itoa := ItoaText(n, base);
    print_ := PrintText(n, base);
    printf := PlainText(n, base);
  }

  /**
    What print(n, 10) wrote, after bytes the lookahead skips and before a byte that ends a number, is
    parsed back to n, and nothing after it is taken; beyond 2^31 - 1 - 48 the parser overflows.
   */
  method PrintThenParse(n: long, lookahead: LookaheadMode, ignored: byte, before: seq<byte>, after: seq<byte>)
    returns (r: Parsed, rest: seq<byte>)
    requires !IsDigit(ignored) && ignored != MINUS && Passable(before, lookahead)
    requires after != [] ==> !IsDigit(after[0]) && after[0] != ignored
    ensures if -2147483599 <= n <= 2147483599 then r == Parsed(n) && rest == after else r == Undefined
  {
    hide Parses, LongText, Print.PrintedLong;
    var sink := new Print.Sink(13);
    var count := sink.PrintLong(n, 10);
    Print.DecimalIsLtoa(n);
    assert |LongText(n, 10)| <= 13 by { CallerBuffersFit(n, 0, 0, 10); }
    var text := sink.out;
    assert text == LongText(n, 10) by {
      var t := LongText(n, 10);
      assert t[..|t|] == t && [] + t == t;
    }
    var stream := new Stream.ByteStream(before + text + after);
    ghost var s := stream.pending;
    r := stream.ParseInt(lookahead, ignored);
    rest := stream.pending;
    ghost var taken := |s| - |rest|;
    ParsesPrinted(n, lookahead, ignored, before, after);
    if -2147483599 <= n <= 2147483599 {
      ParsesUnique(s, lookahead, ignored, r, taken, Parsed(n), |s| - |after|);
      assert s[|s| - |after|..] == after;
    } else {
      ParsesUnique(s, lookahead, ignored, r, taken, Undefined, taken);
    }
  }
}
