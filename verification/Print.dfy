/** `Print`: number printing over a byte sink that may stop accepting. */
module Print {
  import opened Machine
  import opened Numeral
  import opened Itoa

  /** Radix 0 and 1 fall back to 10; the argument is a `uint8_t`. */
  function Radix(base: byte): (r: nat)
    ensures 2 <= r < 256
  {
    if base < 2 then 10 else base
  }

  /** The bytes one call sends to a sink that accepts everything. */
  function NumberText(n: word, base: byte): seq<byte> {
    UpToNul(Text(n, Radix(base), true))
  }

  function PrintedLong(n: long, base: int): seq<byte> {
    if base == 0 then [LowByte(n)]
    else if base == 10 then
      if n < 0 then [MINUS] + NumberText(ToWord(-(n as int)), 10) else NumberText(n, 10)
    else NumberText(ToWord(n), LowByte(base))
  }

  function PrintedLongLong(n: longlong, base: byte): seq<byte> {
    var radix := if base < 2 then 2 else base;
    if n < 0 then [MINUS] + Text(-(n as int), radix, true) else Text(n, radix, true)
  }

  /** Offering t and then u to a sink is offering t + u. */
  lemma TakeTwice(t: seq<byte>, u: seq<byte>, room: nat)
    ensures var left := room - Min(|t|, room);
      && (t + u)[..Min(|t + u|, room)] == t[..Min(|t|, room)] + u[..Min(|u|, left)]
      && Min(|t + u|, room) == Min(|t|, room) + Min(|u|, left)
  {
  }

  class Sink {
    var out: seq<byte>
    /** How many more bytes the device accepts. */
    var room: nat

    constructor (room: nat)
      ensures out == [] && this.room == room
    {
      out := [];
      this.room := room;
    }

    /** The sink took as much of t as it had room for, in order. */
    twostate predicate Took(t: seq<byte>)
      reads this
    {
      && out == old(out) + t[..Min(|t|, old(room))]
      && room == old(room) - Min(|t|, old(room))
    }

    method WriteByte(c: byte) returns (n: nat)
      modifies this
      ensures Took([c]) && n == Min(1, old(room))
    {
      if room > 0 {
        out := out + [c];
        room := room - 1;
        n := 1;
      } else {
        n := 0;
      }
    }

    /** write(buffer, size): stops at the first byte the device refuses. */
    method Write(buffer: array<byte>, start: nat, size: nat) returns (n: nat)
      requires start + size <= buffer.Length
      modifies this
      ensures Took(buffer[start..start + size]) && n == Min(size, old(room))
    {
      n := 0;
      var left := size;
      ghost var t := buffer[start..start + size];
      while left > 0
        invariant 0 <= left <= size && n == size - left
        invariant n <= old(room) && room == old(room) - n
        invariant out == old(out) + t[..n] && t == buffer[start..start + size]
      {
        var k := WriteByte(buffer[start + n]);
        if k == 0 {
          assert room == 0;
          return;
        }
        assert t[..n] + [t[n]] == t[..n + 1];
        left := left - 1;
        n := n + 1;
      }
    }

    /** write(str): the length is found by `strlen`. */
    method WriteString(buffer: array<byte>, start: nat) returns (n: nat)
      requires start < buffer.Length && NUL in buffer[start..]
      modifies this
      ensures Took(UpToNul(buffer[start..])) && n == Min(|UpToNul(buffer[start..])|, old(room))
    {
      var length := 0;
      while buffer[start + length] != NUL
        invariant start + length < buffer.Length
        invariant NUL in buffer[start + length..]
        invariant NUL !in buffer[start..start + length]
        decreases buffer.Length - length
      {
        length := length + 1;
      }
      assert buffer[start..][..length] == buffer[start..start + length];
      UpToNulAt(buffer[start..], length);
      n := Write(buffer, start, length);
    }

    /** printNumber: digits are stored backwards from the end of a 33-byte buffer. */
    method PrintNumber(n: word, base: byte) returns (count: nat)
      modifies this
      ensures Took(NumberText(n, base)) && count == Min(|NumberText(n, base)|, old(room))
    {
      var buf := new byte[33];
      var str := BackwardDigits(n, base, buf);
      UpToNulTerminated(Text(n, Radix(base), true));
      count := WriteString(buf, str);
    }

    static method BackwardDigits(n: word, base: byte, buf: array<byte>) returns (str: nat)
      requires buf.Length == 33
      modifies buf
      ensures str <= 31
      ensures buf[str..] == Text(n, Radix(base), true) + [NUL]
    {
      hide Digits, Value, Pow;
      str := 32;
      buf[str] := NUL;
      var radix: byte := if base < 2 then 10 else base;
      ghost var ds := WordNumeral(n, radix);
      assert ds[..|ds|] == ds;
      var v: word := n;
      while true
        invariant str <= 32 && 32 - str < |ds|
        invariant v == Value(ds[..|ds| - (32 - str)], radix)
        invariant buf[32] == NUL
        invariant forall k :: str <= k < 32 ==> buf[k] == DigitChar(ds[|ds| - 32 + k], true)
        decreases str
      {
        SplitDigit(ds, radix, 32 - str, v);
        var m := v;
        v := v / radix;
        var c: byte := m - radix * v;
        str := str - 1;
        buf[str] := if c < 10 then c + 48 else LowByte(c as int + 65 - 10);
        if v == 0 { break; }
      }
    }

    /** print(long, base). */
    method PrintLong(n: long, base: int) returns (count: nat)
      modifies this
      ensures Took(PrintedLong(n, base)) && count == Min(|PrintedLong(n, base)|, old(room))
    {
      hide Digits, UpToNul, NumberText, ToWord, LowByte;
      assert n >= 0 ==> ToWord(n) == n by { LongWordLong(n); }
      if base == 0 {
        count := WriteByte(LowByte(n));
      } else if base == 10 {
        if n < 0 {
          var t := WriteByte(MINUS);
          var digits := PrintNumber(ToWord(-(n as int)), 10);
          count := digits + t;
          TakeTwice([MINUS], NumberText(ToWord(-(n as int)), 10), old(room));
        } else {
          count := PrintNumber(n, 10);
        }
      } else {
        count := PrintNumber(ToWord(n), LowByte(base));
      }
    }

    /** printLLNumber: 64-bit values through a buffer of raw digits. */
    method PrintLLNumber(n: dword, base: byte)
      requires base >= 2
      modifies this
      ensures Took(Text(n, base, true))
    {
      if n == 0 {
        var _ := WriteByte(ZERO);
        return;
      }
      var buf := new byte[64];
      ghost var ds := DwordNumeral(n, base);
      var i := RawDigits(n, base, buf, ds);
      ghost var text := Text(n, base, true);
      while i > 0
        invariant 0 <= i <= |ds|
        invariant forall k :: 0 <= k < |ds| ==> buf[k] == ds[|ds| - 1 - k]
        invariant Took(text[..|ds| - i])
      {
        var c: byte := if buf[i - 1] < 10 then 48 + buf[i - 1] else LowByte(65 + buf[i - 1] as int - 10);
        assert c == text[|ds| - i];
        var _ := WriteByte(c);
        assert text[..|ds| - i + 1] == text[..|ds| - i] + [c];
        i := i - 1;
      }
      assert text[..|ds|] == text;
    }

    static method RawDigits(n: dword, base: byte, buf: array<byte>, ghost ds: seq<nat>) returns (i: nat)
      requires n > 0 && buf.Length == 64 && NumeralOf(ds, n, base, 64)
      modifies buf
      ensures i == |ds|
      ensures forall k :: 0 <= k < i ==> buf[k] == ds[|ds| - 1 - k]
    {
      i := 0;
      var v: dword := n;
      assert ds[..|ds|] == ds;
      while v > 0
        invariant i <= |ds|
        invariant v == Value(ds[..|ds| - i], base)
        invariant v == 0 <==> i == |ds|
        invariant forall k :: 0 <= k < i ==> buf[k] == ds[|ds| - 1 - k]
      {
        SplitDigit(ds, base, i, v);
        buf[i] := v % base;
        v := v / base;
        i := i + 1;
      }
    }

    /** print(int64_t, base): here the sign is printed in every base. */
    method PrintLongLong(n: longlong, base: byte)
      modifies this
      ensures Took(PrintedLongLong(n, base))
    {
      hide Text;
      var radix: byte := if base < 2 then 2 else base;
      if n < 0 {
        ghost var t := Text(-(n as int), radix, true);
        var _ := WriteByte(MINUS);
        PrintLLNumber(-(n as int), radix);
        TakeTwice([MINUS], t, old(room));
        assert PrintedLongLong(n, base) == [MINUS] + t;
        assert Took([MINUS] + t);
      } else {
        PrintLLNumber(n, radix);
      }
    }
  }

  lemma NumberTextIsNumeral(n: word, base: byte)
    requires RadixOk(base)
    ensures NumberText(n, base) == Text(n, base, true) == UpperText(Text(n, base, false))
  {
    hide Digits;
    UpperIsUpperText(n, base);
    TextChars(n, base, true);
    UpToNulWhole(Text(n, base, true));
  }

  /** For every radix of `ltoa`, print(long, base) sends its text in upper case. */
  lemma PrintsUpperLtoa(n: long, base: int)
    requires RadixOk(base)
    ensures PrintedLong(n, base) == UpperText(LongText(n, base))
  {
    hide Digits, ToWord, LongText, NumberText;
    SignedText(n, base);
    assert n >= 0 ==> ToWord(n) == n by { LongWordLong(n); }
    NumberTextIsNumeral(ToWord(n), base);
    NumberTextIsNumeral(ToWord(-(n as int)), base);
  }

  /** What a text with a sign in any base denotes. */
  function DecodeSigned(t: seq<byte>, base: nat): int {
    if t != [] && t[0] == '-' as int then -(Decode(t[1..], base) as int) else Decode(t, base)
  }

  /** The 64-bit text decodes to the signed value in the base asked for, bases 0 and 1 being taken for 2. */
  lemma LongLongDecodes(n: longlong, base: byte)
    requires base <= 36
    ensures DecodeSigned(PrintedLongLong(n, base), if base <= 1 then 2 else base) == n
    ensures PrintedLongLong(n, base) != [] && (PrintedLongLong(n, base)[0] == '-' as int <==> n < 0)
    ensures UpperText(PrintedLongLong(n, base)) == PrintedLongLong(n, base)
  {
    hide Digits, Decode;
    var radix, m: nat := if base < 2 then 2 else base, if n < 0 then -(n as int) else n;
    var t := Text(m, radix, true);
    DecodeText(m, radix, true);
    TextChars(m, radix, true);
    LetterCase(m, radix, true);
    assert UpperText(t) == t && ToUpper(MINUS) == MINUS;
    if n < 0 {
      assert ([MINUS] + t)[1..] == t;
      assert UpperText([MINUS] + t) == [MINUS] + t;
    }
  }

  /**
    The bases that print(long, base) treats in a way of their own: 0 sends the low byte itself, 10 a signed decimal,
    and any other base is first cut to eight bits, what is then 0 or 1 being an unsigned decimal.
   */
  lemma SpecialBases(n: long, base: int)
    ensures base == 0 ==> PrintedLong(n, base) == [n % 256]
    ensures base == 10 ==> PrintedLong(n, base) == LongText(n, 10)
    ensures base != 0 && base != 10 ==>
      var w, b := n % 0x1_0000_0000, base % 256;
      && (b <= 1 ==> PrintedLong(n, base) == Text(w, 10, true))
      && (2 <= b <= 36 ==> PrintedLong(n, base) == Text(w, b, true) && Decode(PrintedLong(n, base), b) == w)
  {
    hide Digits, NumberText, LongText;
    var w, b := ToWord(n), LowByte(base);
    if base == 10 {
      DecimalIsLtoa(n);
    } else if base != 0 {
      if b <= 1 {
        SmallBase(w, b);
      } else if b <= 36 {
        NumberTextIsNumeral(w, b);
        DecodeText(w, b, true);
      }
    }
  }

  lemma SmallBase(w: word, base: byte)
    requires base <= 1
    ensures NumberText(w, base) == Text(w, 10, true)
  {
    hide Digits;
    TextChars(w, 10, true);
    UpToNulWhole(Text(w, 10, true));
  }

  /** print(n, 10) and ltoa(n, 10) write the same text. */
  lemma DecimalIsLtoa(n: long)
    ensures PrintedLong(n, 10) == LongText(n, 10)
  {
    hide Digits, NumberText;
    var m := if n < 0 then ToWord(-(n as int)) else n;
    LongWordLong(n);
    NumberTextIsNumeral(m, 10);
    UpperDecimal(m);
    SignedText(n, 10);
  }

  lemma UpperDecimal(n: nat)
    ensures Text(n, 10, true) == Text(n, 10, false)
  {
    hide Digits;
    assert forall i :: 0 <= i < |Digits(n, 10)| ==> DigitChar(Digits(n, 10)[i], true) == DigitChar(Digits(n, 10)[i], false);
  }
}
