/** `ltoa` and `ultoa`: digits go into a reversed temporary and are copied back. */
module Itoa {
  import opened Machine
  import opened Numeral

  /** Text of a signed long; only radix 10 has a sign, other radices show it modulo 2^32. */
  function LongText(value: long, radix: nat): (t: seq<byte>)
    requires radix >= 2
  {
    if radix == 10 && value < 0 then [MINUS] + Text(-(value as int), 10, false)
    else Text(ToWord(value), radix, false)
  }

  predicate RadixOk(radix: int) {
    2 <= radix <= 36
  }

  /** The division loop: tmp[..tp] is the numeral of value, backwards, in at most 32 bytes. */
  method FillDigits(value: word, radix: nat, tmp: array<byte>) returns (tp: nat)
    requires RadixOk(radix) && tmp.Length == 33
    modifies tmp
    ensures 1 <= tp <= 32
    ensures Reversed(tmp[..tp]) == Text(value, radix, false)
  {
    hide Digits, Value;
    ghost var ds := WordNumeral(value, radix);
    var v: word := value;
    tp := 0;
    assert ds[..|ds|] == ds;
    while v != 0 || tp == 0
      invariant tp <= |ds|
      invariant v == Value(ds[..|ds| - tp], radix)
      invariant v == 0 ==> tp == |ds| || tp == 0
      invariant v != 0 ==> tp < |ds|
      invariant forall k :: 0 <= k < tp ==> tmp[k] == DigitChar(ds[|ds| - 1 - k], false)
      decreases |ds| - tp
    {
      SplitDigit(ds, radix, tp, v);
      var i := v % radix;
      v := v / radix;
      tmp[tp] := if i < 10 then i + 48 else i + 97 - 10;
      tp := tp + 1;
    }
  }

  /** Writes the temporary backwards from sp on and terminates it. */
  method CopyBack(tmp: array<byte>, tp: nat, str: array<byte>, sp: nat)
    requires tmp != str && tp <= tmp.Length && sp + tp < str.Length
    modifies str
    ensures str[..] == Patch(old(str[..]), sp, Reversed(tmp[..tp]) + [NUL])
  {
    hide Patch;
    var left, at := tp, sp;
    ghost var text := Reversed(tmp[..tp]);
    PatchNothing(str[..], sp);
    while left > 0
      invariant 0 <= left <= tp && at == sp + tp - left
      invariant str[..] == Patch(old(str[..]), sp, text[..tp - left])
      invariant tmp[..] == old(tmp[..])
    {
      left := left - 1;
      PatchSnoc(old(str[..]), sp, text[..tp - left - 1], tmp[left]);
      assert text[..tp - left - 1] + [tmp[left]] == text[..tp - left];
      str[at] := tmp[left];
      at := at + 1;
    }
    assert text[..tp] == text;
    PatchSnoc(old(str[..]), sp, text, NUL);
    str[at] := NUL;
  }

  lemma SignedText(value: long, radix: nat)
    requires RadixOk(radix)
    ensures radix == 10 && value < 0 ==>
      LongText(value, radix) == [MINUS] + Text(ToWord(-(value as int)), radix, false)
    ensures !(radix == 10 && value < 0) ==> LongText(value, radix) == Text(ToWord(value), radix, false)
  {
    LongWordLong(value);
  }

  method Ltoa(value: long, str: array?<byte>, radix: int) returns (ok: bool)
    requires str != null && RadixOk(radix) ==> |LongText(value, radix)| < str.Length
    modifies str
    ensures ok <==> str != null && 2 <= radix <= 36
    ensures ok ==> str[..] == Patch(old(str[..]), 0, LongText(value, radix) + [NUL])
    ensures !ok && str != null ==> str[..] == old(str[..])
  {
    if str == null { return false; }
    if radix > 36 || radix <= 1 { return false; }
    SignedText(value, radix);
    ghost var before := str[..];
    var tmp := new byte[33];
    var sign := radix == 10 && value < 0;
    var v: word := if sign then ToWord(-(value as int)) else ToWord(value);
    var tp := FillDigits(v, radix, tmp);
    ghost var text := Reversed(tmp[..tp]);
    var sp := 0;
    if sign {
      str[0] := MINUS;
      sp := 1;
      SignPatch(before, MINUS, text + [NUL]);
      assert [MINUS] + (text + [NUL]) == ([MINUS] + text) + [NUL];
    }
    CopyBack(tmp, tp, str, sp);
    return true;
  }

  lemma SignPatch(s: seq<byte>, x: byte, t: seq<byte>)
    requires 1 + |t| <= |s|
    ensures Patch(s[0 := x], 1, t) == Patch(s, 0, [x] + t)
  {
    assert s[0 := x] == Patch(s, 0, [x]);
    PatchPatch(s, 0, [x], t);
  }

  method Ultoa(value: word, str: array?<byte>, radix: int) returns (ok: bool)
    requires str != null && RadixOk(radix) ==> |Text(value, radix, false)| < str.Length
    modifies str
    ensures ok <==> str != null && 2 <= radix <= 36
    ensures ok ==> str[..] == Patch(old(str[..]), 0, Text(value, radix, false) + [NUL])
    ensures !ok && str != null ==> str[..] == old(str[..])
  {
    if str == null { return false; }
    if radix > 36 || radix <= 1 { return false; }
    var tmp := new byte[33];
    var tp := FillDigits(value, radix, tmp);
    CopyBack(tmp, tp, str, 0);
    return true;
  }

  /** What a text of `ltoa` denotes. */
  function DecodeLong(t: seq<byte>, radix: nat): int {
    if radix == 10 && |t| > 0 && t[0] == MINUS then -(Decode(t[1..], 10) as int)
    else if radix == 10 then Decode(t, radix)
    else ToLong(Decode(t, radix))
  }

  /** The digits of the text, without its sign. */
  function Unsigned(t: seq<byte>): seq<byte> {
    if |t| > 0 && t[0] == MINUS then t[1..] else t
  }

  /** Round trip: the text gives the value back, and has no superfluous leading zero. */
  lemma LongRoundTrip(value: long, radix: nat)
    requires RadixOk(radix)
    ensures DecodeLong(LongText(value, radix), radix) == value
    ensures Canonical(CharDigits(Unsigned(LongText(value, radix))), radix)
  {
    LongWordLong(value);
    var n := if radix == 10 && value < 0 then -(value as int) else ToWord(value);
    var t := Text(n, radix, false);
    TextChars(n, radix, false);
    if radix == 10 && value < 0 {
      assert LongText(value, radix)[1..] == t;
    } else {
      assert t[0] >= 48;
    }
    DecodeText(n, radix, false);
    CharsRoundTrip(Digits(n, radix), false);
    DigitsCanonical(n, radix);
  }

  /** So the text determines the value, for each radix. */
  lemma LongTextInjective(a: long, b: long, radix: nat)
    requires RadixOk(radix) && LongText(a, radix) == LongText(b, radix)
    ensures a == b
  {
    LongRoundTrip(a, radix);
    LongRoundTrip(b, radix);
  }

  /** Text of a value below base^k has at most k characters. */
  lemma TextFits(n: nat, base: nat, k: nat)
    requires base >= 2 && k >= 1 && n < Pow(base, k)
    ensures |Text(n, base, false)| <= k
  {
    DigitsCount(n, base, k);
  }

  /**
    Every caller's buffer holds the text and its terminator: the constructors with radix 2..36
    (1 + 8 * size for unsigned, 2 + 8 * size for signed arguments) and the decimal concat
    overloads (1 + 3 * size and 2 + 3 * size).
   */
  lemma CallerBuffersFit(value: long, w: word, c: byte, radix: nat)
    requires RadixOk(radix)
    ensures |LongText(value, radix)| + 1 <= 2 + 8 * 4
    ensures |Text(w, radix, false)| + 1 <= 1 + 8 * 4
    ensures |Text(c, radix, false)| + 1 <= 1 + 8
    ensures |LongText(value, 10)| + 1 <= 2 + 3 * 4
    ensures |Text(w, 10, false)| + 1 <= 1 + 3 * 4
    ensures |LongText(c, 10)| + 1 <= 1 + 3
  {
    hide Digits, ToWord, LongText, Chars;
    WordFits(w, radix);
    ByteFits(c, radix);
    SignedText(value, radix);
    SignedText(value, 10);
    WordFits(ToWord(value), radix);
    WordFits(ToWord(-(value as int)), radix);
  }

  lemma WordFits(w: word, radix: nat)
    requires RadixOk(radix)
    ensures |Text(w, radix, false)| <= 32 && |Text(w, 10, false)| <= 10
  {
    WordDigits(w, radix);
    assert Pow(10, 5) == 100000;
    assert Pow(10, 10) == 10000000000;
    TextFits(w, 10, 10);
  }

  lemma ByteFits(c: byte, radix: nat)
    requires RadixOk(radix)
    ensures |Text(c, radix, false)| <= 8 && |LongText(c, 10)| <= 3
  {
    hide Digits;
    LongWordLong(c);
    assert Pow(2, 8) == 256;
    PowMono(2, radix, 8);
    TextFits(c, radix, 8);
    assert Pow(10, 3) == 1000;
    TextFits(c, 10, 3);
  }
}
