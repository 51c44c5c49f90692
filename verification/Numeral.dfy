/** The one numeral that every converter of the two libraries is compared with. */
module Numeral {
  import opened Machine

  /** Digits of n, most significant first; zero is the single digit 0. */
  function Digits(n: nat, base: nat): (ds: seq<nat>)
    requires base >= 2
    ensures |ds| >= 1
    ensures forall i :: 0 <= i < |ds| ==> ds[i] < base
    decreases n
  {
    if n < base then [n] else DivSmaller(n, base); Digits(n / base, base) + [n % base]
  }

  function Value(ds: seq<nat>, base: nat): nat {
    if ds == [] then 0 else Value(ds[..|ds| - 1], base) * base + ds[|ds| - 1]
  }

  function Pow(base: nat, e: nat): nat {
    if e == 0 then 1 else Pow(base, e - 1) * base
  }

  /** A digit sequence in range with no superfluous leading zero. */
  ghost predicate Canonical(ds: seq<nat>, base: nat) {
    && |ds| >= 1
    && (forall i :: 0 <= i < |ds| ==> ds[i] < base)
    && (|ds| > 1 ==> ds[0] != 0)
  }

  lemma {:induction false} ValueOfDigits(n: nat, base: nat)
    requires base >= 2
    ensures Value(Digits(n, base), base) == n
    decreases n
  {
    if n < base {
      assert Value([n][..0], base) == 0;
    } else {
      var q, r := n / base, n % base;
      DivMod(n, base);
      DivSmaller(n, base);
      ValueOfDigits(q, base);
      ValueSnoc(Digits(q, base), r, base);
    }
  }

  lemma ValueSnoc(ds: seq<nat>, d: nat, base: nat)
    ensures Value(ds + [d], base) == Value(ds, base) * base + d
  {
    assert (ds + [d])[..|ds|] == ds;
  }

  lemma DivMod(n: nat, base: nat)
    requires base >= 1
    ensures n == (n / base) * base + n % base
  {
  }

  lemma {:induction false} DigitsCanonical(n: nat, base: nat)
    requires base >= 2
    ensures Canonical(Digits(n, base), base)
    ensures n > 0 ==> Digits(n, base)[0] != 0
    decreases n
  {
    if n >= base {
      DivSmaller(n, base);
      DigitsCanonical(n / base, base);
    }
  }

  lemma DivSmaller(n: nat, base: nat)
    requires n >= base >= 2
    ensures 1 <= n / base < n
  {
  }

  lemma MulMono(a: nat, b: nat, c: nat)
    requires a <= b
    ensures a * c <= b * c
  {
  }

  lemma MulStep(a: nat, b: nat, c: nat)
    requires a < b
    ensures a * c + c <= b * c
  {
    MulMono(a + 1, b, c);
    assert (a + 1) * c == a * c + c;
  }

  lemma DivModUnique(q: nat, r: nat, base: nat)
    requires r < base
    ensures (q * base + r) / base == q && (q * base + r) % base == r
  {
    var n := q * base + r;
    DivMod(n, base);
    var q' := n / base;
    if q' < q {
      MulStep(q', q, base);
    } else if q' > q {
      MulStep(q, q', base);
    }
  }

  lemma {:induction false} CanonicalPositive(ds: seq<nat>, base: nat)
    requires base >= 2 && Canonical(ds, base) && ds[0] != 0
    ensures Value(ds, base) >= 1
  {
    if |ds| > 1 {
      CanonicalPositive(ds[..|ds| - 1], base);
    }
  }

  /** Digits are the only canonical sequence with their value, so numerals are injective. */
  lemma {:induction false} DigitsOfValue(ds: seq<nat>, base: nat)
    requires base >= 2 && Canonical(ds, base)
    ensures Digits(Value(ds, base), base) == ds
  {
    var init, last := ds[..|ds| - 1], ds[|ds| - 1];
    if |ds| == 1 {
      assert init == [];
    } else {
      DigitsOfValue(init, base);
      CanonicalPositive(init, base);
      DivModUnique(Value(init, base), last, base);
      MulMono(1, Value(init, base), base);
      assert ds == init + [last];
    }
  }

  lemma {:induction false} DigitsCount(n: nat, base: nat, k: nat)
    requires base >= 2 && k >= 1
    ensures n < Pow(base, k) <==> |Digits(n, base)| <= k
    decreases n
  {
    if n < base {
      PowAtLeastBase(base, k);
    } else if k == 1 {
      assert Pow(base, 1) == base;
    } else {
      var q := n / base;
      DivSmaller(n, base);
      DivLess(n, base, Pow(base, k - 1));
      DigitsCount(q, base, k - 1);
    }
  }

  lemma DivLess(n: nat, base: nat, m: nat)
    requires base >= 1
    ensures n / base < m <==> n < m * base
  {
    var q := n / base;
    DivMod(n, base);
    if q < m {
      MulStep(q, m, base);
    } else {
      MulMono(m, q, base);
    }
  }

  lemma {:induction false} PowPositive(base: nat, e: nat)
    requires base >= 1
    ensures Pow(base, e) >= 1
  {
    if e > 0 {
      PowPositive(base, e - 1);
      MulMono(1, Pow(base, e - 1), base);
    }
  }

  lemma PowAtLeastBase(base: nat, k: nat)
    requires base >= 1 && k >= 1
    ensures Pow(base, k) >= base
  {
    PowPositive(base, k - 1);
    MulMono(1, Pow(base, k - 1), base);
  }

  lemma {:induction false} PowMono(a: nat, b: nat, e: nat)
    requires 1 <= a <= b
    ensures Pow(a, e) <= Pow(b, e)
  {
    if e > 0 {
      PowMono(a, b, e - 1);
      MulMono(Pow(a, e - 1), Pow(b, e - 1), a);
      MulMono(a, b, Pow(b, e - 1));
    }
  }

  /** A 32-bit value has at most 32 digits in every base. */
  lemma WordDigits(n: nat, base: nat)
    requires base >= 2 && n < WORD_LIMIT
    ensures |Digits(n, base)| <= 32
  {
    assert Pow(2, 32) == WORD_LIMIT by {
      assert Pow(2, 8) == 256;
      assert Pow(2, 16) == 65536;
      assert Pow(2, 24) == 0x100_0000;
    }
    PowMono(2, base, 32);
    DigitsCount(n, base, 32);
  }

  /** A 64-bit value has at most 64 digits in every base. */
  lemma DwordDigits(n: nat, base: nat)
    requires base >= 2 && n < DWORD_LIMIT
    ensures |Digits(n, base)| <= 64
  {
    assert Pow(2, 64) == DWORD_LIMIT by {
      assert Pow(2, 8) == 256;
      assert Pow(2, 16) == 65536;
      assert Pow(2, 24) == 0x100_0000;
      assert Pow(2, 32) == 0x1_0000_0000;
      assert Pow(2, 40) == 0x100_0000_0000;
      assert Pow(2, 48) == 0x1_0000_0000_0000;
      assert Pow(2, 56) == 0x100_0000_0000_0000;
    }
    PowMono(2, base, 64);
    DigitsCount(n, base, 64);
  }

  // ----- the numeral as text

  /** The character of digit d; beyond base 36 the C expression wraps in a `char`. */
  function DigitChar(d: nat, upper: bool): byte {
    if d < 10 then 48 + d else LowByte((if upper then 65 else 97) + d - 10)
  }

  function Chars(ds: seq<nat>, upper: bool): (t: seq<byte>)
    ensures |t| == |ds|
  {
    seq(|ds|, i requires 0 <= i < |ds| => DigitChar(ds[i], upper))
  }

  function Text(n: nat, base: nat, upper: bool): (t: seq<byte>)
    requires base >= 2
  {
    Chars(Digits(n, base), upper)
  }

  function CharDigit(c: byte): nat {
    if c < 58 then Max(c - 48, 0) else if c < 91 then Max(c - 55, 0) else c - 87
  }

  function CharDigits(t: seq<byte>): (ds: seq<nat>)
    ensures |ds| == |t|
  {
    seq(|t|, i requires 0 <= i < |t| => CharDigit(t[i]))
  }

  /** The value a text of digits stands for. */
  function Decode(t: seq<byte>, base: nat): nat {
    Value(CharDigits(t), base)
  }

  lemma CharsRoundTrip(ds: seq<nat>, upper: bool)
    requires forall i :: 0 <= i < |ds| ==> ds[i] < 36
    ensures CharDigits(Chars(ds, upper)) == ds
  {
    forall i | 0 <= i < |ds|
      ensures CharDigit(DigitChar(ds[i], upper)) == ds[i]
    {
    }
  }

  /** Up to base 36 the text decodes to its value in either letter case. */
  lemma DecodeText(n: nat, base: nat, upper: bool)
    requires 2 <= base <= 36
    ensures Decode(Text(n, base, upper), base) == n
  {
    CharsRoundTrip(Digits(n, base), upper);
    ValueOfDigits(n, base);
  }

  lemma TextChars(n: nat, base: nat, upper: bool)
    requires 2 <= base <= 36
    ensures |Text(n, base, upper)| >= 1
    ensures forall i :: 0 <= i < |Text(n, base, upper)| ==>
      Text(n, base, upper)[i] >= 48 && (base <= 10 ==> IsDigit(Text(n, base, upper)[i]))
  {
    var ds := Digits(n, base);
    forall i | 0 <= i < |ds|
      ensures DigitChar(ds[i], upper) >= 48 && (base <= 10 ==> IsDigit(DigitChar(ds[i], upper)))
    {
    }
  }

  const LOWER_DIGITS := "0123456789abcdefghijklmnopqrstuvwxyz"
  const UPPER_DIGITS := "0123456789ABCDEFGHIJKLMNOPQRSTUVWXYZ"

  /** The characters of a numeral, looked up in the usual alphabet. */
  lemma TextSpelled(n: nat, base: nat, upper: bool)
    requires 2 <= base <= 36
    ensures |Text(n, base, upper)| == |Digits(n, base)|
    ensures forall i :: 0 <= i < |Digits(n, base)| ==>
      Digits(n, base)[i] < 36
      && Text(n, base, upper)[i] == (if upper then UPPER_DIGITS else LOWER_DIGITS)[Digits(n, base)[i]] as int
  {
    hide Digits;
    var ds := Digits(n, base);
    forall i | 0 <= i < |ds|
      ensures ds[i] < 36 && DigitChar(ds[i], upper) == (if upper then UPPER_DIGITS else LOWER_DIGITS)[ds[i]] as int
    {
      DigitSpelled(ds[i], upper);
    }
  }

  lemma DigitCode(d: nat, upper: bool)
    requires d < 36
    ensures DigitChar(d, upper) == if d < 10 then 48 + d else if upper then 55 + d else 87 + d
  {
  }

  lemma DigitSpelled(d: nat, upper: bool)
    requires d < 36
    ensures DigitChar(d, upper) == (if upper then UPPER_DIGITS else LOWER_DIGITS)[d] as int
  {
    hide DigitChar;
    DigitCode(d, upper);
    assert UPPER_DIGITS[d] as int == if d < 10 then 48 + d else 55 + d;
    assert LOWER_DIGITS[d] as int == if d < 10 then 48 + d else 87 + d;
  }

  /** No upper-case letter is among the lower-case digits, and none the other way round. */
  lemma LetterCase(n: nat, base: nat, upper: bool)
    requires 2 <= base <= 36
    ensures forall c :: c in Text(n, base, upper) ==>
      if upper then !('a' as int <= c <= 'z' as int) else !('A' as int <= c <= 'Z' as int)
  {
    var ds := Digits(n, base);
    hide DigitChar, Digits;
    forall i | 0 <= i < |ds|
      ensures if upper then !(97 <= DigitChar(ds[i], upper) <= 122) else !(65 <= DigitChar(ds[i], upper) <= 90)
    {
      DigitCode(ds[i], upper);
    }
  }

  function ToUpper(c: byte): byte {
    if 97 <= c <= 122 then c - 32 else c
  }

  function UpperText(t: seq<byte>): (u: seq<byte>)
    ensures |u| == |t|
  {
    seq(|t|, i requires 0 <= i < |t| => ToUpper(t[i]))
  }

  lemma UpperIsUpperText(n: nat, base: nat)
    requires 2 <= base <= 36
    ensures UpperText(Text(n, base, false)) == Text(n, base, true)
  {
    hide DigitChar, Digits;
    var ds := Digits(n, base);
    forall i | 0 <= i < |ds|
      ensures ToUpper(DigitChar(ds[i], false)) == DigitChar(ds[i], true)
    {
      DigitCode(ds[i], false);
      DigitCode(ds[i], true);
    }
  }

  /** Leading zeros do not change what a text stands for. */
  lemma {:induction false} LeadingZeros(zeros: nat, d: seq<byte>, base: nat)
    ensures Decode(Repeat(ZERO, zeros) + d, base) == Decode(d, base)
    decreases |d|, zeros
  {
    var t := Repeat(ZERO, zeros) + d;
    if d != [] {
      var init := d[..|d| - 1];
      LeadingZeros(zeros, init, base);
      assert CharDigits(t)[..|t| - 1] == CharDigits(Repeat(ZERO, zeros) + init);
      assert CharDigits(d)[..|d| - 1] == CharDigits(init);
    } else if zeros > 0 {
      LeadingZeros(zeros - 1, d, base);
      assert CharDigits(t)[..|t| - 1] == CharDigits(Repeat(ZERO, zeros - 1) + d);
    }
  }

  // ----- digit loops: the least significant digit is split off first

  /** The numeral of n as the loops below see it, of at most `most` digits. */
  ghost predicate NumeralOf(ds: seq<nat>, n: nat, base: nat, most: nat) {
    && base >= 2
    && ds == Digits(n, base)
    && Canonical(ds, base)
    && |ds| <= most
    && Value(ds, base) == n
  }

  lemma WordNumeral(n: word, base: nat) returns (ds: seq<nat>)
    requires base >= 2
    ensures NumeralOf(ds, n, base, 32)
  {
    ds := Digits(n, base);
    DigitsCanonical(n, base);
    ValueOfDigits(n, base);
    WordDigits(n, base);
  }

  lemma DwordNumeral(n: dword, base: nat) returns (ds: seq<nat>)
    requires base >= 2
    ensures NumeralOf(ds, n, base, 64)
  {
    ds := Digits(n, base);
    DigitsCanonical(n, base);
    ValueOfDigits(n, base);
    DwordDigits(n, base);
  }

  /** One division step: after k steps v is the value of all but the last k digits. */
  lemma SplitDigit(ds: seq<nat>, base: nat, k: nat, v: nat)
    requires base >= 2 && Canonical(ds, base) && k < |ds|
    requires v == Value(ds[..|ds| - k], base)
    ensures v % base == v - base * (v / base) == ds[|ds| - 1 - k] < base
    ensures v / base == Value(ds[..|ds| - k - 1], base)
    ensures v / base == 0 <==> k + 1 == |ds|
    ensures v == 0 ==> k + 1 == |ds|
    ensures v / base < v || v == 0
  {
    var rest, d := ds[..|ds| - k - 1], ds[|ds| - 1 - k];
    assert ds[..|ds| - k] == rest + [d];
    var q := Value(rest, base);
    ValueSnoc(rest, d, base);
    DivModUnique(q, d, base);
    if k + 1 < |ds| {
      CanonicalPositive(rest, base);
      MulMono(1, q, base);
    }
    if v >= base { DivSmaller(v, base); }
  }
}
