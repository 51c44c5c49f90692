/** Integer conversions of ISO C11, section 7.21.6.1, and exactly when tinyprintf follows them. */
module PrintfIso {
  import opened Machine
  import opened Numeral
  import opened PrintfText
  import opened Spaces

  // ----- the standard's wording, for formats without '#'

  /** At least p digits, the default p being 1; zero with precision 0 has none. */
  function IsoDigits(value: nat, base: nat, upper: bool, precision: Option<nat>): (t: seq<byte>)
    requires base >= 2
  {
    var p := if precision.Some? then precision.value else 1;
    var t := if value == 0 then [] else Text(value, base, upper);
    Repeat(ZERO, Max(0, p - |t|)) + t
  }

  /** Sign and digits in their field: filled with spaces on the right, zeros after the sign, or spaces on the left. */
  function IsoField(sign: seq<byte>, digits: seq<byte>, left: bool, zeros: bool, width: nat): seq<byte> {
    var fill := Max(0, width - |sign| - |digits|);
    if left then sign + digits + Repeat(SPACE, fill)
    else if zeros then sign + Repeat(ZERO, fill) + digits
    else Repeat(SPACE, fill) + sign + digits
  }

  /** '-' justifies to the left; '0' fills with zeros, unless '-' or a precision is given. */
  function IsoInteger(value: nat, sign: seq<byte>, base: nat, upper: bool, left: bool, zero: bool,
                      precision: Option<nat>, width: nat): seq<byte>
    requires base >= 2
  {
    IsoField(sign, IsoDigits(value, base, upper, precision), left, zero && precision.None?, width)
  }

  /** What the call sites guarantee: the '0' flag is dropped with a precision, signs are decimal. */
  ghost predicate CallSite(value: nat, negative: bool, base: nat, prec: nat, flags: Flags) {
    && 2 <= base <= 36
    && value < DWORD_LIMIT
    && !flags.hash
    && (flags.precision ==> !flags.zeropad)
    && (!flags.precision ==> prec == 0)
    && (Sign(negative, flags) != [] ==> base == 10)
  }

  /**
    The condition, on the number of digits, the sign, and the arguments of the conversion:
    the numeral fits the scratch buffer; with '-' the precision asks for no zeros (they are not added);
    a precision leaves room for itself and the sign; a zero-padded field is at most 32 wide.
   */
  predicate Follows(digits: nat, sign: seq<byte>, prec: nat, width: nat, flags: Flags) {
    && digits <= SCRATCH
    && if flags.left then prec <= digits
       else if flags.precision then
         prec < SCRATCH || (prec == SCRATCH && (sign == [] || (sign == [SPACE] && width > SCRATCH)))
       else !flags.zeropad || width <= SCRATCH
  }

  function IsoOf(value: nat, negative: bool, base: nat, prec: nat, width: nat, flags: Flags): seq<byte>
    requires base >= 2
  {
    IsoInteger(value, Sign(negative, flags), base, flags.upper, flags.left, flags.zeropad,
               if flags.precision then Some(prec) else None, width)
  }

  // ----- shapes shared by both sides

  /** Leading spaces, the sign, zeros, the digits, trailing spaces. */
  function Layout(before: nat, sign: seq<byte>, zeros: nat, digits: seq<byte>, after: nat): (t: seq<byte>)
    ensures |t| == before + |sign| + zeros + |digits| + after
  {
    Repeat(SPACE, before) + sign + Repeat(ZERO, zeros) + digits + Repeat(SPACE, after)
  }

  lemma LayoutAt(before: nat, sign: seq<byte>, zeros: nat, digits: seq<byte>, after: nat, k: nat)
    requires k < before + |sign| + zeros + |digits| + after
    ensures var t := Layout(before, sign, zeros, digits, after); var z := before + |sign|; var d := z + zeros; var e := d + |digits|;
      && (k < before ==> t[k] == SPACE)
      && (before <= k < z ==> t[k] == sign[k - before])
      && (z <= k < d ==> t[k] == ZERO)
      && (d <= k < e ==> t[k] == digits[k - d])
      && (e <= k ==> t[k] == SPACE)
  {
  }

  /** A space as sign is one more leading space. */
  lemma LayoutSpaceSign(before: nat, zeros: nat, digits: seq<byte>)
    ensures Layout(before, [SPACE], zeros, digits, 0) == Layout(before + 1, [], zeros, digits, 0)
  {
    assert Repeat(SPACE, before) + [SPACE] == Repeat(SPACE, before + 1);
  }

  /** The digits the conversion starts from. */
  function OwnDigits(value: nat, base: nat, flags: Flags): seq<byte>
    requires base >= 2
  {
    if flags.precision && value == 0 then [] else Text(value, base, flags.upper)
  }

  /** The standard's text is a layout of these digits. */
  lemma IsoLayout(value: nat, negative: bool, base: nat, prec: nat, width: nat, flags: Flags)
    requires CallSite(value, negative, base, prec, flags)
    ensures var d := OwnDigits(value, base, flags); var sign := Sign(negative, flags);
      var zeros := Max(0, prec - |d|);
      var fill := Max(0, width - |sign| - zeros - |d|);
      IsoOf(value, negative, base, prec, width, flags) ==
        if flags.left then Layout(0, sign, zeros, d, fill)
        else if flags.zeropad then Layout(0, sign, fill, d, 0)
        else Layout(fill, sign, zeros, d, 0)
  {
    hide Text, Sign;
    var d, sign := OwnDigits(value, base, flags), Sign(negative, flags);
    var zeros := Max(0, prec - |d|);
    var fill := Max(0, width - |sign| - zeros - |d|);
    var precision := if flags.precision then Some(prec) else None;
    IsoDigitsAre(value, base, prec, flags);
    var digits := IsoDigits(value, base, flags.upper, precision);
    assert digits == Repeat(ZERO, zeros) + d;
    if flags.left {
      IsoLeft(sign, zeros, d, fill);
    } else if flags.zeropad {
      assert zeros == 0 && digits == d;
      IsoZeros(sign, d, fill);
    } else {
      IsoRight(sign, zeros, d, fill);
    }
  }

  lemma IsoLeft(sign: seq<byte>, zeros: nat, d: seq<byte>, fill: nat)
    ensures sign + (Repeat(ZERO, zeros) + d) + Repeat(SPACE, fill) == Layout(0, sign, zeros, d, fill)
  {
  }

  lemma IsoZeros(sign: seq<byte>, d: seq<byte>, fill: nat)
    ensures sign + Repeat(ZERO, fill) + d == Layout(0, sign, fill, d, 0)
  {
  }

  lemma IsoRight(sign: seq<byte>, zeros: nat, d: seq<byte>, fill: nat)
    ensures Repeat(SPACE, fill) + sign + (Repeat(ZERO, zeros) + d) == Layout(fill, sign, zeros, d, 0)
  {
  }

  lemma IsoDigitsAre(value: nat, base: nat, prec: nat, flags: Flags)
    requires base >= 2 && (!flags.precision ==> prec == 0)
    ensures var d := OwnDigits(value, base, flags);
      IsoDigits(value, base, flags.upper, if flags.precision then Some(prec) else None)
        == Repeat(ZERO, Max(0, prec - |d|)) + d
  {
    if !flags.precision {
      if value == 0 {
        assert OwnDigits(0, base, flags) == [ZERO];
        assert Repeat(ZERO, 1) == [ZERO];
      }
    }
  }

  /** How many zeros tinyprintf adds. */
  function OwnZeros(digits: nat, signed: bool, prec: nat, width: nat, flags: Flags): nat
    requires digits <= SCRATCH
  {
    if flags.left then 0
    else if flags.zeropad then
      Max(Max(digits, Min(prec, SCRATCH)), Min(if width > 0 && signed then width - 1 else width, SCRATCH)) - digits
    else Max(digits, Min(prec, SCRATCH)) - digits
  }

  lemma DressedIs(d: seq<byte>, negative: bool, base: nat, prec: nat, width: nat, flags: Flags)
    requires |d| <= SCRATCH && !flags.hash
    ensures var zeros := OwnZeros(|d|, Sign(negative, flags) != [], prec, width, flags);
      Dressed(d, negative, base, prec, width, flags) ==
        (if |d| + zeros < SCRATCH then Sign(negative, flags) else []) + (Repeat(ZERO, zeros) + d)
  {
    hide Sign;
    var w := FillWidth(negative, width, flags);
    var zeros := OwnZeros(|d|, Sign(negative, flags) != [], prec, width, flags);
    if flags.left {
      assert Repeat(ZERO, 0) + d == d;
    } else if flags.zeropad {
      ZeroFilledTwice(d, prec, w);
    } else {
      assert ZeroFilled(d, prec) == Repeat(ZERO, zeros) + d;
    }
    var t := Repeat(ZERO, zeros) + d;
    assert [] + t == t;
  }

  lemma ZeroFilledTwice(d: seq<byte>, m: nat, n: nat)
    requires |d| <= SCRATCH
    ensures ZeroFilled(ZeroFilled(d, m), n) ==
      Repeat(ZERO, Max(Max(|d|, Min(m, SCRATCH)), Min(n, SCRATCH)) - |d|) + d
  {
  }

  /** What tinyprintf writes is a layout as well, as long as the digits fit. */
  lemma OwnLayout(value: nat, negative: bool, base: nat, prec: nat, width: nat, flags: Flags)
    requires CallSite(value, negative, base, prec, flags)
    requires |OwnDigits(value, base, flags)| <= SCRATCH
    ensures var d := OwnDigits(value, base, flags);
      var zeros := OwnZeros(|d|, Sign(negative, flags) != [], prec, width, flags);
      var sign := if |d| + zeros < SCRATCH then Sign(negative, flags) else [];
      var fill := Max(0, width - |sign| - zeros - |d|);
      NumberText(value, negative, base, prec, width, flags) ==
        if flags.left then Layout(0, sign, zeros, d, fill)
        else if flags.zeropad then Layout(0, sign, zeros, d, 0)
        else Layout(fill, sign, zeros, d, 0)
  {
    hide Text, Sign, Dressed, Padded, Layout, FittingDigits, NumberText, OwnZeros, OwnDigits;
    var d := OwnDigits(value, base, flags);
    var zeros := OwnZeros(|d|, Sign(negative, flags) != [], prec, width, flags);
    var sign := if |d| + zeros < SCRATCH then Sign(negative, flags) else [];
    NumberTextIs(value, negative, base, prec, width, flags);
    FittingIs(value, base, flags);
    DressedIs(d, negative, base, prec, width, flags);
    PaddedLayout(sign, zeros, d, FillWidth(negative, width, flags), flags);
  }

  lemma NumberTextIs(value: nat, negative: bool, base: nat, prec: nat, width: nat, flags: Flags)
    requires base >= 2 && !flags.hash
    ensures NumberText(value, negative, base, prec, width, flags) ==
      Padded(Dressed(FittingDigits(value, base, flags), negative, base, prec, width, flags),
             FillWidth(negative, width, flags), flags)
  {
    hide Dressed, Padded, FittingDigits, FillWidth;
    assert flags.(hash := false) == flags;
  }

  lemma FittingIs(value: nat, base: nat, flags: Flags)
    requires base >= 2 && |OwnDigits(value, base, flags)| <= SCRATCH
    ensures FittingDigits(value, base, flags) == OwnDigits(value, base, flags)
  {
  }

  lemma PaddedLayout(sign: seq<byte>, zeros: nat, d: seq<byte>, width: nat, flags: Flags)
    ensures var fill := Max(0, width - |sign| - zeros - |d|);
      Padded(sign + (Repeat(ZERO, zeros) + d), width, flags) ==
        if flags.left then Layout(0, sign, zeros, d, fill)
        else if flags.zeropad then Layout(0, sign, zeros, d, 0)
        else Layout(fill, sign, zeros, d, 0)
  {
    var fill := Max(0, width - |sign| - zeros - |d|);
    var t := sign + (Repeat(ZERO, zeros) + d);
    if flags.left {
      IsoLeft(sign, zeros, d, fill);
    } else if flags.zeropad {
      IsoLeft(sign, zeros, d, 0);
      assert Repeat(SPACE, 0) == [] && t + [] == t;
    } else {
      IsoRight(sign, zeros, d, fill);
      assert Repeat(SPACE, fill) + t == Repeat(SPACE, fill) + sign + (Repeat(ZERO, zeros) + d);
    }
  }

  // ----- the exact condition

  lemma SignedDecimalFits(value: nat, base: nat, flags: Flags)
    requires 2 <= base && value < DWORD_LIMIT
    ensures base == 10 ==> |OwnDigits(value, base, flags)| <= 20
  {
    hide Digits;
    assert Pow(10, 5) == 100000;
    assert Pow(10, 10) == 10000000000;
    assert Pow(10, 15) == 1000000000000000;
    assert Pow(10, 20) == 100000000000000000000;
    DigitsCount(value, 10, 20);
  }

  /** When the condition holds the two layouts are the same. */
  lemma FollowingIsIso(value: nat, negative: bool, base: nat, prec: nat, width: nat, flags: Flags)
    requires CallSite(value, negative, base, prec, flags)
    requires Follows(|OwnDigits(value, base, flags)|, Sign(negative, flags), prec, width, flags)
    ensures NumberText(value, negative, base, prec, width, flags) == IsoOf(value, negative, base, prec, width, flags)
  {
    hide Layout, NumberText, IsoOf, OwnDigits, Sign;
    OwnLayout(value, negative, base, prec, width, flags);
    IsoLayout(value, negative, base, prec, width, flags);
    SignedDecimalFits(value, base, flags);
    var d, sign := OwnDigits(value, base, flags), Sign(negative, flags);
    if !flags.left && flags.precision && prec == SCRATCH && sign == [SPACE] {
      LayoutSpaceSign(width - 33, SCRATCH - |d|, d);
    }
  }

  lemma FirstDigitNotZero(value: nat, base: nat, upper: bool)
    requires 2 <= base <= 36 && value > 0
    ensures Text(value, base, upper)[0] != ZERO
  {
    DigitsCanonical(value, base);
  }

  lemma DigitsNotSpace(value: nat, base: nat, flags: Flags, k: nat)
    requires 2 <= base <= 36 && k < |OwnDigits(value, base, flags)|
    ensures OwnDigits(value, base, flags)[k] != SPACE
    ensures flags.precision && k == 0 ==> OwnDigits(value, base, flags)[k] != ZERO
  {
    TextChars(value, base, flags.upper);
    if value > 0 { FirstDigitNotZero(value, base, flags.upper); }
  }

  /** '-' with a precision that asks for zeros. */
  lemma LeftDiffers(value: nat, negative: bool, base: nat, prec: nat, width: nat, flags: Flags)
    requires CallSite(value, negative, base, prec, flags)
    requires |OwnDigits(value, base, flags)| <= SCRATCH && flags.left && prec > |OwnDigits(value, base, flags)|
    ensures NumberText(value, negative, base, prec, width, flags) != IsoOf(value, negative, base, prec, width, flags)
  {
    hide Layout, NumberText, IsoOf, OwnDigits, Sign;
    OwnLayout(value, negative, base, prec, width, flags);
    IsoLayout(value, negative, base, prec, width, flags);
    SignedDecimalFits(value, base, flags);
    var d, sign := OwnDigits(value, base, flags), Sign(negative, flags);
    var iso := IsoOf(value, negative, base, prec, width, flags);
    var own := NumberText(value, negative, base, prec, width, flags);
    var k := |sign|;
    LayoutAt(0, sign, prec - |d|, d, Max(0, width - |sign| - prec), k);
    assert iso[k] == ZERO;
    if |own| > k && (|d| < SCRATCH || sign == []) {
      LayoutAt(0, sign, 0, d, Max(0, width - |sign| - |d|), k);
      if |d| > 0 { DigitsNotSpace(value, base, flags, 0); }
      assert own[k] != ZERO;
    }
  }

  /** A precision too large for the scratch buffer and the sign. */
  lemma PrecisionDiffers(value: nat, negative: bool, base: nat, prec: nat, width: nat, flags: Flags)
    requires CallSite(value, negative, base, prec, flags) && !flags.left && flags.precision
    requires |OwnDigits(value, base, flags)| <= SCRATCH
    requires !Follows(|OwnDigits(value, base, flags)|, Sign(negative, flags), prec, width, flags)
    ensures NumberText(value, negative, base, prec, width, flags) != IsoOf(value, negative, base, prec, width, flags)
  {
    hide Layout, NumberText, IsoOf, OwnDigits, Sign;
    OwnLayout(value, negative, base, prec, width, flags);
    IsoLayout(value, negative, base, prec, width, flags);
    var d, sign := OwnDigits(value, base, flags), Sign(negative, flags);
    var iso := IsoOf(value, negative, base, prec, width, flags);
    var own := NumberText(value, negative, base, prec, width, flags);
    var fill := Max(0, width - |sign| - prec);
    assert |iso| >= 33 && |own| == Max(width, SCRATCH);
    if |own| == |iso| {
      var k := |own| - 33;
      LayoutAt(Max(0, width - SCRATCH), [], SCRATCH - |d|, d, 0, k);
      LayoutAt(fill, sign, prec - |d|, d, 0, k);
      assert own[k] == SPACE;
      SignIsNotZero(negative, flags);
    }
  }

  lemma SignIsNotZero(negative: bool, flags: Flags)
    ensures Sign(negative, flags) in {[], [MINUS], [PLUS], [SPACE]}
  {
  }

  /** A zero-padded field wider than the scratch buffer. */
  lemma ZeropadDiffers(value: nat, negative: bool, base: nat, prec: nat, width: nat, flags: Flags)
    requires CallSite(value, negative, base, prec, flags) && !flags.left && flags.zeropad && width > SCRATCH
    requires |OwnDigits(value, base, flags)| <= SCRATCH
    ensures NumberText(value, negative, base, prec, width, flags) != IsoOf(value, negative, base, prec, width, flags)
  {
    hide Layout, NumberText, IsoOf, OwnDigits, Sign;
    OwnLayout(value, negative, base, prec, width, flags);
    IsoLayout(value, negative, base, prec, width, flags);
    assert |NumberText(value, negative, base, prec, width, flags)| == SCRATCH;
  }

  /** More digits than the scratch buffer holds: the leading ones are lost. */
  lemma LongDiffers(value: nat, negative: bool, base: nat, prec: nat, width: nat, flags: Flags)
    requires CallSite(value, negative, base, prec, flags)
    requires |OwnDigits(value, base, flags)| > SCRATCH
    ensures NumberText(value, negative, base, prec, width, flags) != IsoOf(value, negative, base, prec, width, flags)
  {
    hide Layout, NumberText, IsoOf, OwnDigits, Sign, FittingDigits, Dressed, Padded;
    NumberTextIs(value, negative, base, prec, width, flags);
    SignedDecimalFits(value, base, flags);
    var d, t := OwnDigits(value, base, flags), FittingDigits(value, base, flags);
    FittingIsLast(value, base, flags);
    DressedIs(t, negative, base, prec, width, flags);
    assert [] + (Repeat(ZERO, 0) + t) == t;
    PaddedLayout([], 0, t, FillWidth(negative, width, flags), flags);
    IsoLayout(value, negative, base, prec, width, flags);
    var iso := IsoOf(value, negative, base, prec, width, flags);
    var own := NumberText(value, negative, base, prec, width, flags);
    if |own| == |iso| {
      LongDiffersAt(value, base, prec, width, flags, d, t, own, iso);
    }
  }

  lemma FittingIsLast(value: nat, base: nat, flags: Flags)
    requires base >= 2 && |OwnDigits(value, base, flags)| > SCRATCH
    ensures |FittingDigits(value, base, flags)| == SCRATCH
  {
  }

  lemma LongDiffersAt(value: nat, base: nat, prec: nat, width: nat, flags: Flags,
                      d: seq<byte>, t: seq<byte>, own: seq<byte>, iso: seq<byte>)
    requires 2 <= base <= 36 && d == OwnDigits(value, base, flags) && |d| > SCRATCH && |t| == SCRATCH
    requires |own| == |iso|
    requires var zeros := Max(0, prec - |d|); var fill := Max(0, width - zeros - |d|);
      iso == if flags.left then Layout(0, [], zeros, d, fill)
             else if flags.zeropad then Layout(0, [], fill, d, 0)
             else Layout(fill, [], zeros, d, 0)
    requires var fill := Max(0, width - SCRATCH);
      own == if flags.left then Layout(0, [], 0, t, fill)
             else if flags.zeropad then Layout(0, [], 0, t, 0)
             else Layout(fill, [], 0, t, 0)
    ensures own != iso
  {
    hide Layout, OwnDigits;
    var zeros := Max(0, prec - |d|);
    var fill := Max(0, width - zeros - |d|);
    if flags.left {
      LayoutAt(0, [], 0, t, Max(0, width - SCRATCH), SCRATCH);
      LayoutAt(0, [], zeros, d, fill, SCRATCH);
      if zeros <= SCRATCH { DigitsNotSpace(value, base, flags, SCRATCH - zeros); }
    } else if !flags.zeropad {
      var k := |own| - 33;
      LayoutAt(Max(0, width - SCRATCH), [], 0, t, 0, k);
      LayoutAt(fill, [], zeros, d, 0, k);
      DigitsNotSpace(value, base, flags, |d| - 33);
    }
  }

  /** tinyprintf's integers are those of the standard exactly under the condition. */
  lemma IsoIffFollows(value: nat, negative: bool, base: nat, prec: nat, width: nat, flags: Flags)
    requires CallSite(value, negative, base, prec, flags)
    ensures NumberText(value, negative, base, prec, width, flags) == IsoOf(value, negative, base, prec, width, flags)
      <==> Follows(|OwnDigits(value, base, flags)|, Sign(negative, flags), prec, width, flags)
  {
    hide NumberText, IsoOf, OwnDigits, Sign;
    var d, sign := |OwnDigits(value, base, flags)|, Sign(negative, flags);
    if Follows(d, sign, prec, width, flags) {
      FollowingIsIso(value, negative, base, prec, width, flags);
    } else if d > SCRATCH {
      LongDiffers(value, negative, base, prec, width, flags);
    } else if flags.left {
      LeftDiffers(value, negative, base, prec, width, flags);
    } else if flags.precision {
      PrecisionDiffers(value, negative, base, prec, width, flags);
    } else {
      ZeropadDiffers(value, negative, base, prec, width, flags);
    }
  }

  // ----- reading the text back

  /** The number a text with an optional sign stands for. */
  function DecodeSigned(t: seq<byte>, base: nat): int {
    if t != [] && t[0] == MINUS then -(Decode(t[1..], base) as int)
    else if t != [] && t[0] == PLUS then Decode(t[1..], base)
    else Decode(t, base)
  }

  lemma DigitsDenote(value: nat, base: nat, zeros: nat, flags: Flags)
    requires 2 <= base <= 36
    ensures var r := Repeat(ZERO, zeros) + OwnDigits(value, base, flags);
      && Decode(r, base) == value
      && forall k :: 0 <= k < |r| ==> r[k] >= 48
  {
    var d := OwnDigits(value, base, flags);
    LeadingZeros(zeros, d, base);
    if flags.precision && value == 0 {
      assert CharDigits([]) == [];
    } else {
      DecodeText(value, base, flags.upper);
      TextChars(value, base, flags.upper);
    }
  }

  /**
    A conversion that fits: its length is the width or that of sign and digits, and what is left
    between the spaces decodes to the signed value.
   */
  lemma PrintedReadsBack(value: nat, negative: bool, base: nat, prec: nat, width: nat, flags: Flags) returns (r: seq<byte>)
    requires CallSite(value, negative, base, prec, flags)
    requires Follows(|OwnDigits(value, base, flags)|, Sign(negative, flags), prec, width, flags)
    ensures var t := NumberText(value, negative, base, prec, width, flags);
      && |t| == Max(width, |Sign(negative, flags)| + Max(prec, |OwnDigits(value, base, flags)|))
      && Trimmed(t, r)
      && DecodeSigned(r, base) == if negative then -(value as int) else value
  {
    hide NumberText, IsoOf, OwnDigits;
    FollowingIsIso(value, negative, base, prec, width, flags);
    IsoLayout(value, negative, base, prec, width, flags);
    var d, sign := OwnDigits(value, base, flags), Sign(negative, flags);
    var zeros := Max(0, prec - |d|);
    var fill := Max(0, width - |sign| - zeros - |d|);
    var t := NumberText(value, negative, base, prec, width, flags);
    if flags.left {
      r := StrippedLayout(0, sign, zeros, value, base, fill, flags);
    } else if flags.zeropad {
      r := StrippedLayout(0, sign, fill, value, base, 0, flags);
    } else {
      r := StrippedLayout(fill, sign, zeros, value, base, 0, flags);
    }
  }

  lemma StrippedLayout(before: nat, sign: seq<byte>, zeros: nat, value: nat, base: nat, after: nat, flags: Flags)
    returns (r: seq<byte>)
    requires 2 <= base <= 36
    requires sign == [] || sign == [MINUS] || sign == [PLUS] || sign == [SPACE]
    ensures Trimmed(Layout(before, sign, zeros, OwnDigits(value, base, flags), after), r)
    ensures DecodeSigned(r, base) == if sign == [MINUS] then -(value as int) else value
  {
    hide OwnDigits, Decode, Layout, AllSpace;
    var d := OwnDigits(value, base, flags);
    var digits := Repeat(ZERO, zeros) + d;
    DigitsDenote(value, base, zeros, flags);
    var t := Layout(before, sign, zeros, d, after);
    var a, b := Repeat(SPACE, before), Repeat(SPACE, after);
    LayoutParts(before, sign, zeros, d, after);
    if sign == [SPACE] || sign == [] {
      r := digits;
      assert TrimmedBy(t, r, a + sign, b);
    } else {
      r := sign + digits;
      assert r[1..] == digits && r[|r| - 1] >= 43;
      assert TrimmedBy(t, r, a, b);
    }
  }

  lemma LayoutParts(before: nat, sign: seq<byte>, zeros: nat, d: seq<byte>, after: nat)
    ensures var t := Layout(before, sign, zeros, d, after);
      var a, b, digits := Repeat(SPACE, before), Repeat(SPACE, after), Repeat(ZERO, zeros) + d;
      && t == (a + sign) + digits + b && t == a + (sign + digits) + b
      && AllSpace(a) && AllSpace(b)
      && (sign == [] || sign == [SPACE] ==> AllSpace(a + sign))
  {
  }
}
