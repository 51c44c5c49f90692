/** The field of a fixed-point number, of ISO C11, section 7.21.6.1, and exactly when _ftoa prints it. */
module PrintfFixed {
  import opened Machine
  import opened Numeral
  import opened PrintfText
  import opened PrintfIso
  import opened Ftoa

  /** '-' for a negative number, else what the flags ask for. */
  function FixedSign(negative: bool, flags: Flags): (s: seq<byte>) {
    if negative then ['-' as int]
    else if flags.plus then ['+' as int]
    else if flags.space then [' ' as int]
    else []
  }

  lemma FixedSignIs(negative: bool, flags: Flags)
    ensures Sign(negative, flags) == FixedSign(negative, flags)
  {
  }

  /** The zeros in front of the digits: as far as width and scratch buffer go, with a place for the sign. */
  function FixedZeros(digits: nat, sign: seq<byte>, width: nat, flags: Flags): nat {
    if flags.left || !flags.zeropad then 0
    else Max(0, Min(if sign != [] && width > 0 then width - 1 else width, 32) - digits)
  }

  /** _ftoa puts spaces, sign and zeros around the emitted digits, the sign only if the scratch buffer has room. */
  lemma FtoaLayout(whole: nat, frac: nat, negative: bool, prec: nat, width: nat, flags: Flags)
    ensures var e, sign := Emitted(whole, frac, prec), FixedSign(negative, flags);
      var zeros := FixedZeros(|e|, sign, width, flags);
      var shown := if |e| + zeros < 32 then sign else [];
      var fill := Max(0, width - |shown| - zeros - |e|);
      FtoaText(whole, frac, negative, prec, width, flags) ==
        if flags.left then Layout(0, shown, zeros, e, fill)
        else if flags.zeropad then Layout(0, shown, zeros, e, 0)
        else Layout(fill, shown, zeros, e, 0)
  {
    hide Emitted, Layout, Dressed, Padded, Sign, OwnZeros, FixedSign;
    var e, f := Emitted(whole, frac, prec), flags.(hash := false);
    FixedSignIs(negative, flags);
    FixedSignIs(negative, f);
    SignOfFlags(negative, flags);
    var signed := FixedSign(negative, flags) != [];
    var zeros := OwnZeros(|e|, signed, 0, width, f);
    var shown := if |e| + zeros < 32 then FixedSign(negative, flags) else [];
    DressedIs(e, negative, 10, 0, width, f);
    ZerosAgree(|e|, signed, FixedSign(negative, flags), width, flags);
    PaddedLayout(shown, zeros, e, FillWidth(negative, width, f), f);
  }

  lemma SignOfFlags(negative: bool, flags: Flags)
    ensures FixedSign(negative, flags.(hash := false)) == FixedSign(negative, flags)
    ensures FixedSign(negative, flags) != [] <==> negative || flags.plus || flags.space
  {
  }

  lemma ZerosAgree(digits: nat, signed: bool, sign: seq<byte>, width: nat, flags: Flags)
    requires digits <= SCRATCH && (signed <==> sign != [])
    ensures OwnZeros(digits, signed, 0, width, flags.(hash := false)) == FixedZeros(digits, sign, width, flags)
  {
  }

  // ----- against the standard

  /** Whole part, point, fraction and the zeros for places that are not computed. */
  function FullText(whole: nat, frac: nat, prec: nat): seq<byte>
    requires prec > 0 ==> frac < Pow(10, Min(prec, 9))
  {
    if prec > 0 then DigitsOfFraction(frac, Min(prec, 9)); FixedText(whole, frac, Min(prec, 9)) + Repeat(ZERO, prec - Min(prec, 9))
    else FixedText(whole, frac, 0)
  }

  /**
    The text fits the scratch buffer; so does the sign, unless it is a space that padding shows as well; and a
    zero-padded field is at most 32 wide.
   */
  predicate FixedFollows(length: nat, sign: seq<byte>, width: nat, flags: Flags) {
    && length <= 32
    && (sign == [] || length < 32 || (sign == [' ' as int] && width > 32 && !flags.left && !flags.zeropad))
    && (flags.zeropad && !flags.left ==> width <= 32)
  }

  lemma FullTextChars(whole: nat, frac: nat, prec: nat)
    requires prec > 0 ==> frac < Pow(10, Min(prec, 9))
    ensures var t := FullText(whole, frac, prec);
      t != [] && t[0] >= 48 && forall i :: 0 <= i < |t| ==> t[i] >= 46
  {
    hide Text;
    TextChars(whole, 10, false);
    TextChars(frac, 10, false);
    if prec > 0 { DigitsOfFraction(frac, Min(prec, 9)); }
  }

  lemma EmittedIsClipped(whole: nat, frac: nat, prec: nat)
    requires prec > 0 ==> frac < Pow(10, Min(prec, 9))
    ensures Emitted(whole, frac, prec) == Clipped(FullText(whole, frac, prec))
  {
    hide Text, Emitted, Clipped, FixedText;
    if prec > 0 { DigitsOfFraction(frac, Min(prec, 9)); }
    SmallFractionIsFixed(whole, frac, prec);
    if prec == 0 {
      var t := FixedText(whole, frac, 0);
      assert t + Repeat(ZERO, 0) == t;
    }
  }

  lemma FieldLayout(sign: seq<byte>, t: seq<byte>, left: bool, zeros: bool, width: nat)
    ensures var fill := Max(0, width - |sign| - |t|);
      IsoField(sign, t, left, zeros, width) ==
        if left then Layout(0, sign, 0, t, fill) else if zeros then Layout(0, sign, fill, t, 0) else Layout(fill, sign, 0, t, 0)
  {
    var fill := Max(0, width - |sign| - |t|);
    IsoLeft(sign, 0, t, fill);
    IsoZeros(sign, t, fill);
    IsoRight(sign, 0, t, fill);
    assert Repeat(ZERO, 0) + t == t;
  }

  /** Both layouts around a text that fits. */
  lemma FittingIff(t: seq<byte>, sign: seq<byte>, width: nat, flags: Flags)
    requires 1 <= |t| <= 32 && t[0] >= 48 && (sign == [] || sign == [43] || sign == [45] || sign == [32])
    ensures var zeros := FixedZeros(|t|, sign, width, flags);
      var shown := if |t| + zeros < 32 then sign else [];
      var fill := Max(0, width - |shown| - zeros - |t|);
      var own := if flags.left then Layout(0, shown, zeros, t, fill)
                 else if flags.zeropad then Layout(0, shown, zeros, t, 0)
                 else Layout(fill, shown, zeros, t, 0);
      own == IsoField(sign, t, flags.left, flags.zeropad, width) <==> FixedFollows(|t|, sign, width, flags)
  {
    hide Layout, IsoField;
    FieldLayout(sign, t, flags.left, flags.zeropad, width);
    if |t| == 32 && sign != [] {
      if flags.left {
        LayoutAt(0, [], 0, t, Max(0, width - 32), 0);
        LayoutAt(0, sign, 0, t, Max(0, width - 33), 0);
      } else if !flags.zeropad && width > 32 {
        LayoutAt(width - 32, [], 0, t, 0, width - 33);
        LayoutAt(width - 33, sign, 0, t, 0, width - 33);
        if sign == [32] { LayoutSpaceSign(width - 33, 0, t); }
      }
    }
  }

  /** A text that is too long is cut, and nothing makes up for it. */
  lemma CutDiffers(t: seq<byte>, sign: seq<byte>, width: nat, flags: Flags)
    requires |t| > 32 && |sign| <= 1 && forall i :: 0 <= i < |t| ==> t[i] >= 46
    ensures var e := Clipped(t);
      var own := if flags.left then Layout(0, [], 0, e, Max(0, width - 32))
                 else if flags.zeropad then Layout(0, [], 0, e, 0)
                 else Layout(Max(0, width - 32), [], 0, e, 0);
      own != IsoField(sign, t, flags.left, flags.zeropad, width)
  {
    hide Layout, IsoField;
    var e, fill := Clipped(t), Max(0, width - |sign| - |t|);
    FieldLayout(sign, t, flags.left, flags.zeropad, width);
    if width >= |sign| + |t| {
      if flags.left {
        LayoutAt(0, [], 0, e, width - 32, 32);
        LayoutAt(0, sign, 0, t, fill, 32);
      } else if !flags.zeropad {
        LayoutAt(width - 32, [], 0, e, 0, width - 33);
        LayoutAt(fill, sign, 0, t, 0, width - 33);
      }
    }
  }

  /**
    A fixed-point number whose fraction has no more digits than places is printed in its field as the standard says
    exactly if text and sign fit the scratch buffer and the field needs no zeros beyond it.
   */
  lemma FixedPointIsoIff(whole: word, frac: word, negative: bool, prec: nat, width: nat, flags: Flags)
    requires prec > 0 ==> frac < Pow(10, Min(prec, 9))
    ensures var t, sign := FullText(whole, frac, prec), FixedSign(negative, flags);
      FtoaText(whole, frac, negative, prec, width, flags) == IsoField(sign, t, flags.left, flags.zeropad, width)
      <==> FixedFollows(|t|, sign, width, flags)
  {
    hide FtoaText, Emitted, FullText, Layout, IsoField, Pow, FixedSign, FixedZeros, FixedFollows;
    var t, sign := FullText(whole, frac, prec), FixedSign(negative, flags);
    FullTextChars(whole, frac, prec);
    EmittedIsClipped(whole, frac, prec);
    FtoaLayout(whole, frac, negative, prec, width, flags);
    SignChars(negative, flags);
    if |t| <= 32 {
      FittingIff(t, sign, width, flags);
    } else {
      CutDiffers(t, sign, width, flags);
      NoRoom(|t|, sign, width, flags);
    }
  }

  lemma SignChars(negative: bool, flags: Flags)
    ensures var sign := FixedSign(negative, flags); sign == [] || sign == [43] || sign == [45] || sign == [32]
  {
  }

  lemma NoRoom(length: nat, sign: seq<byte>, width: nat, flags: Flags)
    requires length > 32
    ensures FixedZeros(32, sign, width, flags) == 0 && !FixedFollows(length, sign, width, flags)
  {
  }
}
