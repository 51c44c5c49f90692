/** The digit emission of _ftoa: fixed point from an integer part and a fraction already rounded to an integer. */
module Ftoa {
  import opened Machine
  import opened Numeral
  import opened PrintfText
  import opened Printf

  /** Fractional digits beyond nine are printed as zeros. */
  const MAX_PRECISION := 9

  /** Beyond this precision the table of powers of ten is read out of its range before any digit is made. */
  const LARGEST_PRECISION := SCRATCH + MAX_PRECISION

  /** The fraction as exactly prec digits. */
  function FractionText(frac: nat, prec: nat): (t: seq<byte>)
    requires |Text(frac, 10, false)| <= prec
    ensures |t| == prec
  {
    Repeat(ZERO, prec - |Text(frac, 10, false)|) + Text(frac, 10, false)
  }

  /** whole, a point, and the fraction. */
  function FixedText(whole: nat, frac: nat, prec: nat): seq<byte>
    requires prec > 0 ==> |Text(frac, 10, false)| <= prec
  {
    if prec == 0 then Text(whole, 10, false)
    else Text(whole, 10, false) + [POINT] + FractionText(frac, prec)
  }

  /** The end of t that the scratch buffer holds. */
  function Clipped(t: seq<byte>): (r: seq<byte>)
    ensures |r| == Min(|t|, SCRATCH)
  {
    if |t| <= SCRATCH then t else t[|t| - SCRATCH..]
  }

  /** What the loops leave, in reading order. */
  function Emitted(whole: nat, frac: nat, prec: nat): (r: seq<byte>)
    ensures |r| <= SCRATCH
  {
    Reversed(Capped(EmittedBackwards(whole, frac, prec)))
  }

  /** A zero for each fractional digit beyond the ninth, the fraction, the integer part. */
  function EmittedBackwards(whole: nat, frac: nat, prec: nat): seq<byte> {
    var p := Min(prec, MAX_PRECISION);
    Repeat(ZERO, Max(0, prec - MAX_PRECISION)) + (if p == 0 then [] else BackwardsFraction(frac, p)) + Backwards(whole)
  }

  // ----- the loops append to the text written backwards, until the scratch buffer is full

  function Capped(t: seq<byte>): (r: seq<byte>)
    ensures |r| == Min(|t|, SCRATCH)
  {
    t[..Min(|t|, SCRATCH)]
  }

  lemma CappedAppend(t: seq<byte>, u: seq<byte>)
    ensures Capped(Capped(t) + u) == Capped(t + u)
  {
  }

  lemma CappedIsClipped(t: seq<byte>)
    ensures Reversed(Capped(t)) == Clipped(Reversed(t))
  {
  }

  lemma ReversedConcat(t: seq<byte>, u: seq<byte>)
    ensures Reversed(t + u) == Reversed(u) + Reversed(t)
  {
  }

  /** The digits of n, least significant first. */
  function Backwards(n: nat): seq<byte> {
    Reversed(Text(n, 10, false))
  }

  /** Appends the digits of n, the last one first, until none is left or the scratch buffer is full. */
  method EmitNumber(buf: array<byte>, len: nat, n: word) returns (len': nat)
    requires buf.Length == SCRATCH && len <= SCRATCH
    modifies buf
    ensures len' <= SCRATCH && buf[..len'] == Capped(old(buf[..len]) + Backwards(n))
  {
    hide Digits, Value, Capped, Backwards;
    ghost var ds := WordNumeral(n, 10);
    ghost var before := buf[..len];
    len' := len;
    var v: word := n;
    assert ds[..|ds|] == ds;
    while len' < SCRATCH
      invariant len <= len' <= SCRATCH && len' - len < |ds|
      invariant v == Value(ds[..|ds| - (len' - len)], 10)
      invariant buf[..len] == before
      invariant forall k :: len <= k < len' ==> buf[k] == 48 + ds[|ds| - 1 + len - k]
      decreases SCRATCH - len'
    {
      SplitDigit(ds, 10, len' - len, v);
      buf[len'] := 48 + v % 10;
      len' := len' + 1;
      v := v / 10;
      if v == 0 {
        NumberEmitted(before, buf[..len'], n, ds);
        return;
      }
    }
    NumberEmitted(before, buf[..len'], n, ds);
  }

  lemma NumberEmitted(before: seq<byte>, after: seq<byte>, n: nat, ds: seq<nat>)
    requires ds == Digits(n, 10) && |before| <= SCRATCH
    requires |after| == Min(SCRATCH, |before| + |ds|) && before <= after
    requires forall k :: |before| <= k < |after| ==> after[k] == 48 + ds[|ds| - 1 + |before| - k]
    ensures after == Capped(before + Backwards(n))
  {
    hide Digits;
    TenDigitChars(n, ds);
    var t := Text(n, 10, false);
    assert |t| == |ds|;
    forall k | |before| <= k < |after|
      ensures after[k] == Reversed(t)[k - |before|]
    {
      assert t[|ds| - 1 + |before| - k] == 48 + ds[|ds| - 1 + |before| - k];
    }
    var whole := before + Reversed(t);
    assert after == whole[..|after|];
  }

  lemma TenDigitChars(n: nat, ds: seq<nat>)
    requires ds == Digits(n, 10)
    ensures |Text(n, 10, false)| == |ds|
    ensures forall k :: 0 <= k < |ds| ==> Text(n, 10, false)[k] == 48 + ds[k]
  {
  }

  /** Appends count zeros, as far as the scratch buffer goes. */
  method EmitZeros(buf: array<byte>, len: nat, count: word) returns (len': nat)
    requires buf.Length == SCRATCH && len <= SCRATCH
    modifies buf
    ensures len' <= SCRATCH && buf[..len'] == Capped(old(buf[..len]) + Repeat(ZERO, count))
  {
    hide Capped;
    ghost var before := buf[..len];
    len' := len;
    var c: int := count;
    while len' < SCRATCH && c > 0
      invariant len <= len' <= SCRATCH && 0 <= c <= count && len' - len == count - c
      invariant buf[..len'] == before + Repeat(ZERO, count - c)
    {
      c := c - 1;
      ghost var now := buf[..len'];
      buf[len'] := ZERO;
      len' := len' + 1;
      assert buf[..len'] == now + [ZERO];
      assert Repeat(ZERO, count - c - 1) + [ZERO] == Repeat(ZERO, count - c);
    }
    ZerosEmitted(before, len' - len, count);
  }

  lemma ZerosEmitted(before: seq<byte>, k: nat, count: nat)
    requires |before| <= SCRATCH && k == Min(count, SCRATCH - |before|)
    ensures before + Repeat(ZERO, k) == Capped(before + Repeat(ZERO, count))
  {
  }

  /** The fraction: its digits, zeros for the places left, the point. */
  method EmitFraction(buf: array<byte>, len: nat, frac: word, prec: nat) returns (len': nat)
    requires buf.Length == SCRATCH && len <= SCRATCH && 1 <= prec <= MAX_PRECISION
    modifies buf
    ensures len' <= SCRATCH && buf[..len'] == Capped(old(buf[..len]) + BackwardsFraction(frac, prec))
  {
    hide Capped, Backwards;
    ghost var before := buf[..len];
    ghost var digits := Backwards(frac);
    WordFitsTen(frac);
    // count is decremented once for each digit, and wraps when there are more of them than places
    len' := EmitNumber(buf, len, frac);
    var count := ToWord(prec - (len' - len));
    if len' < SCRATCH {
      CappedShort(before + digits, buf[..len']);
    }
    ghost var mid, at := buf[..len'], len';
    len' := EmitZeros(buf, len', count);
    CappedAppend(before + digits, Repeat(ZERO, count));
    ghost var full := buf[..len'];
    if len' < SCRATCH {
      buf[len'] := POINT;
      len' := len' + 1;
      assert buf[..len'] == full + [POINT];
    }
    FractionEmitted(before, digits, frac, prec, at, count, full, buf[..len']);
  }

  /** The fraction backwards, as the loops produce it. */
  function BackwardsFraction(frac: nat, prec: nat): seq<byte> {
    var t := Text(frac, 10, false);
    Backwards(frac) + Repeat(ZERO, if |t| <= prec then prec - |t| else SCRATCH) + [POINT]
  }

  lemma WordFitsTen(n: word)
    ensures 1 <= |Backwards(n)| == |Text(n, 10, false)| <= 10
  {
    hide Digits;
    assert Pow(10, 5) == 100000;
    assert Pow(10, 10) == 10000000000;
    DigitsCount(n, 10, 10);
  }

  lemma CappedShort(t: seq<byte>, r: seq<byte>)
    requires r == Capped(t) && |r| < SCRATCH
    ensures r == t
  {
  }

  lemma FractionEmitted(before: seq<byte>, digits: seq<byte>, frac: nat, prec: nat, at: nat, count: word,
                        full: seq<byte>, after: seq<byte>)
    requires |before| <= SCRATCH && 1 <= prec <= MAX_PRECISION
    requires digits == Backwards(frac) && |digits| == |Text(frac, 10, false)| <= 10
    requires at == Min(SCRATCH, |before| + |digits|) && count == ToWord(prec - (at - |before|))
    requires full == Capped(before + digits + Repeat(ZERO, count))
    requires after == if |full| < SCRATCH then full + [POINT] else full
    ensures after == Capped(before + BackwardsFraction(frac, prec))
  {
    hide Text, Backwards;
    var zeros := if |digits| <= prec then prec - |digits| else SCRATCH;
    assert before + BackwardsFraction(frac, prec) == before + digits + Repeat(ZERO, zeros) + [POINT];
    if at < SCRATCH && |digits| > prec {
      assert count == WORD_LIMIT + prec - |digits| >= SCRATCH;
    }
  }

  /** Everything between the rounding and the padding. */
  method EmitDigits(buf: array<byte>, whole: word, frac: word, prec: nat) returns (len: nat)
    requires buf.Length == SCRATCH && prec <= LARGEST_PRECISION
    modifies buf
    ensures len <= SCRATCH && Reversed(buf[..len]) == Emitted(whole, frac, prec)
  {
    hide Capped, Backwards, BackwardsFraction;
    len := 0;
    var p := prec;
    ghost var extra := Repeat(ZERO, Max(0, prec - MAX_PRECISION));
    NothingCapped(extra);
    if p > MAX_PRECISION {
      assert buf[..0] + extra == extra;
      len := EmitZeros(buf, len, p - MAX_PRECISION);
      p := MAX_PRECISION;
    }
    assert buf[..len] == Capped(extra);
    ghost var middle := if p == 0 then [] else BackwardsFraction(frac, p);
    assert extra + [] == extra;
    if p != 0 {
      len := EmitFraction(buf, len, frac, p);
      CappedAppend(extra, middle);
    }
    assert buf[..len] == Capped(extra + middle);
    len := EmitNumber(buf, len, whole);
    CappedAppend(extra + middle, Backwards(whole));
  }

  lemma NothingCapped(t: seq<byte>)
    ensures t == [] ==> Capped(t) == []
  {
  }

  /** With zero padding, sign and spaces, as in _ntoa_format but without precision and prefix. */
  function FtoaText(whole: nat, frac: nat, negative: bool, prec: nat, width: nat, flags: Flags): seq<byte> {
    FormatText(Emitted(whole, frac, prec), negative, 10, 0, width, flags.(hash := false))
  }

  /** _ftoa from the point where the value has been split and rounded. */
  method Ftoa(engine: Engine, idx: nat, whole: word, frac: word, negative: bool, prec: nat, width: nat, flags: Flags)
    returns (idx': nat)
    requires prec <= LARGEST_PRECISION
    requires engine.Room(idx + |FtoaText(whole, frac, negative, prec, width, flags)|)
    modifies engine, engine.buffer
    ensures engine.Wrote(idx, FtoaText(whole, frac, negative, prec, width, flags), idx')
  {
    hide Emitted, Padded, ZeroFilled, After;
    var buf := new byte[SCRATCH];
    var n := EmitDigits(buf, whole, frac, prec);
    ghost var digits := Reversed(buf[..n]);
    ghost var state := engine.State();
    var w := width;
    if !flags.left && flags.zeropad {
      if w > 0 && (negative || flags.plus || flags.space) {
        w := w - 1;
      }
      n := Engine.FillZeros(buf, n, w);
    }
    n := Engine.PushSign(buf, n, negative, flags);
    NoPrecisionZeros(digits);
    HashIrrelevant(digits, negative, width, flags);
    assert Reversed(buf[..n]) == Dressed(digits, negative, 10, 0, width, flags.(hash := false));
    assert engine.State() == state;
    idx' := engine.OutRev(idx, buf, n, w, flags);
  }

  lemma NoPrecisionZeros(t: seq<byte>)
    requires |t| <= SCRATCH
    ensures ZeroFilled(t, 0) == t
  {
  }

  lemma HashIrrelevant(digits: seq<byte>, negative: bool, width: nat, flags: Flags)
    requires |digits| <= SCRATCH
    ensures var f := flags.(hash := false); var t := Dressed(digits, negative, 10, 0, width, f);
      && FillWidth(negative, width, f) == FillWidth(negative, width, flags)
      && Padded(t, FillWidth(negative, width, f), f) == Padded(t, FillWidth(negative, width, flags), flags)
  {
    hide Dressed;
  }

  // ----- when it is right

  lemma DigitsOfFraction(frac: nat, p: nat)
    requires p >= 1
    ensures |Text(frac, 10, false)| <= p <==> frac < Pow(10, p)
  {
    hide Digits;
    DigitsCount(frac, 10, p);
  }

  /** A fraction below 10^p is printed with exactly p digits. */
  lemma SmallFractionIsFixed(whole: nat, frac: nat, prec: nat)
    requires var p := Min(prec, MAX_PRECISION); p > 0 ==> |Text(frac, 10, false)| <= p
    ensures Emitted(whole, frac, prec) ==
      Clipped(FixedText(whole, frac, Min(prec, MAX_PRECISION)) + Repeat(ZERO, Max(0, prec - MAX_PRECISION)))
  {
    hide Text, Capped, Clipped;
    var p, zeros := Min(prec, MAX_PRECISION), Repeat(ZERO, Max(0, prec - MAX_PRECISION));
    var middle := if p == 0 then [] else BackwardsFraction(frac, p);
    CappedIsClipped(EmittedBackwards(whole, frac, prec));
    ReversedConcat(zeros + middle, Backwards(whole));
    ReversedConcat(zeros, middle);
    ReversedTwice(Text(whole, 10, false));
    assert Reversed(zeros) == zeros;
    if p == 0 {
      ReversedNothing();
      assert Text(whole, 10, false) + ([] + zeros) == FixedText(whole, frac, p) + zeros;
    } else {
      FractionReversed(frac, p);
      assert Text(whole, 10, false) + ([POINT] + FractionText(frac, p) + zeros) == FixedText(whole, frac, p) + zeros;
    }
  }

  lemma ReversedNothing()
    ensures Reversed<byte>([]) == []
  {
  }

  lemma ReversedTwice(t: seq<byte>)
    ensures Reversed(Reversed(t)) == t
  {
  }

  lemma FractionReversed(frac: nat, p: nat)
    requires 1 <= p && |Text(frac, 10, false)| <= p
    ensures Reversed(BackwardsFraction(frac, p)) == [POINT] + FractionText(frac, p)
  {
    hide Text;
    var zeros := Repeat(ZERO, p - |Text(frac, 10, false)|);
    ReversedConcat(Backwards(frac) + zeros, [POINT]);
    ReversedConcat(Backwards(frac), zeros);
    ReversedTwice(Text(frac, 10, false));
    assert Reversed([POINT]) == [POINT] && Reversed(zeros) == zeros;
  }

  /** A larger one makes the count wrap, and neither point nor integer part is printed. */
  lemma LargeFractionHasNoPoint(whole: nat, frac: word, prec: nat)
    requires prec >= 1 && |Text(frac, 10, false)| > Min(prec, MAX_PRECISION)
    ensures |Emitted(whole, frac, prec)| == SCRATCH && POINT !in Emitted(whole, frac, prec)
  {
    hide Text;
    var p, zeros := Min(prec, MAX_PRECISION), Repeat(ZERO, Max(0, prec - MAX_PRECISION));
    var t := Backwards(frac);
    var full := zeros + t + Repeat(ZERO, SCRATCH);
    TextChars(frac, 10, false);
    var all := EmittedBackwards(whole, frac, prec);
    assert all == full + [POINT] + Backwards(whole);
    assert forall k :: 0 <= k < SCRATCH ==> Capped(all)[k] == full[k];
  }

  /** There is a point exactly if frac < 10^p. Rounding can produce frac == 10^p. */
  lemma PointIffFractionFits(whole: word, frac: word, prec: nat)
    requires 1 <= prec < SCRATCH
    ensures POINT in Emitted(whole, frac, prec) <==> frac < Pow(10, Min(prec, MAX_PRECISION))
  {
    hide Emitted, Text;
    var p := Min(prec, MAX_PRECISION);
    DigitsOfFraction(frac, p);
    if frac < Pow(10, p) {
      SmallFractionIsFixed(whole, frac, prec);
      var w, t := Text(whole, 10, false), FixedText(whole, frac, p) + Repeat(ZERO, prec - p);
      assert t[|w|] == POINT && |t| - |w| == prec + 1;
      assert Clipped(t)[|Clipped(t)| - prec - 1] == POINT;
    } else {
      LargeFractionHasNoPoint(whole, frac, prec);
    }
  }

  /** How many characters the fixed-point text has. */
  function FixedLength(whole: nat, prec: nat): nat {
    |Text(whole, 10, false)| + if prec == 0 then 0 else 1 + prec
  }

  /**
    The emitted text is the fixed-point text of whole and frac, with zeros for places beyond the ninth,
    exactly if frac < 10^p for the p places that are computed and the whole text fits the scratch buffer.
   */
  lemma FixedPointIffFits(whole: word, frac: word, prec: nat)
    ensures var p := Min(prec, MAX_PRECISION);
      (p > 0 ==> frac < Pow(10, p)) && FixedLength(whole, prec) <= SCRATCH
      <==>
      && (p > 0 ==> |Text(frac, 10, false)| <= p)
      && Emitted(whole, frac, prec) == FixedText(whole, frac, p) + Repeat(ZERO, prec - p)
  {
    hide Emitted, Text;
    var p := Min(prec, MAX_PRECISION);
    if p > 0 { DigitsOfFraction(frac, p); }
    if p > 0 ==> |Text(frac, 10, false)| <= p {
      SmallFractionIsFixed(whole, frac, prec);
      assert |FixedText(whole, frac, p) + Repeat(ZERO, prec - p)| == FixedLength(whole, prec);
    }
  }

  /** Digits read across the point: concatenated numerals weigh the first by a power of the base. */
  lemma {:induction false} DecodeConcat(a: seq<byte>, b: seq<byte>)
    ensures Decode(a + b, 10) == Decode(a, 10) * Pow(10, |b|) + Decode(b, 10)
    decreases |b|
  {
    if b == [] {
      assert a + b == a && CharDigits([]) == [];
    } else {
      var init, d := b[..|b| - 1], CharDigit(b[|b| - 1]);
      DecodeConcat(a, init);
      assert CharDigits(a + b) == CharDigits(a + init) + [d] && CharDigits(b) == CharDigits(init) + [d];
      ValueSnoc(CharDigits(a + init), d, 10);
      ValueSnoc(CharDigits(init), d, 10);
      Distribute(Decode(a, 10), Pow(10, |init|), Decode(init, 10));
    }
  }

  lemma Distribute(x: nat, y: nat, z: nat)
    ensures (x * y + z) * 10 == x * (y * 10) + z * 10
  {
  }

  /** Without its point the text decodes to whole * 10^prec + frac. */
  lemma FixedTextDecodes(whole: nat, frac: nat, prec: nat)
    requires prec >= 1 && frac < Pow(10, prec)
    ensures |Text(frac, 10, false)| <= prec
    ensures FixedText(whole, frac, prec) == Text(whole, 10, false) + [POINT] + FractionText(frac, prec)
    ensures Decode(Text(whole, 10, false) + FractionText(frac, prec), 10) == whole * Pow(10, prec) + frac
  {
    hide Text, Decode, Pow;
    DigitsOfFraction(frac, prec);
    DecodeConcat(Text(whole, 10, false), FractionText(frac, prec));
    LeadingZeros(prec - |Text(frac, 10, false)|, Text(frac, 10, false), 10);
    DecodeText(whole, 10, false);
    DecodeText(frac, 10, false);
  }

  /** "%.1f" of 0.95: 9.5 is halfway, so the fraction 9 is rounded up to 10, which has one digit too many. */
  lemma RoundedUpTooFar()
    ensures Emitted(0, 10, 1) == Repeat(ZERO, 30) + [49, ZERO]
  {
    assert Digits(10, 10) == [1, 0];
    assert Backwards(10) == [48, 49];
    assert BackwardsFraction(10, 1) == [48, 49] + Repeat(ZERO, SCRATCH) + [POINT];
    var all := EmittedBackwards(0, 10, 1);
    assert all[0] == 48 && all[1] == 49 && forall k :: 2 <= k < SCRATCH ==> all[k] == ZERO;
  }

  /** "%.31f" of 5.0: the 31 places and the point fill the scratch buffer, and the 5 is lost. */
  lemma WholePartLost()
    ensures Emitted(5, 0, 31) == [POINT] + Repeat(ZERO, 31)
  {
    hide Emitted;
    assert Text(5, 10, false) == [53] && Text(0, 10, false) == [ZERO];
    SmallFractionIsFixed(5, 0, 31);
    var t := FixedText(5, 0, 9) + Repeat(ZERO, 22);
    assert t[1..] == [POINT] + Repeat(ZERO, 31);
  }
}
