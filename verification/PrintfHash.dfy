/** The '#' flag of ISO C11, section 7.21.6.1, and exactly when tinyprintf follows it. */
module PrintfHash {
  import opened Machine
  import opened Numeral
  import opened PrintfText
  import opened PrintfIso

  // ----- the standard's wording

  /** What '#' puts in front of a numeral other than zero; base 2 is an extension that is treated alike. */
  function Lead(base: nat, upper: bool): (t: seq<byte>)
    ensures 1 <= |t| <= 2 && t[0] == ZERO && SPACE !in t
  {
    if base == 16 then [ZERO, if upper then 88 else 120] else if base == 2 then [ZERO, 98] else [ZERO]
  }

  /** The precision of an octal numeral is raised just enough to make its first digit zero. */
  function LeadingZero(digits: seq<byte>): seq<byte> {
    if digits == [] || digits[0] != ZERO then [ZERO] + digits else digits
  }

  /** An integer with '#': octal numerals get a leading zero, the others a prefix unless they are zero. */
  function IsoAlternate(value: nat, base: nat, upper: bool, left: bool, zero: bool, precision: Option<nat>, width: nat): seq<byte>
    requires base >= 2
  {
    var digits := IsoDigits(value, base, upper, precision);
    if base == 8 then IsoField([], LeadingZero(digits), left, zero && precision.None?, width)
    else IsoField(if value == 0 then [] else Lead(base, upper), digits, left, zero && precision.None?, width)
  }

  /** What the call sites guarantee with '#': only bases that know it, and no sign. */
  ghost predicate HashSite(value: nat, base: nat, prec: nat, flags: Flags) {
    && (base == 2 || base == 8 || base == 16)
    && value < DWORD_LIMIT
    && flags.hash && !flags.plus && !flags.space
    && (flags.precision ==> !flags.zeropad)
    && (!flags.precision ==> prec == 0)
  }

  /**
    The condition for a value other than zero with the given number of digits: they fit the scratch buffer with
    their prefix; without a precision they are not as many as the field is wide; a precision asks for no zeros
    that '-' would lose, an octal leading zero would duplicate, or the buffer would not hold; and a zero-padded
    field is at most 32 wide, wide enough for the x if there are zeros in front of it, and without room for zeros
    in base 2.
   */
  predicate HashFollows(digits: nat, base: nat, prec: nat, width: nat, flags: Flags) {
    var lead := if base == 8 then 1 else 2;
    && digits + lead <= SCRATCH
    && (!flags.precision ==> digits != width)
    && if flags.left then flags.precision ==> prec <= if base == 8 then digits + 1 else digits
       else if flags.precision then
         if base == 8 then prec <= digits || prec == SCRATCH else prec + lead <= SCRATCH
       else flags.zeropad ==>
         width <= SCRATCH && (base == 16 ==> width != digits + 1) && (base == 2 ==> width <= digits + 1)
  }

  // ----- both sides as the same padding of a text without spaces

  /** The standard's text before spaces are added. */
  function IsoCore(d: seq<byte>, base: nat, prec: nat, width: nat, flags: Flags): seq<byte> {
    var lead := Lead(base, flags.upper);
    var n := if !flags.left && flags.zeropad then width - (if base == 8 then 1 else 2)
             else prec - (if base == 8 then 1 else 0);
    lead + (Repeat(ZERO, Max(0, n - |d|)) + d)
  }

  /** The scratch buffer before the '#' step. */
  function Filled(t: seq<byte>, prec: nat, width: nat, flags: Flags): (r: seq<byte>)
    requires |t| <= SCRATCH
    ensures |r| <= SCRATCH
  {
    var t1 := if flags.left then t else ZeroFilled(t, prec);
    if !flags.left && flags.zeropad then ZeroFilled(t1, width) else t1
  }

  lemma FilledIs(t: seq<byte>, prec: nat, width: nat, flags: Flags)
    requires |t| <= SCRATCH
    ensures Filled(t, prec, width, flags) == Repeat(ZERO, OwnZeros(|t|, false, prec, width, flags)) + t
  {
    assert Repeat(ZERO, 0) + t == t;
    if !flags.left && flags.zeropad { ZeroFilledTwice(t, prec, width); }
  }

  lemma OwnIsPadded(value: nat, base: nat, prec: nat, width: nat, flags: Flags)
    requires HashSite(value, base, prec, flags) && value > 0
    ensures NumberText(value, false, base, prec, width, flags) ==
      Padded(Hashed(Filled(FittingDigits(value, base, flags), prec, width, flags), base, prec, width, flags), width, flags)
  {
    hide Padded, ZeroFilled, FittingDigits, Hashed;
    var h := Hashed(Filled(FittingDigits(value, base, flags), prec, width, flags), base, prec, width, flags);
    assert [] + h == h;
  }

  lemma IsoIsPadded(value: nat, base: nat, prec: nat, width: nat, flags: Flags)
    requires HashSite(value, base, prec, flags) && value > 0
    ensures IsoAlternate(value, base, flags.upper, flags.left, flags.zeropad, if flags.precision then Some(prec) else None, width)
      == Padded(IsoCore(Text(value, base, flags.upper), base, prec, width, flags), width, flags)
  {
    hide Text, IsoField, Padded, IsoCore;
    var d := Text(value, base, flags.upper);
    FirstDigitNotZero(value, base, flags.upper);
    TextChars(value, base, flags.upper);
    IsoDigitsAre(value, base, prec, flags);
    assert OwnDigits(value, base, flags) == d;
    var zeros := Repeat(ZERO, Max(0, prec - |d|));
    if base == 8 {
      var more := Repeat(ZERO, Max(0, prec - 1 - |d|));
      assert LeadingZero(zeros + d) == [ZERO] + (more + d);
      assert IsoField([], [ZERO] + (more + d), flags.left, flags.zeropad, width)
          == IsoField([ZERO], more + d, flags.left, flags.zeropad, width) by {
        OctalField(more + d, flags.left, flags.zeropad, width);
      }
      FieldIsPadded([ZERO], more, d, base, prec, width, flags);
    } else {
      FieldIsPadded(Lead(base, flags.upper), zeros, d, base, prec, width, flags);
    }
  }

  /** It makes no difference whether a leading zero counts as prefix or as digit. */
  lemma OctalField(digits: seq<byte>, left: bool, zeros: bool, width: nat)
    ensures IsoField([], [ZERO] + digits, left, zeros, width) == IsoField([ZERO], digits, left, zeros, width)
  {
    var fill := Max(0, width - 1 - |digits|);
    if left {
      assert [] + ([ZERO] + digits) + Repeat(SPACE, fill) == [ZERO] + digits + Repeat(SPACE, fill);
    } else if zeros {
      assert [] + Repeat(ZERO, fill) + ([ZERO] + digits) == [ZERO] + Repeat(ZERO, fill) + digits;
    } else {
      assert Repeat(SPACE, fill) + [] + ([ZERO] + digits) == Repeat(SPACE, fill) + [ZERO] + digits;
    }
  }

  lemma FieldIsPadded(lead: seq<byte>, zeros: seq<byte>, d: seq<byte>, base: nat, prec: nat, width: nat, flags: Flags)
    requires lead == Lead(base, flags.upper) && |lead| == (if base == 8 then 1 else 2)
    requires !flags.precision ==> prec == 0
    requires flags.precision ==> !flags.zeropad
    requires zeros == Repeat(ZERO, Max(0, prec - (if base == 8 then 1 else 0) - |d|))
    ensures IsoField(lead, zeros + d, flags.left, flags.zeropad, width)
         == Padded(IsoCore(d, base, prec, width, flags), width, flags)
  {
    var fill := Max(0, width - |lead| - |zeros + d|);
    var core := IsoCore(d, base, prec, width, flags);
    if flags.left {
    } else if flags.zeropad {
      assert zeros == [] && zeros + d == d;
      assert lead + Repeat(ZERO, fill) + d == core;
    } else {
      assert Repeat(SPACE, fill) + lead + (zeros + d) == Repeat(SPACE, fill) + core;
    }
  }

  /** Of two texts without spaces, padding shows which it was. */
  lemma PaddedInjective(t: seq<byte>, u: seq<byte>, width: nat, flags: Flags)
    requires SPACE !in t && SPACE !in u
    ensures Padded(t, width, flags) == Padded(u, width, flags) <==> t == u
  {
    if |t| < |u| {
      PaddedShows(t, u, width, flags);
    } else if |u| < |t| {
      PaddedShows(u, t, width, flags);
    } else if Padded(t, width, flags) == Padded(u, width, flags) {
      var p := Padded(t, width, flags);
      if flags.left {
        assert t == p[..|t|] == u;
      } else if !flags.zeropad {
        assert t == p[|p| - |t|..] == u;
      }
    }
  }

  lemma PaddedShows(t: seq<byte>, u: seq<byte>, width: nat, flags: Flags)
    requires SPACE !in u && |t| < |u|
    ensures Padded(t, width, flags) != Padded(u, width, flags)
  {
    var a, b := Padded(t, width, flags), Padded(u, width, flags);
    if |a| == |b| {
      if flags.left {
        assert a[|t|] == SPACE && b[|t|] == u[|t|];
      } else if !flags.zeropad {
        var k := |a| - |t| - 1;
        assert a[k] == SPACE && b[k] == u[|u| - |t| - 1];
      }
    }
  }

  // ----- the '#' step itself

  /** Whether leading characters are given up. */
  predicate Gives(t: seq<byte>, prec: nat, width: nat, flags: Flags) {
    !flags.precision && t != [] && (|t| == prec || |t| == width)
  }

  lemma HashedAtMost(t: seq<byte>, base: nat, prec: nat, width: nat, flags: Flags)
    requires |t| <= SCRATCH
    ensures var h := Hashed(t, base, prec, width, flags); var lead := Lead(base, flags.upper);
      && |h| <= |t| + |lead|
      && (Gives(t, prec, width, flags) ==> |h| < |t| + |lead|)
  {
  }

  lemma HashedKeeps(t: seq<byte>, base: nat, prec: nat, width: nat, flags: Flags)
    requires |t| <= SCRATCH && !Gives(t, prec, width, flags)
    ensures var lead := Lead(base, flags.upper);
      && (|t| + |lead| <= SCRATCH ==> Hashed(t, base, prec, width, flags) == lead + t)
      && (|t| == SCRATCH ==> Hashed(t, base, prec, width, flags) == t)
  {
    assert [ZERO] + ([120] + t) == [ZERO, 120] + t;
    assert [ZERO] + ([88] + t) == [ZERO, 88] + t;
    assert [ZERO] + ([98] + t) == [ZERO, 98] + t;
  }

  lemma HashedGives(t: seq<byte>, base: nat, prec: nat, width: nat, flags: Flags)
    requires |t| <= SCRATCH && Gives(t, prec, width, flags)
    ensures var h := Hashed(t, base, prec, width, flags); var lead := Lead(base, flags.upper);
      && (base == 16 && |t| >= 2 ==> h == lead + t[2..])
      && (base == 2 && |t| < SCRATCH ==> h == lead + t[1..])
      && (base == 2 && |t| == SCRATCH ==> h[0] == 98)
      && (base == 8 ==> h == lead + t[1..])
  {
    if base == 16 && |t| >= 2 {
      assert t[1..][1..] == t[2..];
      assert [ZERO] + ([120] + t[2..]) == [ZERO, 120] + t[2..];
      assert [ZERO] + ([88] + t[2..]) == [ZERO, 88] + t[2..];
    } else if base == 2 {
      assert [ZERO] + ([98] + t[1..]) == [ZERO, 98] + t[1..];
    }
  }

  lemma HashedNoSpace(t: seq<byte>, base: nat, prec: nat, width: nat, flags: Flags)
    requires |t| <= SCRATCH && SPACE !in t
    ensures SPACE !in Hashed(t, base, prec, width, flags)
  {
  }

  // ----- the exact condition

  ghost predicate Countable(d: seq<byte>, base: nat, prec: nat, flags: Flags) {
    && (base == 2 || base == 8 || base == 16)
    && 1 <= |d| <= SCRATCH
    && (flags.precision ==> !flags.zeropad)
    && (!flags.precision ==> prec == 0)
  }

  /** Zeros and digits after equally long prefixes: the texts are the same if the numbers of zeros are. */
  lemma SameZeros(lead: seq<byte>, m: nat, n: nat, d: seq<byte>)
    ensures lead + (Repeat(ZERO, m) + d) == lead + (Repeat(ZERO, n) + d) <==> m == n
  {
    if m != n {
      assert |lead + (Repeat(ZERO, m) + d)| != |lead + (Repeat(ZERO, n) + d)|;
    }
  }

  /** Nothing is given up. */
  lemma CoreKept(d: seq<byte>, base: nat, prec: nat, width: nat, flags: Flags)
    requires Countable(d, base, prec, flags) && !Gives(Filled(d, prec, width, flags), prec, width, flags)
    ensures Hashed(Filled(d, prec, width, flags), base, prec, width, flags) == IsoCore(d, base, prec, width, flags)
      <==> HashFollows(|d|, base, prec, width, flags)
  {
    hide Hashed, Filled, Lead;
    var t, z, lead := Filled(d, prec, width, flags), OwnZeros(|d|, false, prec, width, flags), Lead(base, flags.upper);
    var n := |IsoCore(d, base, prec, width, flags)| - |lead| - |d|;
    assert |lead| == if base == 8 then 1 else 2 by { LeadLength(base, flags.upper); }
    FilledIs(d, prec, width, flags);
    HashedAtMost(t, base, prec, width, flags);
    HashedKeeps(t, base, prec, width, flags);
    assert IsoCore(d, base, prec, width, flags) == lead + (Repeat(ZERO, n) + d);
    if |t| + |lead| <= SCRATCH {
      SameZeros(lead, z, n, d);
    } else if base == 8 && z > 0 {
      assert t == [ZERO] + (Repeat(ZERO, z - 1) + d);
    }
  }

  lemma LeadLength(base: nat, upper: bool)
    requires base == 2 || base == 8 || base == 16
    ensures |Lead(base, upper)| == if base == 8 then 1 else 2
  {
  }

  /** Leading characters are given up: right if they are zeros that the prefix replaces one for one. */
  lemma CoreGiven(d: seq<byte>, base: nat, prec: nat, width: nat, flags: Flags)
    requires Countable(d, base, prec, flags) && Gives(Filled(d, prec, width, flags), prec, width, flags)
    ensures Hashed(Filled(d, prec, width, flags), base, prec, width, flags) == IsoCore(d, base, prec, width, flags)
      <==> HashFollows(|d|, base, prec, width, flags)
  {
    hide Hashed, Filled, Lead;
    var t, z, lead := Filled(d, prec, width, flags), OwnZeros(|d|, false, prec, width, flags), Lead(base, flags.upper);
    var core := IsoCore(d, base, prec, width, flags);
    var n := |core| - |lead| - |d|;
    assert |lead| == if base == 8 then 1 else 2 by { LeadLength(base, flags.upper); }
    FilledIs(d, prec, width, flags);
    HashedAtMost(t, base, prec, width, flags);
    HashedGives(t, base, prec, width, flags);
    assert core == lead + (Repeat(ZERO, n) + d);
    if z > 0 {
      assert t[1..] == Repeat(ZERO, z - 1) + d;
      SameZeros(lead, z - 1, n, d);
      if z > 1 {
        assert t[2..] == Repeat(ZERO, z - 2) + d;
        SameZeros(lead, z - 2, n, d);
      }
    }
  }

  /** Digits before the '#' step against the standard's text. */
  lemma CoreIff(d: seq<byte>, base: nat, prec: nat, width: nat, flags: Flags)
    requires Countable(d, base, prec, flags)
    ensures Hashed(Filled(d, prec, width, flags), base, prec, width, flags) == IsoCore(d, base, prec, width, flags)
      <==> HashFollows(|d|, base, prec, width, flags)
  {
    if Gives(Filled(d, prec, width, flags), prec, width, flags) {
      CoreGiven(d, base, prec, width, flags);
    } else {
      CoreKept(d, base, prec, width, flags);
    }
  }

  /** With '#' a number other than zero is the standard's exactly under the condition. */
  lemma HashIffFollows(value: nat, base: nat, prec: nat, width: nat, flags: Flags)
    requires HashSite(value, base, prec, flags) && value > 0
    ensures NumberText(value, false, base, prec, width, flags)
        == IsoAlternate(value, base, flags.upper, flags.left, flags.zeropad, if flags.precision then Some(prec) else None, width)
      <==> HashFollows(|Text(value, base, flags.upper)|, base, prec, width, flags)
  {
    hide Text, Padded, Hashed, Filled, NumberText, IsoAlternate, FittingDigits, OwnZeros;
    var d, t := Text(value, base, flags.upper), FittingDigits(value, base, flags);
    var h := Hashed(Filled(t, prec, width, flags), base, prec, width, flags);
    OwnIsPadded(value, base, prec, width, flags);
    IsoIsPadded(value, base, prec, width, flags);
    TextChars(value, base, flags.upper);
    FittingIsSlice(value, base, flags);
    FilledIs(t, prec, width, flags);
    HashedNoSpace(Filled(t, prec, width, flags), base, prec, width, flags);
    PaddedInjective(h, IsoCore(d, base, prec, width, flags), width, flags);
    if |d| <= SCRATCH {
      CoreIff(d, base, prec, width, flags);
    }
  }

  lemma FittingIsSlice(value: nat, base: nat, flags: Flags)
    requires base >= 2 && value > 0
    ensures var d, t := Text(value, base, flags.upper), FittingDigits(value, base, flags);
      t == if |d| <= SCRATCH then d else d[|d| - SCRATCH..]
  {
  }

  // ----- with and without '#'

  /** What the standard prints for a number. */
  function IsoNumber(value: nat, sign: seq<byte>, base: nat, upper: bool, left: bool, zero: bool, hash: bool,
                     precision: Option<nat>, width: nat): seq<byte>
    requires base >= 2
  {
    if hash then IsoAlternate(value, base, upper, left, zero, precision, width)
    else IsoInteger(value, sign, base, upper, left, zero, precision, width)
  }

  function IsoNumberOf(value: nat, negative: bool, base: nat, prec: nat, width: nat, flags: Flags): seq<byte>
    requires base >= 2
  {
    IsoNumber(value, Sign(negative, flags), base, flags.upper, flags.left, flags.zeropad, flags.hash,
              if flags.precision then Some(prec) else None, width)
  }

  ghost predicate NumberSite(value: nat, negative: bool, base: nat, prec: nat, flags: Flags) {
    if flags.hash then !negative && HashSite(value, base, prec, flags) else CallSite(value, negative, base, prec, flags)
  }

  /** The condition for all integers: '#' has no effect on zero, but with precision 0 an octal zero should show. */
  predicate NumberFollows(value: nat, sign: seq<byte>, base: nat, prec: nat, width: nat, flags: Flags)
    requires base >= 2
  {
    if flags.hash && value > 0 then HashFollows(|Text(value, base, flags.upper)|, base, prec, width, flags)
    else
      && Follows(|OwnDigits(value, base, flags)|, sign, prec, width, flags)
      && !(flags.hash && base == 8 && flags.precision && prec == 0)
  }

  lemma NumberIsoIffFollows(value: nat, negative: bool, base: nat, prec: nat, width: nat, flags: Flags)
    requires NumberSite(value, negative, base, prec, flags)
    ensures NumberText(value, negative, base, prec, width, flags) == IsoNumberOf(value, negative, base, prec, width, flags)
      <==> NumberFollows(value, Sign(negative, flags), base, prec, width, flags)
  {
    hide NumberText, IsoAlternate, IsoInteger, Follows, HashFollows, OwnDigits, Text;
    if !flags.hash {
      IsoIffFollows(value, negative, base, prec, width, flags);
    } else if value > 0 {
      HashIffFollows(value, base, prec, width, flags);
    } else {
      OwnHashedZero(base, prec, width, flags);
      IsoHashedZero(base, prec, width, flags);
      if base == 8 && flags.precision && prec == 0 {
        LostZero(false, base, width, flags);
      }
      IsoIffFollows(0, false, base, prec, width, flags.(hash := false));
    }
  }

  /** tinyprintf drops '#' for zero. */
  lemma OwnHashedZero(base: nat, prec: nat, width: nat, flags: Flags)
    requires HashSite(0, base, prec, flags)
    ensures var f := flags.(hash := false);
      && NumberText(0, false, base, prec, width, flags) == NumberText(0, false, base, prec, width, f)
      && OwnDigits(0, base, flags) == OwnDigits(0, base, f)
      && Follows(|OwnDigits(0, base, flags)|, [], prec, width, flags) == Follows(|OwnDigits(0, base, f)|, [], prec, width, f)
  {
    hide Padded, Dressed, Text;
    var f := flags.(hash := false);
    assert f.(hash := false) == f;
  }

  /** So does the standard, but an octal zero needs a digit. */
  lemma IsoHashedZero(base: nat, prec: nat, width: nat, flags: Flags)
    requires HashSite(0, base, prec, flags)
    ensures var f := flags.(hash := false); var iso := IsoNumberOf(0, false, base, prec, width, flags);
      if base == 8 && flags.precision && prec == 0 then ZERO in iso else iso == IsoOf(0, false, base, prec, width, f)
  {
    hide IsoField, Text;
    var digits := IsoDigits(0, base, flags.upper, if flags.precision then Some(prec) else None);
    if base == 8 && flags.precision && prec == 0 {
      FieldShows([], LeadingZero(digits), flags.left, flags.zeropad, width, ZERO);
      assert LeadingZero(digits) == [ZERO];
    } else if base == 8 {
      assert digits == Repeat(ZERO, if flags.precision then prec else 1);
    }
  }

  lemma FieldShows(sign: seq<byte>, digits: seq<byte>, left: bool, zeros: bool, width: nat, c: byte)
    ensures c in sign || c in digits ==> c in IsoField(sign, digits, left, zeros, width)
  {
  }

  /** A zero with precision 0 is printed without any digit. */
  lemma LostZero(negative: bool, base: nat, width: nat, flags: Flags)
    requires base >= 2 && flags.precision && !flags.zeropad
    ensures ZERO !in NumberText(0, negative, base, 0, width, flags)
  {
  }

  // ----- a precision that is taken as 0 where the standard has none

  /** What stands in front of the digits of a number other than zero. */
  function Front(sign: seq<byte>, base: nat, flags: Flags): seq<byte> {
    if flags.hash then Lead(base, flags.upper) else sign
  }

  /** Zero would lose its digit, a '0' flag its zeros; everything else only has to fit the scratch buffer. */
  predicate LostFollows(value: nat, sign: seq<byte>, base: nat, zero: bool, width: nat, flags: Flags)
    requires base >= 2
  {
    var n := |Front(sign, base, flags)| + |Text(value, base, flags.upper)|;
    value != 0 && n <= SCRATCH && (zero && !flags.left ==> width <= n)
  }

  function LostIso(value: nat, negative: bool, base: nat, zero: bool, width: nat, flags: Flags): seq<byte>
    requires base >= 2
  {
    IsoNumber(value, Sign(negative, flags), base, flags.upper, flags.left, zero, flags.hash, None, width)
  }

  lemma PlainDigits(value: nat, base: nat, upper: bool)
    requires 2 <= base <= 36 && value > 0
    ensures var d := Text(value, base, upper);
      && d != [] && d[0] != ZERO && IsoDigits(value, base, upper, None) == d && IsoDigits(value, base, upper, Some(0)) == d
  {
    hide Text;
    var d := Text(value, base, upper);
    FirstDigitNotZero(value, base, upper);
    TextChars(value, base, upper);
    assert Repeat(ZERO, 0) + d == d;
  }

  lemma LostIsField(value: nat, negative: bool, base: nat, zero: bool, width: nat, flags: Flags)
    requires 2 <= base <= 36 && value > 0
    requires flags.hash ==> base == 2 || base == 8 || base == 16
    requires flags.precision
    ensures var front, d := Front(Sign(negative, flags), base, flags), Text(value, base, flags.upper);
      && LostIso(value, negative, base, zero, width, flags) == IsoField(front, d, flags.left, zero, width)
      && (!flags.zeropad ==> IsoNumberOf(value, negative, base, 0, width, flags) == IsoField(front, d, flags.left, false, width))
  {
    hide IsoField, IsoDigits, Text, Sign;
    var d := Text(value, base, flags.upper);
    PlainDigits(value, base, flags.upper);
    if flags.hash && base == 8 {
      OctalField(d, flags.left, zero, width);
      OctalField(d, flags.left, false, width);
    }
  }

  /** Zeros and spaces as filling: the same if there is nothing to fill. */
  lemma FillMatters(front: seq<byte>, d: seq<byte>, left: bool, width: nat)
    requires d != [] && |front| <= 2 && (front == [SPACE] || SPACE !in front)
    ensures IsoField(front, d, left, true, width) == IsoField(front, d, left, false, width)
      <==> left || width <= |front| + |d|
  {
    var a, b := IsoField(front, d, left, true, width), IsoField(front, d, left, false, width);
    if !left {
      var fill := Max(0, width - |front| - |d|);
      if fill == 0 {
        assert Repeat(SPACE, 0) + front + d == front + Repeat(ZERO, 0) + d;
      } else if front == [SPACE] {
        assert a[1] == ZERO && b[1] == SPACE;
      } else {
        assert b[0] == SPACE && (front != [] ==> a[0] == front[0]) && (front == [] ==> a[0] == ZERO);
      }
    }
  }

  lemma LostIsoZero(negative: bool, base: nat, zero: bool, width: nat, flags: Flags)
    requires base >= 2
    ensures ZERO in LostIso(0, negative, base, zero, width, flags)
  {
    hide IsoField, Sign;
    var digits := IsoDigits(0, base, flags.upper, None);
    assert digits == [ZERO] && LeadingZero(digits) == digits;
    FieldShows(Sign(negative, flags), digits, flags.left, zero, width, ZERO);
    FieldShows([], digits, flags.left, zero, width, ZERO);
  }

  lemma LostNumberFollows(value: nat, negative: bool, base: nat, width: nat, flags: Flags)
    requires NumberSite(value, negative, base, 0, flags) && flags.precision && value > 0
    ensures var front, d := Front(Sign(negative, flags), base, flags), Text(value, base, flags.upper);
      && (NumberFollows(value, Sign(negative, flags), base, 0, width, flags) <==> |front| + |d| <= SCRATCH)
      && |front| <= 2 && (front == [SPACE] || SPACE !in front)
      && (front == [SPACE] ==> |d| <= 20)
  {
    hide Text;
    SignIsNotZero(negative, flags);
    if !flags.hash { SignedDecimalFits(value, base, flags); }
    assert OwnDigits(value, base, flags) == Text(value, base, flags.upper);
  }

  /** What is too long for the scratch buffer is padded with spaces, never with zeros. */
  lemma LongLost(value: nat, negative: bool, base: nat, width: nat, flags: Flags)
    requires base >= 2 && value > 0 && flags.precision && !flags.zeropad && !flags.left
    requires width > SCRATCH
    ensures NumberText(value, negative, base, 0, width, flags)[..1] == [SPACE]
  {
    hide Dressed, FittingDigits;
  }

  lemma LostPrecisionIff(value: nat, negative: bool, base: nat, zero: bool, width: nat, flags: Flags)
    requires NumberSite(value, negative, base, 0, flags) && flags.precision
    ensures NumberText(value, negative, base, 0, width, flags) == LostIso(value, negative, base, zero, width, flags)
      <==> LostFollows(value, Sign(negative, flags), base, zero, width, flags)
  {
    hide NumberText, LostIso, IsoNumberOf, Text, IsoField, NumberFollows, Sign, Front;
    if value == 0 {
      LostZero(negative, base, width, flags);
      LostIsoZero(negative, base, zero, width, flags);
    } else {
      var front, d := Front(Sign(negative, flags), base, flags), Text(value, base, flags.upper);
      LostIsField(value, negative, base, zero, width, flags);
      NumberIsoIffFollows(value, negative, base, 0, width, flags);
      LostNumberFollows(value, negative, base, width, flags);
      TextChars(value, base, flags.upper);
      FillMatters(front, d, flags.left, width);
      if zero && !flags.left && SCRATCH < |front| + |d| < width {
        LongLost(value, negative, base, width, flags);
        ZerosFirst(front, d, width);
      }
    }
  }

  lemma ZerosFirst(front: seq<byte>, d: seq<byte>, width: nat)
    requires SPACE !in front && d != [] && width > |front| + |d|
    ensures |IsoField(front, d, false, true, width)| > 0 && IsoField(front, d, false, true, width)[0] != SPACE
  {
  }
}
