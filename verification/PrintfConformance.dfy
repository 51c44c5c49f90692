/** Written integer directives against ISO C11, section 7.21.6.1. */
module PrintfConformance {
  import opened Machine
  import opened Numeral
  import opened PrintfText
  import opened PrintfIso
  import opened PrintfHash
  import opened PrintfGrammar

  // ----- the standard's reading of a directive and its argument

  /** The base of a specifier; 'b' is an extension. */
  function IsoBase(spec: byte): (base: nat)
    ensures base == 2 || base == 8 || base == 10 || base == 16
  {
    if spec == 'd' as int || spec == 'i' as int || spec == 'u' as int then 10
    else if spec == 'o' as int then 8
    else if spec == 'b' as int then 2
    else 16
  }

  predicate IsoSigned(spec: byte) {
    spec == 'd' as int || spec == 'i' as int
  }

  /** The number in two's complement: the only one in its range with this residue. */
  function SignedValue(u: nat, modulus: nat): (v: int)
    requires modulus > 0
    ensures -(modulus as int) <= 2 * v < modulus
    ensures v == u - modulus * (u / modulus) || v == u - modulus * (u / modulus) - modulus
  {
    var s := u % modulus;
    if 2 * s < modulus then s else s - modulus
  }

  /** The int argument of a '*'. */
  function IsoStar(args: seq<Arg>): Option<int> {
    if args == [] || !args[0].WordArg? then None else Some(SignedValue(args[0].w, 0x1_0000_0000))
  }

  /** The field width, and whether the field is justified to the left: by '-' or by a negative '*' argument. */
  function IsoWidth(d: Piece, args: seq<Arg>): Option<(nat, bool)>
    requires d.Directive?
  {
    var minus := '-' as int in d.flags;
    match d.width
    case NoWidth => Some((0, minus))
    case WidthNumber(n) => Some((n, minus))
    case WidthStar =>
      var a := IsoStar(args);
      if a.None? then None else Some((if a.value < 0 then -a.value else a.value, minus || a.value < 0))
  }

  /** The precision, if any: a point alone means 0, and a negative '*' argument means that there is none. */
  function IsoPrecision(p: Precision, args: seq<Arg>): Option<Option<nat>> {
    match p
    case NoPrecision => Some(None)
    case BarePoint => Some(Some(0))
    case PrecisionNumber(n) => Some(Some(n))
    case PrecisionStar =>
      var a := IsoStar(args);
      if a.None? then None else if a.value < 0 then Some(None) else Some(Some(a.value))
  }

  /** A number below the modulus of its type, or the signed one with the same representation. */
  function IsoValue(u: nat, modulus: nat, signed: bool): Integer
    requires 0 < modulus <= DWORD_LIMIT
  {
    if signed then
      var v := SignedValue(u, modulus);
      if v < 0 then Integer(-v, true) else Integer(v, false)
    else Integer(u % modulus, false)
  }

  /** The argument, converted to the type that the length modifier names: char, short, long long, or 32 bits. */
  function IsoArgument(l: PrintfGrammar.Length, spec: byte, arg: Arg): Option<Integer> {
    if l.LengthLL? || l.LengthJ? then
      if arg.DwordArg? then Some(IsoValue(arg.d, 0x1_0000_0000_0000_0000, IsoSigned(spec))) else None
    else if !arg.WordArg? then None
    else
      var modulus := if l.LengthHH? then 0x100 else if l.LengthH? then 0x1_0000 else 0x1_0000_0000;
      Some(IsoValue(arg.w, modulus, IsoSigned(spec)))
  }

  /** The sign of the standard: '+' and ' ' matter for signed conversions only. */
  function IsoSign(d: Piece, negative: bool): seq<byte>
    requires d.Directive?
  {
    if negative then [MINUS]
    else if !IsoSigned(d.spec) then []
    else if '+' as int in d.flags then [PLUS]
    else if ' ' as int in d.flags then [SPACE]
    else []
  }

  /** '#' matters for the bases other than 10. */
  predicate IsoHash(d: Piece)
    requires d.Directive?
  {
    '#' as int in d.flags && IsoBase(d.spec) != 10
  }

  function StarsBefore(d: Piece): nat
    requires d.Directive?
  {
    if d.width.WidthStar? then 1 else 0
  }

  function Stars(d: Piece): nat
    requires d.Directive?
  {
    StarsBefore(d) + if d.precision.PrecisionStar? then 1 else 0
  }

  /** All that the standard's text depends on. */
  datatype Reading = Reading(width: nat, left: bool, precision: Option<nat>, n: Integer)

  /** None if arguments are missing or have the wrong size. */
  function IsoReading(d: Piece, args: seq<Arg>, arg: Arg): Option<Reading>
    requires d.Directive?
  {
    var w, n := IsoWidth(d, args), IsoArgument(d.length, d.spec, arg);
    if w.None? || n.None? then None
    else
      assert d.width.WidthStar? ==> args != [];
      var p := IsoPrecision(d.precision, args[StarsBefore(d)..]);
      if p.None? then None else Some(Reading(w.value.0, w.value.1, p.value, n.value))
  }

  /** What the standard prints for the directive. */
  function IsoText(d: Piece, r: Reading): seq<byte>
    requires d.Directive?
  {
    IsoNumber(r.n.magnitude, IsoSign(d, r.n.negative), IsoBase(d.spec), d.spec == 'X' as int, r.left,
              '0' as int in d.flags, IsoHash(d), r.precision, r.width)
  }

  // ----- the condition

  /** The flags that take effect: '0' not with a precision, signs in signed conversions, '#' not in base 10. */
  function Effective(d: Piece, left: bool): Flags
    requires d.Directive?
  {
    WithLength(Flags('0' as int in d.flags && d.precision.NoPrecision?, left,
                     '+' as int in d.flags && IsoSigned(d.spec), ' ' as int in d.flags && IsoSigned(d.spec),
                     IsoHash(d), d.spec == 'X' as int, false, false, false, false, !d.precision.NoPrecision?),
               d.length)
  }

  /**
    When tinyprintf does what the standard says: a signed char is not negative; where a negative '*' takes the
    precision away, there is a digit to print and no zeros to fill in; and otherwise number, precision and width
    satisfy the condition on layouts.
   */
  predicate Conforms(d: Piece, arg: Arg, r: Reading)
    requires d.Directive?
  {
    var flags, sign, base := Effective(d, r.left), IsoSign(d, r.n.negative), IsoBase(d.spec);
    && (d.length.LengthHH? && IsoSigned(d.spec) && arg.WordArg? ==> arg.w % 256 < 128)
    && if d.precision.PrecisionStar? && r.precision.None? then
         LostFollows(r.n.magnitude, sign, base, '0' as int in d.flags, r.width, flags)
       else
         NumberFollows(r.n.magnitude, sign, base, if r.precision.Some? then r.precision.value else 0, r.width, flags)
  }

  // ----- what tinyprintf makes of the same directive

  /** Its bases and signed conversions are the standard's. */
  lemma SameTables(spec: byte)
    requires IsIntegerSpec(spec)
    ensures BaseOf(spec) == IsoBase(spec) && (IsSignedSpec(spec) <==> IsoSigned(spec))
  {
  }

  lemma SameStars(args: seq<Arg>)
    ensures IntArg(args).Some? == IsoStar(args).Some?
    ensures IntArg(args).Some? ==> IntArg(args).value == IsoStar(args).value
  {
  }

  lemma FlagsAre(d: Piece, args: seq<Arg>)
    requires d.Directive? && ConversionOf(d, args).Some?
    ensures WidthOf(d.width, args).Some?
    ensures ConversionOf(d, args).value.0.flags ==
      WithLength(Marked(WithFlags(NO_FLAGS, d.flags), WidthOf(d.width, args).value.1, !d.precision.NoPrecision?), d.length)
  {
    hide WithLength, WithFlags, WidthOf, PrecisionOf;
  }

  function Marked(f: Flags, left: bool, point: bool): Flags {
    var g := if left then f.(left := true) else f;
    if !point then g else g.(precision := true)
  }

  lemma MarkedIs(chars: seq<byte>, left: bool, point: bool)
    ensures Marked(WithFlags(NO_FLAGS, chars), left, point) ==
      Flags('0' as int in chars, '-' as int in chars || left, '+' as int in chars, ' ' as int in chars,
            '#' as int in chars, false, false, false, false, false, point)
  {
  }

  /** Integer conversions change no flag that a length modifier sets, and none of the other way round. */
  lemma IntegerFlagsAre(f: Flags, l: PrintfGrammar.Length, spec: byte)
    ensures IntegerFlags(WithLength(f, l), spec) ==
      WithLength(Flags(f.zeropad && !f.precision, f.left, f.plus && IsSignedSpec(spec), f.space && IsSignedSpec(spec),
                       f.hash && BaseOf(spec) != 10, f.upper || spec == 'X' as int,
                       f.char_, f.short_, f.long_, f.longlong, f.precision), l)
  {
    hide IsSignedSpec, BaseOf, WithLength, IntegerFlags;
    var g := Flags(f.zeropad && !f.precision, f.left, f.plus && IsSignedSpec(spec), f.space && IsSignedSpec(spec),
                   f.hash && BaseOf(spec) != 10, f.upper || spec == 'X' as int,
                   f.char_, f.short_, f.long_, f.longlong, f.precision);
    assert IntegerFlags(f, spec) == g by { IntegerFlagsOf(f, spec); }
    LengthLast(f, l, spec);
  }

  lemma IntegerFlagsOf(f: Flags, spec: byte)
    ensures IntegerFlags(f, spec) ==
      Flags(f.zeropad && !f.precision, f.left, f.plus && IsSignedSpec(spec), f.space && IsSignedSpec(spec),
            f.hash && BaseOf(spec) != 10, f.upper || spec == 'X' as int, f.char_, f.short_, f.long_, f.longlong, f.precision)
  {
    hide IsSignedSpec, BaseOf;
  }

  /** It does not matter whether the modifier is read before or after. */
  lemma LengthLast(f: Flags, l: PrintfGrammar.Length, spec: byte)
    ensures IntegerFlags(WithLength(f, l), spec) == WithLength(IntegerFlags(f, spec), l)
  {
    hide IsSignedSpec, BaseOf;
    match l
    case NoLength =>
    case LengthL =>
    case LengthLL =>
    case LengthH =>
    case LengthHH =>
    case LengthT =>
    case LengthJ =>
    case LengthZ =>
  }

  lemma EffectiveFlags(d: Piece, args: seq<Arg>, arg: Arg)
    requires d.Directive? && IsIntegerSpec(d.spec) && ConversionOf(d, args).Some? && IsoReading(d, args, arg).Some?
    ensures IntegerFlags(ConversionOf(d, args).value.0.flags, d.spec) == Effective(d, IsoReading(d, args, arg).value.left)
  {
    hide WithLength, WithFlags, WidthOf, PrecisionOf, Marked, ConversionOf, IntegerFlags, IsoArgument, IsoPrecision;
    FlagsAre(d, args);
    var left, point := WidthOf(d.width, args).value.1, !d.precision.NoPrecision?;
    MarkedIs(d.flags, left, point);
    IntegerFlagsAre(Marked(WithFlags(NO_FLAGS, d.flags), left, point), d.length, d.spec);
    SameTables(d.spec);
    WidthAgrees(d, args);
  }

  lemma WidthAgrees(d: Piece, args: seq<Arg>)
    requires d.Directive?
    ensures var w, i := WidthOf(d.width, args), IsoWidth(d, args);
      && w.Some? == i.Some?
      && (w.Some? ==> i.value == (w.value.0, '-' as int in d.flags || w.value.1))
  {
    hide IsoStar, IntArg;
    SameStars(args);
  }

  lemma PrecisionAgrees(p: Precision, args: seq<Arg>)
    ensures var own, iso := PrecisionOf(p, args), IsoPrecision(p, args);
      && own.Some? == iso.Some?
      && (own.Some? ==> own.value == if iso.value.Some? then iso.value.value else 0)
      && (own.Some? ==> (iso.value.None? <==> p.NoPrecision? || (p.PrecisionStar? && IsoStar(args).value < 0)))
  {
    hide IsoStar, IntArg;
    SameStars(args);
  }

  /** Widths and precisions are the same as long as there is a precision or none is written. */
  lemma ConversionAgrees(d: Piece, args: seq<Arg>, arg: Arg)
    requires d.Directive? && IsoReading(d, args, arg).Some?
    ensures var r, c := IsoReading(d, args, arg).value, ConversionOf(d, args);
      && c.Some? && c.value.1 == Stars(d) <= |args|
      && c.value.0.spec == d.spec && c.value.0.width == r.width
      && c.value.0.precision == (if r.precision.Some? then r.precision.value else 0)
      && (r.precision.None? ==> d.precision.NoPrecision? || d.precision.PrecisionStar?)
      && (r.precision.Some? ==> !d.precision.NoPrecision?)
  {
    hide WithLength, WithFlags, IsoArgument, WidthOf, IsoWidth, PrecisionOf, IsoPrecision, IntArg;
    WidthAgrees(d, args);
    WidthStarTakes(d, args);
    PrecisionAgrees(d.precision, args[StarsBefore(d)..]);
    PrecisionStarTakes(d.precision, args[StarsBefore(d)..]);
  }

  lemma WidthStarTakes(d: Piece, args: seq<Arg>)
    requires d.Directive? && IsoWidth(d, args).Some?
    ensures StarsBefore(d) <= |args|
  {
  }

  lemma PrecisionStarTakes(p: Precision, args: seq<Arg>)
    requires IsoPrecision(p, args).Some?
    ensures p.PrecisionStar? ==> args != []
    ensures IsoPrecision(p, args).value.Some? ==> !p.NoPrecision?
  {
  }

  /** The sizes agree, and so do their signed values. */
  lemma SameValues(w: word, d: dword)
    ensures ToShort(w) == SignedValue(w, 0x1_0000) && ToLong(w) == SignedValue(w, 0x1_0000_0000)
    ensures ToLongLong(d) == SignedValue(d, 0x1_0000_0000_0000_0000)
    ensures w % 256 < 128 ==> SignedValue(w, 0x100) == w % 256
    ensures w % 256 >= 128 ==> SignedValue(w, 0x100) < 0
    ensures w % 0x1_0000_0000 == w && d % 0x1_0000_0000_0000_0000 == d
  {
  }

  /** Arguments are the same except for the sign of a char. */
  lemma ArgumentAgrees(f: Flags, l: PrintfGrammar.Length, spec: byte, arg: Arg)
    requires !f.char_ && !f.short_ && !f.long_ && !f.longlong
    ensures var own, iso := IntegerArg(WithLength(f, l), spec, arg), IsoArgument(l, spec, arg);
      && own.Some? == iso.Some?
      && (own.Some? && !(l.LengthHH? && IsSignedSpec(spec) && arg.w % 256 >= 128) ==> own == iso)
      && (own.Some? && l.LengthHH? && IsSignedSpec(spec) && arg.w % 256 >= 128 ==> !own.value.negative && iso.value.negative)
      && (own.Some? && !IsSignedSpec(spec) ==> !iso.value.negative)
      && (own.Some? && l.LengthHH? ==> arg.WordArg?)
  {
    hide SignedValue, ToShort, ToLong, ToLongLong;
    SameValues(if arg.WordArg? then arg.w else 0, if arg.DwordArg? then arg.d else 0);
    match l
    case NoLength =>
    case LengthL =>
    case LengthLL =>
    case LengthH =>
    case LengthHH =>
    case LengthT =>
    case LengthJ =>
    case LengthZ =>
  }

  lemma ArgumentOf(d: Piece, args: seq<Arg>, arg: Arg)
    requires d.Directive? && ConversionOf(d, args).Some?
    ensures var own, iso := IntegerArg(ConversionOf(d, args).value.0.flags, d.spec, arg), IsoArgument(d.length, d.spec, arg);
      && own.Some? == iso.Some?
      && (own.Some? && !(d.length.LengthHH? && IsSignedSpec(d.spec) && arg.w % 256 >= 128) ==> own == iso)
      && (own.Some? && d.length.LengthHH? && IsSignedSpec(d.spec) && arg.w % 256 >= 128 ==>
            !own.value.negative && iso.value.negative)
      && (own.Some? && !IsSignedSpec(d.spec) ==> !iso.value.negative)
      && (own.Some? && d.length.LengthHH? ==> arg.WordArg?)
  {
    hide WithLength, WithFlags, WidthOf, Marked, ConversionOf, IntegerArg, IsoArgument, IsSignedSpec;
    FlagsAre(d, args);
    var left, point := WidthOf(d.width, args).value.1, !d.precision.NoPrecision?;
    MarkedIs(d.flags, left, point);
    ArgumentAgrees(Marked(WithFlags(NO_FLAGS, d.flags), left, point), d.length, d.spec, arg);
  }

  // ----- the theorem

  /** With a precision the '0' flag has no effect. */
  lemma ZeroIrrelevant(value: nat, sign: seq<byte>, base: nat, upper: bool, left: bool, zero: bool, zero': bool,
                       hash: bool, precision: Option<nat>, width: nat)
    requires base >= 2 && (zero == zero' || precision.Some?)
    ensures IsoNumber(value, sign, base, upper, left, zero, hash, precision, width)
         == IsoNumber(value, sign, base, upper, left, zero', hash, precision, width)
  {
    hide IsoDigits, IsoField;
  }

  /** A sign that the standard shows and tinyprintf cannot. */
  lemma MinusLost(value: nat, base: nat, prec: nat, width: nat, flags: Flags)
    requires 2 <= base <= 36 && !flags.hash
    ensures MINUS !in NumberText(value, false, base, prec, width, flags)
  {
    hide Text, Dressed, FittingDigits;
    var f := flags.(hash := false);
    FittingShows(value, base, flags);
    FittingShows(value, base, f);
    NoMinusDressed(FittingDigits(value, base, flags), base, prec, width, flags);
    NoMinusDressed(FittingDigits(value, base, f), base, prec, width, f);
  }

  lemma FittingShows(value: nat, base: nat, flags: Flags)
    requires 2 <= base <= 36
    ensures MINUS !in FittingDigits(value, base, flags)
  {
    hide Text;
    TextChars(value, base, flags.upper);
  }

  lemma NoMinusDressed(t: seq<byte>, base: nat, prec: nat, width: nat, flags: Flags)
    requires |t| <= SCRATCH && MINUS !in t && !flags.hash
    ensures MINUS !in Dressed(t, false, base, prec, width, flags)
  {
    hide ZeroFilled;
    NoMinusFilled(t, prec);
    NoMinusFilled(t, FillWidth(false, width, flags));
    NoMinusFilled(ZeroFilled(t, prec), FillWidth(false, width, flags));
  }

  lemma NoMinusFilled(t: seq<byte>, n: nat)
    requires |t| <= SCRATCH && MINUS !in t
    ensures MINUS !in ZeroFilled(t, n)
  {
  }

  /** For a signed char whose sign is lost. */
  lemma NegativeCharDiffers(d: Piece, c: Conversion, arg: Arg, r: Reading)
    requires d.Directive? && IsoSigned(d.spec) && c.spec == d.spec && r.n.negative
    requires IntegerArg(c.flags, d.spec, arg).Some? && !IntegerArg(c.flags, d.spec, arg).value.negative
    ensures ConversionText(c, Some(arg)) != Some(IsoText(d, r))
  {
    hide NumberText, IsoField, IsoDigits, IntegerArg;
    var n := IntegerArg(c.flags, d.spec, arg).value;
    MinusLost(n.magnitude, 10, c.precision, c.width, IntegerFlags(c.flags, d.spec));
    var digits := IsoDigits(r.n.magnitude, 10, false, r.precision);
    FieldShows([MINUS], digits, r.left, '0' as int in d.flags && r.precision.None?, r.width, MINUS);
  }

  /** An integer directive whose argument is read as the standard reads it. */
  lemma SameArgumentIff(d: Piece, args: seq<Arg>, arg: Arg)
    requires d.Directive? && IsIntegerSpec(d.spec) && IsoReading(d, args, arg).Some?
    requires ConversionOf(d, args).Some?
    requires IntegerArg(ConversionOf(d, args).value.0.flags, d.spec, arg) == Some(IsoReading(d, args, arg).value.n)
    requires !IsoSigned(d.spec) ==> !IsoReading(d, args, arg).value.n.negative
    requires d.length.LengthHH? && IsoSigned(d.spec) && arg.WordArg? ==> arg.w % 256 < 128
    ensures ConversionText(ConversionOf(d, args).value.0, Some(arg)) == Some(IsoText(d, IsoReading(d, args, arg).value))
      <==> Conforms(d, arg, IsoReading(d, args, arg).value)
  {
    hide ConversionOf, IntegerFlags, IntegerArg, IsoReading, IsoNumber, NumberText, NumberFollows, LostFollows;
    hide Effective, WithLength;
    var c, r := ConversionOf(d, args).value.0, IsoReading(d, args, arg).value;
    var flags, base := Effective(d, r.left), IsoBase(d.spec);
    SameTables(d.spec);
    EffectiveFlags(d, args, arg);
    ConversionAgrees(d, args, arg);
    EffectiveSite(d, r);
    if d.precision.PrecisionStar? && r.precision.None? {
      LostPrecisionIff(r.n.magnitude, r.n.negative, base, '0' as int in d.flags, c.width, flags);
    } else {
      NumberIsoIffFollows(r.n.magnitude, r.n.negative, base, c.precision, c.width, flags);
      ZeroIrrelevant(r.n.magnitude, IsoSign(d, r.n.negative), base, d.spec == 'X' as int, r.left, flags.zeropad,
                     '0' as int in d.flags, IsoHash(d), r.precision, r.width);
    }
  }

  /** Length modifiers set other flags than those that matter to the layout. */
  lemma LengthKeeps(f: Flags, l: PrintfGrammar.Length)
    ensures var g := WithLength(f, l);
      && g.zeropad == f.zeropad && g.left == f.left && g.plus == f.plus && g.space == f.space && g.hash == f.hash
      && g.upper == f.upper && g.precision == f.precision
  {
    match l
    case NoLength =>
    case LengthL =>
    case LengthLL =>
    case LengthH =>
    case LengthHH =>
    case LengthT =>
    case LengthJ =>
    case LengthZ =>
  }

  /** The call sites of the theorems on layouts. */
  lemma EffectiveSite(d: Piece, r: Reading)
    requires d.Directive? && IsIntegerSpec(d.spec) && (!IsoSigned(d.spec) ==> !r.n.negative)
    requires d.precision.NoPrecision? ==> r.precision.None?
    ensures var flags, prec := Effective(d, r.left), if r.precision.Some? then r.precision.value else 0;
      && flags.left == r.left && flags.precision == !d.precision.NoPrecision?
      && flags.zeropad == ('0' as int in d.flags && d.precision.NoPrecision?)
      && flags.hash == IsoHash(d) && flags.upper == (d.spec == 'X' as int)
      && Sign(r.n.negative, flags) == IsoSign(d, r.n.negative)
      && NumberSite(r.n.magnitude, r.n.negative, IsoBase(d.spec), prec, flags)
  {
    hide WithLength;
    LengthKeeps(Flags('0' as int in d.flags && d.precision.NoPrecision?, r.left,
                      '+' as int in d.flags && IsoSigned(d.spec), ' ' as int in d.flags && IsoSigned(d.spec),
                      IsoHash(d), d.spec == 'X' as int, false, false, false, false, !d.precision.NoPrecision?), d.length);
  }

  /** tinyprintf finds its arguments exactly where the standard does. */
  lemma SameArgumentsRead(d: Piece, args: seq<Arg>, arg: Arg)
    requires d.Directive?
    ensures IsoReading(d, args, arg).Some? <==> ConversionOf(d, args).Some? && IsoArgument(d.length, d.spec, arg).Some?
    ensures IsoReading(d, args, arg).Some? ==> IsoReading(d, args, arg).value.n == IsoArgument(d.length, d.spec, arg).value
  {
    hide WithLength, WithFlags, IsoArgument, WidthOf, IsoWidth, PrecisionOf, IsoPrecision;
    WidthAgrees(d, args);
    if IsoWidth(d, args).Some? {
      WidthStarTakes(d, args);
      PrecisionAgrees(d.precision, args[StarsBefore(d)..]);
    }
  }

  lemma IntegerText(c: Conversion, arg: Arg)
    requires IsIntegerSpec(c.spec)
    ensures ConversionText(c, Some(arg)).Some? <==> IntegerArg(c.flags, c.spec, arg).Some?
  {
    hide IntegerArg, NumberText, IntegerFlags;
  }

  /**
    The standard and tinyprintf read the same arguments, and an integer directive prints what the standard
    prints exactly under the condition.
   */
  lemma DirectiveIsoIffConforms(d: Piece, args: seq<Arg>, arg: Arg)
    requires d.Directive? && WellFormed(d) && IsIntegerSpec(d.spec)
    ensures var r, c := IsoReading(d, args, arg), ConversionOf(d, args);
      && (r.Some? <==> c.Some? && ConversionText(c.value.0, Some(arg)).Some?)
      && (r.Some? ==>
            (ConversionText(c.value.0, Some(arg)) == Some(IsoText(d, r.value)) <==> Conforms(d, arg, r.value)))
  {
    hide ConversionOf, IntegerArg, IsoArgument, IsoReading, ConversionText, IsoText, Conforms;
    var r, c := IsoReading(d, args, arg), ConversionOf(d, args);
    SameArgumentsRead(d, args, arg);
    if c.Some? {
      ArgumentOf(d, args, arg);
      SpecKept(d, args);
      IntegerText(c.value.0, arg);
      if r.Some? {
        SameTables(d.spec);
        if d.length.LengthHH? && IsoSigned(d.spec) && arg.w % 256 >= 128 {
          NegativeCharDiffers(d, c.value.0, arg, r.value);
          NegativeCharFails(d, arg, r.value);
        } else {
          SameArgumentIff(d, args, arg);
        }
      }
    }
  }

  lemma SpecKept(d: Piece, args: seq<Arg>)
    requires d.Directive? && ConversionOf(d, args).Some?
    ensures ConversionOf(d, args).value.0.spec == d.spec
  {
  }

  lemma NegativeCharFails(d: Piece, arg: Arg, r: Reading)
    requires d.Directive? && d.length.LengthHH? && IsoSigned(d.spec) && arg.WordArg? && arg.w % 256 >= 128
    ensures !Conforms(d, arg, r)
  {
  }

  // ----- strings

  /** What the standard prints for a string: at most precision characters, all of them without a precision. */
  function IsoString(s: seq<byte>, width: nat, left: bool, precision: Option<nat>): seq<byte> {
    IsoField([], if precision.Some? then s[..Min(|s|, precision.value)] else s, left, false, width)
  }

  /** tinyprintf justifies strings and characters like the standard. */
  lemma JustifiedIsField(t: seq<byte>, width: nat, left: bool)
    ensures Justified(t, width, left) == IsoField([], t, left, false, width)
  {
    var spaces := Repeat(SPACE, Max(0, width - |t|));
    assert [] + t == t && spaces + [] + t == spaces + t;
  }

  /** Which is: the string at the beginning or at the end of the field, and spaces everywhere else. */
  lemma FieldShowsText(t: seq<byte>, width: nat, left: bool)
    ensures var r := IsoField([], t, left, false, width);
      && |r| == Max(width, |t|)
      && (if left then r[..|t|] == t && forall i :: |t| <= i < |r| ==> r[i] == 32
          else r[|r| - |t|..] == t && forall i :: 0 <= i < |r| - |t| ==> r[i] == 32)
  {
  }

  lemma StringConversion(d: Piece, args: seq<Arg>, s: seq<byte>)
    requires d.Directive? && d.spec == 's' as int && NUL !in s && ConversionOf(d, args).Some?
    ensures var c := ConversionOf(d, args).value.0;
      && c.flags.precision == !d.precision.NoPrecision?
      && c.flags.left == IsoWidth(d, args).value.1
      && ConversionText(c, Some(TextArg(s))) ==
           Some(Justified(if c.flags.precision then s[..Min(|s|, c.precision)] else s, c.width, c.flags.left))
  {
    hide WithLength, WithFlags, PrecisionOf, Marked, Justified, WidthOf, IsoWidth;
    FlagsAre(d, args);
    var left, point := WidthOf(d.width, args).value.1, !d.precision.NoPrecision?;
    WidthAgrees(d, args);
    MarkedIs(d.flags, left, point);
    LengthKeeps(Marked(WithFlags(NO_FLAGS, d.flags), left, point), d.length);
  }

  /** A string directive prints what the standard prints unless a negative '*' makes it lose more than spaces. */
  lemma StringIsoIff(d: Piece, args: seq<Arg>, s: seq<byte>)
    requires d.Directive? && d.spec == 's' as int && NUL !in s && ConversionOf(d, args).Some?
    ensures var w, k := IsoWidth(d, args), StarsBefore(d);
      && w.Some? && k <= |args| && var p := IsoPrecision(d.precision, args[k..]);
      && p.Some?
      && (ConversionText(ConversionOf(d, args).value.0, Some(TextArg(s))) == Some(IsoString(s, w.value.0, w.value.1, p.value))
          <==> !d.precision.PrecisionStar? || p.value.Some? || (|s| <= w.value.0 && s == Repeat(SPACE, |s|)))
  {
    hide WithLength, WithFlags, ConversionText, Justified, IsoWidth;
    WidthAgrees(d, args);
    WidthStarTakes(d, args);
    StringConversion(d, args, s);
    var w, p := IsoWidth(d, args).value, IsoPrecision(d.precision, args[StarsBefore(d)..]);
    PrecisionAgrees(d.precision, args[StarsBefore(d)..]);
    JustifiedIsField(if p.value.Some? then s[..Min(|s|, p.value.value)] else s, w.0, w.1);
    if d.precision.PrecisionStar? && p.value.None? {
      assert s[..Min(|s|, 0)] == [];
      OnlySpaces(s, w.0, w.1);
    }
  }

  /** A string looks like an empty one exactly if it is made of spaces that fit the field. */
  lemma OnlySpaces(s: seq<byte>, width: nat, left: bool)
    ensures Justified([], width, left) == Justified(s, width, left) <==> |s| <= width && s == Repeat(SPACE, |s|)
  {
    var a, b := Justified([], width, left), Justified(s, width, left);
    assert a == Repeat(SPACE, width);
    if a == b {
      if left {
        assert s == a[..|s|];
      } else {
        assert s == a[width - |s|..];
      }
    }
  }

  // ----- characters

  /** A character directive prints the low byte of its argument in its field, whatever precision is written. */
  lemma CharIsField(d: Piece, args: seq<Arg>, w: word)
    requires d.Directive? && d.spec == 'c' as int && ConversionOf(d, args).Some?
    ensures IsoWidth(d, args).Some?
    ensures ConversionText(ConversionOf(d, args).value.0, Some(WordArg(w))) ==
      Some(IsoField([], [w % 256], IsoWidth(d, args).value.1, false, IsoWidth(d, args).value.0))
  {
    hide WithLength, WithFlags, PrecisionOf, Marked, Justified, WidthOf, IsoWidth;
    FlagsAre(d, args);
    var left, point := WidthOf(d.width, args).value.1, !d.precision.NoPrecision?;
    WidthAgrees(d, args);
    MarkedIs(d.flags, left, point);
    LengthKeeps(Marked(WithFlags(NO_FLAGS, d.flags), left, point), d.length);
    JustifiedIsField([w % 256], WidthOf(d.width, args).value.0, IsoWidth(d, args).value.1);
  }

  // ----- whole formats

  /** Formats of characters and integer directives. */
  predicate IntegerPieces(pieces: seq<Piece>) {
    forall i :: 0 <= i < |pieces| ==> WellFormed(pieces[i]) && (pieces[i].Directive? ==> IsIntegerSpec(pieces[i].spec))
  }

  /** What the standard prints for such a format. */
  function IsoMeaning(pieces: seq<Piece>, args: seq<Arg>): Option<seq<byte>> {
    if pieces == [] then Some([])
    else if pieces[0].Literal? then Before([pieces[0].c], IsoMeaning(pieces[1..], args))
    else
      var k := Stars(pieces[0]);
      if k >= |args| then None
      else
        var r := IsoReading(pieces[0], args, args[k]);
        if r.None? then None else Before(IsoText(pieces[0], r.value), IsoMeaning(pieces[1..], args[k + 1..]))
  }

  /** Each directive has its arguments and satisfies the condition. */
  predicate AllConform(pieces: seq<Piece>, args: seq<Arg>) {
    pieces == [] ||
    if pieces[0].Literal? then AllConform(pieces[1..], args)
    else
      var k := Stars(pieces[0]);
      && k < |args|
      && var r := IsoReading(pieces[0], args, args[k]);
         r.Some? && Conforms(pieces[0], args[k], r.value) && AllConform(pieces[1..], args[k + 1..])
  }

  lemma DirectiveFirst(pieces: seq<Piece>, args: seq<Arg>)
    requires pieces != [] && pieces[0].Directive? && WellFormed(pieces[0]) && IsIntegerSpec(pieces[0].spec)
    requires var k := Stars(pieces[0]); k < |args| && IsoReading(pieces[0], args, args[k]).Some?
    ensures var k, c := Stars(pieces[0]), ConversionOf(pieces[0], args);
      && c.Some?
      && Meaning(pieces, args) ==
        var t := ConversionText(c.value.0, Some(args[k]));
        if t.None? then None else Before(t.value, Meaning(pieces[1..], args[k + 1..]))
  {
    hide ConversionText, ConversionOf, IsoReading, Meaning, Before;
    var k := Stars(pieces[0]);
    ConversionAgrees(pieces[0], args, args[k]);
    FirstPiece(pieces, args);
    assert args[k..][1..] == args[k + 1..];
  }

  /** A format whose directives all satisfy the condition prints what the standard prints. */
  lemma {:induction false} ConformingMeaning(pieces: seq<Piece>, args: seq<Arg>)
    requires IntegerPieces(pieces) && AllConform(pieces, args)
    ensures Meaning(pieces, args) == IsoMeaning(pieces, args)
    ensures Meaning(pieces, args).Some?
    decreases |pieces|
  {
    hide ConversionText, ConversionOf, IsoReading, IsoText, Conforms, Meaning;
    if pieces == [] {
      NoPieces(args);
    } else {
      var rest := pieces[1..];
      assert forall i :: 0 <= i < |rest| ==> rest[i] == pieces[i + 1];
      assert WellFormed(pieces[0]);
      if pieces[0].Literal? {
        FirstPiece(pieces, args);
        ConformingMeaning(rest, args);
      } else {
        var k := Stars(pieces[0]);
        DirectiveFirst(pieces, args);
        DirectiveIsoIffConforms(pieces[0], args, args[k]);
        ConformingMeaning(rest, args[k + 1..]);
      }
    }
  }

  lemma ConformingFormatIsIso(pieces: seq<Piece>, args: seq<Arg>)
    requires IntegerPieces(pieces) && AllConform(pieces, args)
    ensures Output(FormatText(pieces), 0, args) == IsoMeaning(pieces, args)
    ensures IsoMeaning(pieces, args).Some?
  {
    OutputIsMeaning(pieces, args);
    ConformingMeaning(pieces, args);
  }

  // ----- literal inputs for the two conditions on arguments

  lemma OneDirective(d: Piece, args: seq<Arg>)
    requires d.Directive? && WellFormed(d) && IsIntegerSpec(d.spec)
    requires |args| == Stars(d) + 1 && IsoReading(d, args, args[Stars(d)]).Some?
    ensures ConversionOf(d, args).Some?
    ensures Output(FormatText([d]), 0, args) == ConversionText(ConversionOf(d, args).value.0, Some(args[Stars(d)]))
  {
    hide ConversionText, ConversionOf, IsoReading, Output, FormatText, Meaning;
    OutputIsMeaning([d], args);
    DirectiveFirst([d], args);
    NoPieces(args[Stars(d) + 1..]);
    assert [d][1..] == [] && args[Stars(d) + 1..] == [];
    var t := ConversionText(ConversionOf(d, args).value.0, Some(args[Stars(d)]));
    assert t.Some? ==> t.value + [] == t.value;
  }

  /** "%.*d" with -1 and 0: a negative precision should count as none and print "0", but counts as 0. */
  lemma NegativeStarPrecision()
    ensures var d := Directive([], NoWidth, PrecisionStar, NoLength, 'd' as int);
      var args := [WordArg(0xffff_ffff), WordArg(0)]; var r := Reading(0, false, None, Integer(0, false));
      && IsoReading(d, args, args[1]) == Some(r) && IsoText(d, r) == [ZERO]
      && Output(FormatText([d]), 0, args) == Some([])
  {
    hide Output, FormatText, IsoReading;
    var d := Directive([], NoWidth, PrecisionStar, NoLength, 'd' as int);
    var args := [WordArg(0xffff_ffff), WordArg(0)];
    StarReading(d, args);
    OneDirective(d, args);
    var flags := NO_FLAGS.(precision := true);
    assert args[0..] == args && WithFlags(NO_FLAGS, []) == NO_FLAGS;
    assert ConversionOf(d, args).value.0 == Conversion(flags, 0, 0, 'd' as int);
    assert NumberText(0, false, 10, 0, 0, IntegerFlags(flags, 'd' as int)) == [];
    assert IsoDigits(0, 10, false, None) == [ZERO];
  }

  lemma StarReading(d: Piece, args: seq<Arg>)
    requires d == Directive([], NoWidth, PrecisionStar, NoLength, 'd' as int)
    requires args == [WordArg(0xffff_ffff), WordArg(0)]
    ensures IsoReading(d, args, args[1]) == Some(Reading(0, false, None, Integer(0, false)))
  {
    assert args[0..] == args;
  }

  /** "%hhd" with 255: a signed char is -1, but "255" is printed. */
  lemma NegativeChar()
    ensures var d := Directive([], NoWidth, NoPrecision, LengthHH, 'd' as int);
      var args := [WordArg(255)]; var r := Reading(0, false, None, Integer(1, true));
      && IsoReading(d, args, args[0]) == Some(r) && IsoText(d, r) == [MINUS, 49]
      && Output(FormatText([d]), 0, args) == Some([50, 53, 53])
  {
    hide Output, FormatText, IsoReading, ConversionOf, ConversionText, IsoText;
    var d := Directive([], NoWidth, NoPrecision, LengthHH, 'd' as int);
    var args := [WordArg(255)];
    CharReading(d, args);
    OneDirective(d, args);
    CharText(args[0]);
    CharIsoText(d);
  }

  lemma CharReading(d: Piece, args: seq<Arg>)
    requires d == Directive([], NoWidth, NoPrecision, LengthHH, 'd' as int) && args == [WordArg(255)]
    ensures IsoReading(d, args, args[0]) == Some(Reading(0, false, None, Integer(1, true)))
    ensures ConversionOf(d, args) == Some((Conversion(NO_FLAGS.(short_ := true, char_ := true), 0, 0, 'd' as int), 0))
  {
    assert args[0..] == args && WithFlags(NO_FLAGS, []) == NO_FLAGS;
  }

  lemma CharIsoText(d: Piece)
    requires d == Directive([], NoWidth, NoPrecision, LengthHH, 'd' as int)
    ensures IsoText(d, Reading(0, false, None, Integer(1, true))) == [MINUS, 49]
  {
    assert Digits(1, 10) == [1];
    assert IsoDigits(1, 10, false, None) == [49];
    assert Repeat(SPACE, 0) + [MINUS] + [49] == [MINUS, 49];
  }

  lemma CharText(arg: Arg)
    requires arg == WordArg(255)
    ensures ConversionText(Conversion(NO_FLAGS.(short_ := true, char_ := true), 0, 0, 'd' as int), Some(arg)) == Some([50, 53, 53])
  {
    hide NumberText;
    var flags := NO_FLAGS.(short_ := true, char_ := true);
    assert Digits(255, 10) == [2, 5, 5];
    assert Text(255, 10, false) == [50, 53, 53];
    PlainText(255, flags);
    assert BaseOf('d' as int) == 10 && IsIntegerSpec('d' as int);
    assert IntegerArg(flags, 'd' as int, arg) == Some(Integer(255, false));
  }

  lemma PlainText(n: nat, flags: Flags)
    requires flags == NO_FLAGS.(short_ := true, char_ := true) && |Text(n, 10, false)| <= 20
    ensures NumberText(n, false, 10, 0, 0, IntegerFlags(flags, 'd' as int)) == Text(n, 10, false)
  {
    hide Text;
    var t := Text(n, 10, false);
    assert Repeat(ZERO, 0) + t == t && Repeat(SPACE, 0) + t == t && [] + t == t;
  }
}
