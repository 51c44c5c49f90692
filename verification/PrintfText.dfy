/** What tinyprintf writes for one conversion and for a whole format, as plain byte sequences. */
module PrintfText {
  import opened Machine
  import opened Numeral

  /** PRINTF_NTOA_BUFFER_SIZE. */
  const SCRATCH := 32

  datatype Flags = Flags(
    zeropad: bool, left: bool, plus: bool, space: bool, hash: bool, upper: bool,
    char_: bool, short_: bool, long_: bool, longlong: bool, precision: bool)

  const NO_FLAGS := Flags(false, false, false, false, false, false, false, false, false, false, false)

  // ----- numbers

  /** The sign character, if any; '+' wins over ' '. */
  function Sign(negative: bool, flags: Flags): (s: seq<byte>)
    ensures |s| <= 1
    ensures s != [] <==> negative || flags.plus || flags.space
  {
    if negative then [MINUS] else if flags.plus then [PLUS] else if flags.space then [SPACE] else []
  }

  /** t with zeros in front of it up to n characters, as far as the scratch buffer goes. */
  function ZeroFilled(t: seq<byte>, n: nat): (r: seq<byte>)
    requires |t| <= SCRATCH
    ensures |r| == Max(|t|, Min(n, SCRATCH))
  {
    Repeat(ZERO, Max(0, Min(n, SCRATCH) - |t|)) + t
  }

  /** One more character in front, if there is room. */
  function Prefixed(c: byte, t: seq<byte>): (r: seq<byte>)
    requires |t| <= SCRATCH
    ensures |r| <= SCRATCH
  {
    if |t| < SCRATCH then [c] + t else t
  }

  /** The '#' step: one or two leading characters may be given up, then the prefix goes in front. */
  function Hashed(t: seq<byte>, base: nat, prec: nat, width: nat, flags: Flags): (r: seq<byte>)
    requires |t| <= SCRATCH
    ensures |r| <= SCRATCH
  {
    var gives := !flags.precision && t != [] && (|t| == prec || |t| == width);
    var t1 := if gives then t[1..] else t;
    var t2 := if gives && t1 != [] && base == 16 then t1[1..] else t1;
    var t3 := if base == 16 then Prefixed(if flags.upper then 88 else 120, t2)
              else if base == 2 then Prefixed(98, t2) else t2;
    Prefixed(ZERO, t3)
  }

  /** The width left for zeros when a sign is still to come. */
  function FillWidth(negative: bool, width: nat, flags: Flags): nat {
    if !flags.left && width > 0 && flags.zeropad && (negative || flags.plus || flags.space) then width - 1 else width
  }

  /** Digits with zeros, prefix and sign, as the scratch buffer holds them (backwards). */
  function Dressed(digits: seq<byte>, negative: bool, base: nat, prec: nat, width: nat, flags: Flags): (r: seq<byte>)
    requires |digits| <= SCRATCH
    ensures |r| <= SCRATCH
  {
    var w := FillWidth(negative, width, flags);
    var t1 := if flags.left then digits else ZeroFilled(digits, prec);
    var t2 := if !flags.left && flags.zeropad then ZeroFilled(t1, w) else t1;
    var t3 := if flags.hash then Hashed(t2, base, prec, w, flags) else t2;
    if |t3| < SCRATCH then Sign(negative, flags) + t3 else t3
  }

  /** Spaces up to the width: after the text, or before it unless zeros were to do it. */
  function Padded(t: seq<byte>, width: nat, flags: Flags): seq<byte> {
    var spaces := Repeat(SPACE, Max(0, width - |t|));
    if flags.left then t + spaces else if flags.zeropad then t else spaces + t
  }

  /** The digits that fit: the last 32 of the numeral, or none for zero with a precision. */
  function FittingDigits(value: nat, base: nat, flags: Flags): (t: seq<byte>)
    requires base >= 2
    ensures |t| <= SCRATCH
  {
    var t := Text(value, base, flags.upper);
    if flags.precision && value == 0 then []
    else if |t| <= SCRATCH then t else t[|t| - SCRATCH..]
  }

  /** _ntoa_long and _ntoa_long_long. */
  function NumberText(value: nat, negative: bool, base: nat, prec: nat, width: nat, flags: Flags): seq<byte>
    requires base >= 2
  {
    var fl := if value == 0 then flags.(hash := false) else flags;
    Padded(Dressed(FittingDigits(value, base, fl), negative, base, prec, width, fl),
           FillWidth(negative, width, fl), fl)
  }

  // ----- arguments and conversions

  /** A variadic argument: int, long, unsigned, char and pointers are words, long long is a double word. */
  datatype Arg = WordArg(w: word) | DwordArg(d: dword) | TextArg(s: seq<byte>)

  /** A conversion after its flags, width, precision and length have been read. */
  datatype Conversion = Conversion(flags: Flags, width: word, precision: word, spec: byte)

  /** An integer to print: sign apart. */
  datatype Integer = Integer(magnitude: dword, negative: bool)

  function ToShort(w: word): int {
    var s := w % 0x1_0000;
    if s < 0x8000 then s else s - 0x1_0000
  }

  function ToLongLong(d: dword): int {
    if d < 0x8000_0000_0000_0000 then d else d - DWORD_LIMIT
  }

  function Signed(v: int): Integer
    requires -DWORD_LIMIT < v < DWORD_LIMIT
  {
    if v < 0 then Integer(-v, true) else Integer(v, false)
  }

  predicate IsSignedSpec(spec: byte) {
    spec == 'd' as int || spec == 'i' as int
  }

  predicate IsIntegerSpec(spec: byte) {
    || IsSignedSpec(spec) || spec == 'u' as int || spec == 'x' as int || spec == 'X' as int
    || spec == 'o' as int || spec == 'b' as int
  }

  predicate IsFloatSpec(spec: byte) {
    || spec == 'f' as int || spec == 'F' as int || spec == 'e' as int || spec == 'E' as int
    || spec == 'g' as int || spec == 'G' as int
  }

  function BaseOf(spec: byte): (base: nat)
    ensures base >= 2
  {
    if spec == 'x' as int || spec == 'X' as int then 16
    else if spec == 'o' as int then 8
    else if spec == 'b' as int then 2
    else 10
  }

  /** The flags as the integer conversions use them. */
  function IntegerFlags(flags: Flags, spec: byte): Flags {
    Flags(flags.zeropad && !flags.precision, flags.left,
          flags.plus && IsSignedSpec(spec), flags.space && IsSignedSpec(spec),
          flags.hash && BaseOf(spec) != 10, flags.upper || spec == 'X' as int,
          flags.char_, flags.short_, flags.long_, flags.longlong, flags.precision)
  }

  /** The argument of an integer conversion, cut to the size its length modifier names; `char` is unsigned. */
  function IntegerArg(flags: Flags, spec: byte, arg: Arg): Option<Integer> {
    if flags.longlong then
      if !arg.DwordArg? then None
      else if IsSignedSpec(spec) then Some(Signed(ToLongLong(arg.d))) else Some(Integer(arg.d, false))
    else if !arg.WordArg? then None
    else if IsSignedSpec(spec) then
      if flags.long_ then Some(Signed(ToLong(arg.w)))
      else if flags.char_ then Some(Signed(arg.w % 256))
      else if flags.short_ then Some(Signed(ToShort(arg.w)))
      else Some(Signed(ToLong(arg.w)))
    else
      if flags.long_ then Some(Integer(arg.w, false))
      else if flags.char_ then Some(Integer(arg.w % 256, false))
      else if flags.short_ then Some(Integer(arg.w % 0x1_0000, false))
      else Some(Integer(arg.w, false))
  }

  /** Spaces around a string or character, which know no zero padding. */
  function Justified(t: seq<byte>, width: nat, left: bool): seq<byte> {
    var spaces := Repeat(SPACE, Max(0, width - |t|));
    if left then t + spaces else spaces + t
  }

  /** The output of one conversion, given the next argument; None if the argument does not fit the conversion. */
  function ConversionText(c: Conversion, arg: Option<Arg>): Option<seq<byte>> {
    if IsIntegerSpec(c.spec) then
      if arg.None? then None
      else
        var n := IntegerArg(c.flags, c.spec, arg.value);
        if n.None? then None
        else Some(NumberText(n.value.magnitude, n.value.negative, BaseOf(c.spec), c.precision, c.width,
                             IntegerFlags(c.flags, c.spec)))
    else if c.spec == 'c' as int then
      if arg.None? || !arg.value.WordArg? then None
      else Some(Justified([arg.value.w % 256], c.width, c.flags.left))
    else if c.spec == 's' as int then
      if arg.None? || !arg.value.TextArg? || NUL in arg.value.s then None
      else
        var s := arg.value.s;
        Some(Justified(if c.flags.precision then s[..Min(|s|, c.precision)] else s, c.width, c.flags.left))
    else if c.spec == 'p' as int then
      if arg.None? || !arg.value.WordArg? then None
      else Some(NumberText(arg.value.w, false, 16, c.precision, 8, c.flags.(zeropad := true, upper := true)))
    else if IsFloatSpec(c.spec) then None
    else Some([c.spec])
  }

  predicate TakesArgument(spec: byte) {
    IsIntegerSpec(spec) || spec == 'c' as int || spec == 's' as int || spec == 'p' as int
  }

  // ----- reading a conversion

  /** The format as a C string: past its end there is the terminator. */
  function At(format: seq<byte>, p: nat): byte {
    if p < |format| then format[p] else NUL
  }

  /** Value and next position of the field being read. */
  datatype Read<T> = Read(value: T, next: nat)

  function ReadFlags(format: seq<byte>, p: nat, flags: Flags): (r: Read<Flags>)
    ensures p <= r.next && (p <= |format| ==> r.next <= |format|)
    decreases |format| - p
  {
    var c := At(format, p);
    if c == '0' as int then ReadFlags(format, p + 1, flags.(zeropad := true))
    else if c == '-' as int then ReadFlags(format, p + 1, flags.(left := true))
    else if c == '+' as int then ReadFlags(format, p + 1, flags.(plus := true))
    else if c == ' ' as int then ReadFlags(format, p + 1, flags.(space := true))
    else if c == '#' as int then ReadFlags(format, p + 1, flags.(hash := true))
    else Read(flags, p)
  }

  /** _atoi in unsigned 32-bit arithmetic. */
  function ReadNumber(format: seq<byte>, p: nat, i: word): (r: Read<word>)
    ensures p <= r.next && (p <= |format| ==> r.next <= |format|)
    decreases |format| - p
  {
    var c := At(format, p);
    if IsDigit(c) then ReadNumber(format, p + 1, ToWord(i * 10 + (c - 48))) else Read(i, p)
  }

  /** Width, the flag it may set, and the number of arguments it takes; None if '*' has no int to take. */
  datatype Field = Field(value: word, left: bool, next: nat, taken: nat)

  function ReadWidth(format: seq<byte>, p: nat, args: seq<Arg>): (r: Option<Field>)
    ensures r.Some? ==> p <= r.value.next && (p <= |format| ==> r.value.next <= |format|) && r.value.taken <= |args|
  {
    var c := At(format, p);
    if IsDigit(c) then
      var n := ReadNumber(format, p, 0);
      Some(Field(n.value, false, n.next, 0))
    else if c == '*' as int then
      if args == [] || !args[0].WordArg? then None
      else
        var w := ToLong(args[0].w);
        Some(Field(if w < 0 then ToWord(-(w as int)) else w, w < 0, p + 1, 1))
    else Some(Field(0, false, p, 0))
  }

  /** Precision, after the '.'. */
  function ReadPrecision(format: seq<byte>, p: nat, args: seq<Arg>): (r: Option<Field>)
    ensures r.Some? ==> p <= r.value.next && (p <= |format| ==> r.value.next <= |format|) && r.value.taken <= |args|
  {
    var c := At(format, p);
    if IsDigit(c) then
      var n := ReadNumber(format, p, 0);
      Some(Field(n.value, false, n.next, 0))
    else if c == '*' as int then
      if args == [] || !args[0].WordArg? then None
      else
        var w := ToLong(args[0].w);
        Some(Field(if w > 0 then w else 0, false, p + 1, 1))
    else Some(Field(0, false, p, 0))
  }

  /** ptrdiff_t and size_t have the size of long, intmax_t that of long long. */
  function ReadLength(format: seq<byte>, p: nat, flags: Flags): (r: Read<Flags>)
    ensures p <= r.next && (p <= |format| ==> r.next <= |format|)
  {
    var c := At(format, p);
    if c == 'l' as int then
      if At(format, p + 1) == 'l' as int then Read(flags.(long_ := true, longlong := true), p + 2)
      else Read(flags.(long_ := true), p + 1)
    else if c == 'h' as int then
      if At(format, p + 1) == 'h' as int then Read(flags.(short_ := true, char_ := true), p + 2)
      else Read(flags.(short_ := true), p + 1)
    else if c == 't' as int || c == 'z' as int then Read(flags.(long_ := true), p + 1)
    else if c == 'j' as int then Read(flags.(longlong := true), p + 1)
    else Read(flags, p)
  }

  datatype Parsed = Parsed(conversion: Conversion, next: nat, taken: nat)

  /** Everything after a '%'; None if the format ends inside it or a '*' has no argument. */
  function ReadConversion(format: seq<byte>, p: nat, args: seq<Arg>): (r: Option<Parsed>)
    requires p <= |format|
    ensures r.Some? ==> p < r.value.next <= |format| && r.value.taken <= |args|
  {
    var f := ReadFlags(format, p, NO_FLAGS);
    var w := ReadWidth(format, f.next, args);
    if w.None? then None
    else
      var flags := if w.value.left then f.value.(left := true) else f.value;
      var rest := args[w.value.taken..];
      if At(format, w.value.next) == '.' as int then
        var pr := ReadPrecision(format, w.value.next + 1, rest);
        if pr.None? then None
        else ReadSpec(format, pr.value.next, flags.(precision := true), w.value.value, pr.value.value,
                      w.value.taken + pr.value.taken)
      else ReadSpec(format, w.value.next, flags, w.value.value, 0, w.value.taken)
  }

  function ReadSpec(format: seq<byte>, p: nat, flags: Flags, width: word, precision: word, taken: nat): (r: Option<Parsed>)
    requires p <= |format|
    ensures r.Some? ==> p < r.value.next <= |format| && r.value.taken == taken
  {
    var l := ReadLength(format, p, flags);
    if l.next >= |format| then None
    else Some(Parsed(Conversion(l.value, width, precision, format[l.next]), l.next + 1, taken))
  }

  /** The arguments left for the next piece of the format. */
  function Remaining(c: Parsed, args: seq<Arg>): seq<Arg>
    requires c.taken <= |args|
  {
    var rest := args[c.taken..];
    if TakesArgument(c.conversion.spec) && rest != [] then rest[1..] else rest
  }

  function NextArg(c: Parsed, args: seq<Arg>): Option<Arg>
    requires c.taken <= |args|
  {
    if c.taken == |args| then None else Some(args[c.taken])
  }

  /** The whole output from position p on; None for formats and arguments outside the model. */
  function Output(format: seq<byte>, p: nat, args: seq<Arg>): Option<seq<byte>>
    requires p <= |format|
    decreases |format| - p
  {
    if p == |format| then Some([])
    else if format[p] != '%' as int then Before([format[p]], Output(format, p + 1, args))
    else
      var c := ReadConversion(format, p + 1, args);
      if c.None? then None
      else
        var t := ConversionText(c.value.conversion, NextArg(c.value, args));
        if t.None? then None
        else Before(t.value, Output(format, c.value.next, Remaining(c.value, args)))
  }

  function Before(t: seq<byte>, rest: Option<seq<byte>>): Option<seq<byte>> {
    if rest.None? then None else Some(t + rest.value)
  }

  lemma OutputEnd(format: seq<byte>, args: seq<Arg>)
    ensures Output(format, |format|, args) == Some([])
  {
  }

  lemma OutputLiteral(format: seq<byte>, p: nat, args: seq<Arg>)
    requires p < |format| && format[p] != '%' as int
    ensures Output(format, p, args) == Before([format[p]], Output(format, p + 1, args))
  {
  }

  lemma OutputConversion(format: seq<byte>, p: nat, args: seq<Arg>)
    requires p < |format| && format[p] == '%' as int
    ensures var c := ReadConversion(format, p + 1, args);
      Output(format, p, args) ==
        if c.None? then None
        else
          var t := ConversionText(c.value.conversion, NextArg(c.value, args));
          if t.None? then None
          else Before(t.value, Output(format, c.value.next, Remaining(c.value, args)))
  {
    hide ReadConversion, ConversionText;
  }
}
