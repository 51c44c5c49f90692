/** The format grammar of ISO C11, section 7.21.6.1, as values: what is written is what is read. */
module PrintfGrammar {
  import opened Machine
  import opened Numeral
  import opened PrintfText

  datatype Width = NoWidth | WidthNumber(n: word) | WidthStar
  datatype Precision = NoPrecision | BarePoint | PrecisionNumber(n: word) | PrecisionStar
  datatype Length = NoLength | LengthL | LengthLL | LengthH | LengthHH | LengthT | LengthJ | LengthZ

  /** One piece of a format. */
  datatype Piece =
    | Literal(c: byte)
    | Directive(flags: seq<byte>, width: Width, precision: Precision, length: Length, spec: byte)

  predicate IsFlag(c: byte) {
    c == '0' as int || c == '-' as int || c == '+' as int || c == ' ' as int || c == '#' as int
  }

  predicate IsSpec(c: byte) {
    TakesArgument(c) || c == '%' as int
  }

  /** A width does not begin with '0', which would be a flag. */
  predicate WellFormed(p: Piece) {
    match p
    case Literal(c) => c != '%' as int && c != NUL
    case Directive(flags, width, _, _, spec) =>
      (forall i :: 0 <= i < |flags| ==> IsFlag(flags[i])) && width != WidthNumber(0) && IsSpec(spec)
  }

  // ----- writing

  function WidthText(w: Width): seq<byte> {
    match w
    case NoWidth => []
    case WidthNumber(n) => Text(n, 10, false)
    case WidthStar => ['*' as int]
  }

  function PrecisionText(p: Precision): seq<byte> {
    match p
    case NoPrecision => []
    case BarePoint => ['.' as int]
    case PrecisionNumber(n) => ['.' as int] + Text(n, 10, false)
    case PrecisionStar => ['.' as int, '*' as int]
  }

  function LengthText(l: Length): seq<byte> {
    match l
    case NoLength => []
    case LengthL => ['l' as int]
    case LengthLL => ['l' as int, 'l' as int]
    case LengthH => ['h' as int]
    case LengthHH => ['h' as int, 'h' as int]
    case LengthT => ['t' as int]
    case LengthJ => ['j' as int]
    case LengthZ => ['z' as int]
  }

  function PieceText(p: Piece): (t: seq<byte>)
    ensures t != []
  {
    match p
    case Literal(c) => [c]
    case Directive(flags, width, precision, length, spec) =>
      ['%' as int] + (flags + (WidthText(width) + (PrecisionText(precision) + (LengthText(length) + [spec]))))
  }

  function FormatText(pieces: seq<Piece>): seq<byte> {
    if pieces == [] then [] else PieceText(pieces[0]) + FormatText(pieces[1..])
  }

  lemma PieceHasNoNul(p: Piece)
    requires WellFormed(p)
    ensures NUL !in PieceText(p)
  {
    hide Text;
    if p.Directive? {
      if p.width.WidthNumber? { TextChars(p.width.n, 10, false); }
      if p.precision.PrecisionNumber? { TextChars(p.precision.n, 10, false); }
      assert NUL !in p.flags && NUL !in WidthText(p.width) && NUL !in PrecisionText(p.precision);
      assert NUL !in LengthText(p.length) + [p.spec];
    }
  }

  /** A format that is written from pieces is a C string as a whole. */
  lemma {:induction false} FormatHasNoNul(pieces: seq<Piece>)
    requires forall i :: 0 <= i < |pieces| ==> WellFormed(pieces[i])
    ensures NUL !in FormatText(pieces)
  {
    hide PieceText;
    if pieces != [] {
      PieceHasNoNul(pieces[0]);
      FormatHasNoNul(pieces[1..]);
    }
  }

  // ----- meaning

  /** flags together with those the characters name; order and repetition do not matter. */
  function WithFlags(flags: Flags, chars: seq<byte>): Flags {
    Flags(flags.zeropad || '0' as int in chars, flags.left || '-' as int in chars, flags.plus || '+' as int in chars,
          flags.space || ' ' as int in chars, flags.hash || '#' as int in chars, flags.upper,
          flags.char_, flags.short_, flags.long_, flags.longlong, flags.precision)
  }

  function WithLength(flags: Flags, l: Length): Flags {
    match l
    case NoLength => flags
    case LengthL => flags.(long_ := true)
    case LengthLL => flags.(long_ := true, longlong := true)
    case LengthH => flags.(short_ := true)
    case LengthHH => flags.(short_ := true, char_ := true)
    case LengthT => flags.(long_ := true)
    case LengthJ => flags.(longlong := true)
    case LengthZ => flags.(long_ := true)
  }

  /** An int argument for a '*'. */
  function IntArg(args: seq<Arg>): Option<long> {
    if args == [] || !args[0].WordArg? then None else Some(ToLong(args[0].w))
  }

  /** Width and whether it turns the field to the left. */
  function WidthOf(w: Width, args: seq<Arg>): Option<(word, bool)> {
    match w
    case NoWidth => Some((0, false))
    case WidthNumber(n) => Some((n, false))
    case WidthStar =>
      var a := IntArg(args);
      if a.None? then None else Some((if a.value < 0 then ToWord(-(a.value as int)) else a.value, a.value < 0))
  }

  function PrecisionOf(p: Precision, args: seq<Arg>): Option<word> {
    match p
    case NoPrecision => Some(0)
    case BarePoint => Some(0)
    case PrecisionNumber(n) => Some(n)
    case PrecisionStar =>
      var a := IntArg(args);
      if a.None? then None else Some(Max(a.value, 0))
  }

  /** The conversion a directive stands for and the number of arguments its stars take. */
  function ConversionOf(d: Piece, args: seq<Arg>): (r: Option<(Conversion, nat)>)
    requires d.Directive?
    ensures r.Some? ==> r.value.1 <= |args|
  {
    var w := WidthOf(d.width, args);
    if w.None? then None
    else
      var k := if d.width.WidthStar? then 1 else 0;
      var p := PrecisionOf(d.precision, args[k..]);
      if p.None? then None
      else
        var f1 := WithFlags(NO_FLAGS, d.flags);
        var f2 := if w.value.1 then f1.(left := true) else f1;
        var f3 := if d.precision.NoPrecision? then f2 else f2.(precision := true);
        Some((Conversion(WithLength(f3, d.length), w.value.0, p.value, d.spec),
              k + if d.precision.PrecisionStar? then 1 else 0))
  }

  /** The output of the pieces, one after the other. */
  function Meaning(pieces: seq<Piece>, args: seq<Arg>): Option<seq<byte>>
  {
    if pieces == [] then Some([])
    else match pieces[0]
      case Literal(c) => Before([c], Meaning(pieces[1..], args))
      case Directive(_, _, _, _, spec) =>
        var c := ConversionOf(pieces[0], args);
        if c.None? then None
        else
          var parsed := PrintfText.Parsed(c.value.0, 0, c.value.1);
          var t := ConversionText(c.value.0, NextArg(parsed, args));
          if t.None? then None
          else Before(t.value, Meaning(pieces[1..], Remaining(parsed, args)))
  }

  // ----- reading back

  /** The format has t at position p. */
  ghost predicate HasAt(format: seq<byte>, p: nat, t: seq<byte>) {
    p + |t| <= |format| && format[p..p + |t|] == t
  }

  lemma HasAtSplit(format: seq<byte>, p: nat, t: seq<byte>, u: seq<byte>)
    requires HasAt(format, p, t + u)
    ensures HasAt(format, p, t) && HasAt(format, p + |t|, u)
  {
    assert format[p..p + |t + u|][..|t|] == format[p..p + |t|];
    assert format[p..p + |t + u|][|t|..] == format[p + |t|..p + |t| + |u|];
  }

  lemma HeadAt(format: seq<byte>, p: nat, t: seq<byte>)
    requires HasAt(format, p, t) && t != []
    ensures At(format, p) == t[0] && p < |format| && format[p] == t[0]
  {
    assert format[p..p + |t|][0] == format[p];
  }

  lemma {:induction false} FlagsRead(format: seq<byte>, p: nat, flags: Flags, chars: seq<byte>)
    requires HasAt(format, p, chars) && forall i :: 0 <= i < |chars| ==> IsFlag(chars[i])
    requires !IsFlag(At(format, p + |chars|))
    ensures ReadFlags(format, p, flags) == Read(WithFlags(flags, chars), p + |chars|)
    decreases |chars|
  {
    hide ReadFlags, WithFlags, HasAt, At;
    if chars == [] {
      FlagsEnd(format, p, flags);
    } else {
      HeadAt(format, p, chars);
      var rest := chars[1..];
      assert chars == [chars[0]] + rest;
      HasAtSplit(format, p, [chars[0]], rest);
      FlagStep(format, p, flags);
      FlagsRead(format, p + 1, WithFlags(flags, [chars[0]]), rest);
      WithFlagsCons(flags, chars[0], rest);
    }
  }

  lemma FlagsEnd(format: seq<byte>, p: nat, flags: Flags)
    requires !IsFlag(At(format, p))
    ensures ReadFlags(format, p, flags) == Read(flags, p) && WithFlags(flags, []) == flags
  {
  }

  lemma FlagStep(format: seq<byte>, p: nat, flags: Flags)
    requires IsFlag(At(format, p))
    ensures ReadFlags(format, p, flags) == ReadFlags(format, p + 1, WithFlags(flags, [At(format, p)]))
  {
    hide WithFlags, ReadFlags;
    var next := WithFlags(flags, [At(format, p)]);
    WithFlag(flags, At(format, p));
    FlagTaken(format, p, flags, next, ReadFlags(format, p + 1, next));
  }

  lemma FlagTaken(format: seq<byte>, p: nat, flags: Flags, next: Flags, r: Read<Flags>)
    requires IsFlag(At(format, p)) && next == WithOne(flags, At(format, p)) && r == ReadFlags(format, p + 1, next)
    ensures ReadFlags(format, p, flags) == r
  {
  }

  function WithOne(flags: Flags, c: byte): Flags {
    if c == '0' as int then flags.(zeropad := true)
    else if c == '-' as int then flags.(left := true)
    else if c == '+' as int then flags.(plus := true)
    else if c == ' ' as int then flags.(space := true)
    else if c == '#' as int then flags.(hash := true)
    else flags
  }

  lemma WithFlag(flags: Flags, c: byte)
    requires IsFlag(c)
    ensures WithFlags(flags, [c]) == WithOne(flags, c)
  {
    hide WithFlags;
    OnlyMember('0' as int, c);
    OnlyMember('-' as int, c);
    OnlyMember('+' as int, c);
    OnlyMember(' ' as int, c);
    OnlyMember('#' as int, c);
    if c == '0' as int {
      ZeroAlone(flags, [c]);
    } else if c == '-' as int {
      LeftAlone(flags, [c]);
    } else if c == '+' as int {
      PlusAlone(flags, [c]);
    } else if c == ' ' as int {
      SpaceAlone(flags, [c]);
    } else {
      HashAlone(flags, [c]);
    }
  }

  lemma ZeroAlone(flags: Flags, chars: seq<byte>)
    requires '0' as int in chars && '-' as int !in chars && '+' as int !in chars
      && ' ' as int !in chars && '#' as int !in chars
    ensures WithFlags(flags, chars) == flags.(zeropad := true)
  {
  }

  lemma LeftAlone(flags: Flags, chars: seq<byte>)
    requires '-' as int in chars && '0' as int !in chars && '+' as int !in chars
      && ' ' as int !in chars && '#' as int !in chars
    ensures WithFlags(flags, chars) == flags.(left := true)
  {
  }

  lemma PlusAlone(flags: Flags, chars: seq<byte>)
    requires '+' as int in chars && '0' as int !in chars && '-' as int !in chars
      && ' ' as int !in chars && '#' as int !in chars
    ensures WithFlags(flags, chars) == flags.(plus := true)
  {
  }

  lemma SpaceAlone(flags: Flags, chars: seq<byte>)
    requires ' ' as int in chars && '0' as int !in chars && '-' as int !in chars
      && '+' as int !in chars && '#' as int !in chars
    ensures WithFlags(flags, chars) == flags.(space := true)
  {
  }

  lemma HashAlone(flags: Flags, chars: seq<byte>)
    requires '#' as int in chars && '0' as int !in chars && '-' as int !in chars
      && '+' as int !in chars && ' ' as int !in chars
    ensures WithFlags(flags, chars) == flags.(hash := true)
  {
  }

  lemma OnlyMember(x: byte, c: byte)
    ensures x in [c] <==> x == c
  {
  }

  lemma WithFlagsCons(flags: Flags, c: byte, rest: seq<byte>)
    ensures WithFlags(WithFlags(flags, [c]), rest) == WithFlags(flags, [c] + rest)
  {
    assert forall x: byte :: x in [c] + rest <==> x in [c] || x in rest;
  }

  lemma NoPrecisionIsZero(args: seq<Arg>)
    ensures PrecisionOf(NoPrecision, args) == Some(0)
  {
  }

  lemma FlagsNoPrecision(chars: seq<byte>)
    ensures !WithFlags(NO_FLAGS, chars).precision
  {
  }

  lemma {:induction false} PrefixValue(ds: seq<nat>, base: nat, k: nat)
    requires k <= |ds| && base >= 1
    ensures Value(ds[..k], base) <= Value(ds, base)
    decreases |ds|
  {
    if k < |ds| {
      var init := ds[..|ds| - 1];
      PrefixValue(init, base, k);
      assert init[..k] == ds[..k];
      MulMono(1, base, Value(init, base));
    } else {
      assert ds[..k] == ds;
    }
  }

  /** _atoi reads a numeral digit by digit. */
  lemma {:induction false} DigitsRead(format: seq<byte>, p: nat, t: seq<byte>, k: nat)
    requires HasAt(format, p, t) && k <= |t| && forall i :: 0 <= i < |t| ==> IsDigit(t[i])
    requires !IsDigit(At(format, p + |t|)) && Decode(t, 10) < WORD_LIMIT
    requires Decode(t[..k], 10) < WORD_LIMIT
    ensures ReadNumber(format, p + k, Decode(t[..k], 10)) == Read(Decode(t, 10), p + |t|)
    decreases |t| - k
  {
    if k == |t| {
      assert t[..k] == t;
    } else {
      assert format[p..p + |t|][k] == format[p + k];
      DecodeSnoc(t, k);
      DecodePrefix(t, k + 1);
      DigitsRead(format, p, t, k + 1);
    }
  }

  lemma DecodeSnoc(t: seq<byte>, k: nat)
    requires k < |t| && IsDigit(t[k])
    ensures Decode(t[..k + 1], 10) == Decode(t[..k], 10) * 10 + (t[k] - 48)
  {
    assert CharDigits(t[..k + 1]) == CharDigits(t[..k]) + [t[k] - 48];
    ValueSnoc(CharDigits(t[..k]), t[k] - 48, 10);
  }

  lemma DecodePrefix(t: seq<byte>, k: nat)
    requires k <= |t|
    ensures Decode(t[..k], 10) <= Decode(t, 10)
  {
    assert CharDigits(t[..k]) == CharDigits(t)[..k];
    PrefixValue(CharDigits(t), 10, k);
  }

  lemma NumeralRead(format: seq<byte>, p: nat, n: word)
    requires HasAt(format, p, Text(n, 10, false)) && !IsDigit(At(format, p + |Text(n, 10, false)|))
    ensures ReadNumber(format, p, 0) == Read(n, p + |Text(n, 10, false)|)
    ensures IsDigit(At(format, p))
  {
    hide Digits, ReadNumber;
    var t := Text(n, 10, false);
    TextChars(n, 10, false);
    DecodeText(n, 10, false);
    assert t[..0] == [] && CharDigits([]) == [];
    DigitsRead(format, p, t, 0);
    HeadAt(format, p, t);
  }

  /** A width numeral starts with a digit that is no flag. */
  lemma WidthHead(n: word)
    requires n > 0
    ensures Text(n, 10, false) != [] && IsDigit(Text(n, 10, false)[0]) && Text(n, 10, false)[0] != 48
  {
    TextChars(n, 10, false);
    DigitsCanonical(n, 10);
  }

  lemma WidthRead(format: seq<byte>, p: nat, w: Width, args: seq<Arg>)
    requires HasAt(format, p, WidthText(w)) && w != WidthNumber(0)
    requires !IsDigit(At(format, p + |WidthText(w)|)) && At(format, p + |WidthText(w)|) != '*' as int
    ensures ReadWidth(format, p, args) == match WidthOf(w, args)
      case None => None
      case Some(v) => Some(Field(v.0, v.1, p + |WidthText(w)|, if w.WidthStar? then 1 else 0))
  {
    hide ReadNumber, ToLong, ToWord, Text;
    match w
    case NoWidth =>
    case WidthNumber(n) => NumeralRead(format, p, n);
    case WidthStar => HeadAt(format, p, ['*' as int]);
  }

  /** The part of a precision after its point. */
  function PrecisionTail(pr: Precision): seq<byte> {
    match pr
    case PrecisionNumber(n) => Text(n, 10, false)
    case PrecisionStar => ['*' as int]
    case _ => []
  }

  lemma PrecisionRead(format: seq<byte>, p: nat, pr: Precision, args: seq<Arg>)
    requires !pr.NoPrecision? && HasAt(format, p, PrecisionTail(pr))
    requires !IsDigit(At(format, p + |PrecisionTail(pr)|)) && At(format, p + |PrecisionTail(pr)|) != '*' as int
    ensures ReadPrecision(format, p, args) == match PrecisionOf(pr, args)
      case None => None
      case Some(v) => Some(Field(v, false, p + |PrecisionTail(pr)|, if pr.PrecisionStar? then 1 else 0))
  {
    hide ReadNumber, ToLong, Text;
    match pr
    case BarePoint =>
    case PrecisionNumber(n) => NumeralRead(format, p, n);
    case PrecisionStar => HeadAt(format, p, ['*' as int]);
  }

  lemma LengthRead(format: seq<byte>, p: nat, flags: Flags, l: Length, spec: byte)
    requires HasAt(format, p, LengthText(l) + [spec]) && IsSpec(spec)
    ensures ReadLength(format, p, flags) == Read(WithLength(flags, l), p + |LengthText(l)|)
  {
    var t := LengthText(l) + [spec];
    HeadAt(format, p, t);
    if |t| > 1 {
      assert t == [t[0]] + t[1..];
      HasAtSplit(format, p, [t[0]], t[1..]);
      HeadAt(format, p + 1, t[1..]);
    }
  }

  /** After a length modifier's place there is neither digit, star, point nor flag. */
  lemma LengthHead(l: Length, spec: byte)
    requires IsSpec(spec)
    ensures var c := (LengthText(l) + [spec])[0];
      !IsDigit(c) && c != '*' as int && c != '.' as int && !IsFlag(c)
  {
  }

  lemma SpecRead(format: seq<byte>, p: nat, flags: Flags, width: word, precision: word, taken: nat, l: Length, spec: byte)
    requires p <= |format| && HasAt(format, p, LengthText(l) + [spec]) && IsSpec(spec)
    ensures ReadSpec(format, p, flags, width, precision, taken) ==
      Some(PrintfText.Parsed(Conversion(WithLength(flags, l), width, precision, spec), p + |LengthText(l)| + 1, taken))
  {
    LengthRead(format, p, flags, l, spec);
    HasAtSplit(format, p, LengthText(l), [spec]);
    HeadAt(format, p + |LengthText(l)|, [spec]);
  }

  /** A written directive is read back as the conversion it stands for. */
  lemma DirectiveRead(format: seq<byte>, p: nat, d: Piece, args: seq<Arg>)
    requires d.Directive? && WellFormed(d) && p < |format| && HasAt(format, p, PieceText(d))
    ensures ReadConversion(format, p + 1, args) == match ConversionOf(d, args)
      case None => None
      case Some(c) => Some(PrintfText.Parsed(c.0, p + |PieceText(d)|, c.1))
  {
    hide ReadFlags, ReadWidth, ReadPrecision, ReadSpec, WidthOf, PrecisionOf;
    hide HasAt, WithFlags, WithLength, At, Text, TakesArgument;
    var q := p + 1 + |d.flags|;
    var q2 := q + |WidthText(d.width)|;
    DirectiveParts(format, p, d);
    FlagsRead(format, p + 1, NO_FLAGS, d.flags);
    WidthRead(format, q, d.width, args);
    var wv := WidthOf(d.width, args);
    if wv.Some? {
      var f1 := WithFlags(NO_FLAGS, d.flags);
      var flags := if wv.value.1 then f1.(left := true) else f1;
      var k := if d.width.WidthStar? then 1 else 0;
      FlagsNoPrecision(d.flags);
      NoPrecisionIsZero(args[k..]);
      if d.precision.NoPrecision? {
        AfterWidthPlain(format, q2, d, flags, wv.value.0, k);
      } else {
        AfterWidthPoint(format, q2, d, flags, wv.value.0, k, args[k..]);
      }
    }
  }

  lemma PieceParts(d: Piece)
    requires d.Directive?
    ensures PieceText(d) ==
      ['%' as int] + (d.flags + (WidthText(d.width) + (PrecisionText(d.precision) + (LengthText(d.length) + [d.spec]))))
    ensures WellFormed(d) ==> IsSpec(d.spec) && d.width != WidthNumber(0)
  {
  }

  /** What follows the width is neither digit nor star, and width and all begin with no flag. */
  lemma WidthFollowed(w: Width, pr: Precision, tail: seq<byte>)
    requires w != WidthNumber(0) && tail != []
    requires !IsDigit(tail[0]) && tail[0] != '*' as int && !IsFlag(tail[0])
    ensures var rest := PrecisionText(pr) + tail; var all := WidthText(w) + rest;
      && rest != [] && !IsDigit(rest[0]) && rest[0] != '*' as int
      && all != [] && !IsFlag(all[0])
  {
    hide Text;
    if w.WidthNumber? { WidthHead(w.n); }
  }

  /** Where the parts of a directive are, and what the reader sees at their ends. */
  lemma DirectiveParts(format: seq<byte>, p: nat, d: Piece)
    requires d.Directive? && WellFormed(d) && p < |format| && HasAt(format, p, PieceText(d))
    ensures var q := p + 1 + |d.flags|; var q2 := q + |WidthText(d.width)|;
      && HasAt(format, p + 1, d.flags) && !IsFlag(At(format, q))
      && HasAt(format, q, WidthText(d.width)) && !IsDigit(At(format, q2)) && At(format, q2) != '*' as int
      && q2 < |format| && HasAt(format, q2, PrecisionText(d.precision))
      && HasAt(format, q2 + |PrecisionText(d.precision)|, LengthText(d.length) + [d.spec])
      && |PieceText(d)| == 1 + |d.flags| + |WidthText(d.width)| + |PrecisionText(d.precision)| + |LengthText(d.length)| + 1
  {
    hide HasAt, At, Text, TakesArgument, LengthText, WidthText, PrecisionText, IsFlag, IsDigit;
    PieceParts(d);
    var w, pr, tail := WidthText(d.width), PrecisionText(d.precision), LengthText(d.length) + [d.spec];
    LengthHead(d.length, d.spec);
    HasAtSplit(format, p, ['%' as int], d.flags + (w + (pr + tail)));
    HasAtSplit(format, p + 1, d.flags, w + (pr + tail));
    var q := p + 1 + |d.flags|;
    HasAtSplit(format, q, w, pr + tail);
    HeadAt(format, q, w + (pr + tail));
    WidthFollowed(d.width, d.precision, tail);
    HeadAt(format, q + |w|, pr + tail);
    HasAtSplit(format, q + |w|, pr, tail);
  }

  /** Without a precision the length modifier follows the width at once. */
  lemma AfterWidthPlain(format: seq<byte>, p: nat, d: Piece, flags: Flags, width: word, k: nat)
    requires d.Directive? && IsSpec(d.spec) && p < |format| && d.precision.NoPrecision?
    requires HasAt(format, p, LengthText(d.length) + [d.spec])
    ensures At(format, p) != '.' as int
    ensures ReadSpec(format, p, flags, width, 0, k) ==
      Some(PrintfText.Parsed(Conversion(WithLength(flags, d.length), width, 0, d.spec), p + |LengthText(d.length)| + 1, k))
  {
    hide ReadSpec, HasAt, WithLength, At, TakesArgument;
    LengthHead(d.length, d.spec);
    HeadAt(format, p, LengthText(d.length) + [d.spec]);
    SpecRead(format, p, flags, width, 0, k, d.length, d.spec);
  }

  /** With one it follows the precision. */
  lemma AfterWidthPoint(format: seq<byte>, p: nat, d: Piece, flags: Flags, width: word, k: nat, args: seq<Arg>)
    requires d.Directive? && IsSpec(d.spec) && p < |format| && !d.precision.NoPrecision?
    requires HasAt(format, p, PrecisionText(d.precision))
    requires HasAt(format, p + |PrecisionText(d.precision)|, LengthText(d.length) + [d.spec])
    ensures At(format, p) == '.' as int
    ensures var pr := ReadPrecision(format, p + 1, args);
      match PrecisionOf(d.precision, args)
      case None => pr.None?
      case Some(v) =>
        && pr.Some? && pr.value.value == v && pr.value.taken == (if d.precision.PrecisionStar? then 1 else 0)
        && pr.value.next <= |format|
        && ReadSpec(format, pr.value.next, flags.(precision := true), width, v, k + pr.value.taken) ==
          Some(PrintfText.Parsed(Conversion(WithLength(flags.(precision := true), d.length), width, v, d.spec),
                      p + |PrecisionText(d.precision)| + |LengthText(d.length)| + 1, k + pr.value.taken))
  {
    hide ReadPrecision, ReadSpec, PrecisionOf, HasAt, WithLength, At, Text, TakesArgument, LengthText;
    var tail := LengthText(d.length) + [d.spec];
    var q := p + |PrecisionText(d.precision)|;
    LengthHead(d.length, d.spec);
    HeadAt(format, q, tail);
    var t := PrecisionTail(d.precision);
    assert PrecisionText(d.precision) == ['.' as int] + t;
    HeadAt(format, p, PrecisionText(d.precision));
    HasAtSplit(format, p, ['.' as int], t);
    PrecisionRead(format, p + 1, d.precision, args);
    var v := PrecisionOf(d.precision, args);
    if v.Some? {
      var taken := k + if d.precision.PrecisionStar? then 1 else 0;
      SpecRead(format, q, flags.(precision := true), width, v.value, taken, d.length, d.spec);
    }
  }

  /** From any position on, the engine's output is the meaning of the pieces written there. */
  lemma {:induction false} OutputFromIsMeaning(format: seq<byte>, p: nat, pieces: seq<Piece>, args: seq<Arg>)
    requires p <= |format| && format[p..] == FormatText(pieces)
    requires forall i :: 0 <= i < |pieces| ==> WellFormed(pieces[i])
    ensures Output(format, p, args) == Meaning(pieces, args)
    decreases |pieces|
  {
    hide ReadConversion, ConversionText, ConversionOf, Output, TakesArgument;
    hide Meaning, FormatText, PieceText, Remaining, NextArg;
    if pieces == [] {
      NoPieces(args);
      assert p == |format|;
      OutputEnd(format, args);
    } else {
      var t, rest := PieceText(pieces[0]), FormatText(pieces[1..]);
      FirstPiece(pieces, args);
      var q := p + |t|;
      assert format[p..q] == format[p..][..|t|] == t;
      assert format[q..] == format[p..][|t|..] == rest;
      HeadAt(format, p, t);
      if pieces[0].Literal? {
        OutputLiteral(format, p, args);
        OutputFromIsMeaning(format, q, pieces[1..], args);
      } else {
        OutputConversion(format, p, args);
        DirectiveRead(format, p, pieces[0], args);
        var c := ConversionOf(pieces[0], args);
        if c.Some? {
          SameArguments(c.value.0, q, c.value.1, args);
          OutputFromIsMeaning(format, q, pieces[1..], Remaining(PrintfText.Parsed(c.value.0, 0, c.value.1), args));
        }
      }
    }
  }

  lemma NoPieces(args: seq<Arg>)
    ensures FormatText([]) == [] && Meaning([], args) == Some([])
  {
  }

  /** Where a conversion ends has no bearing on its arguments. */
  lemma SameArguments(c: Conversion, next: nat, taken: nat, args: seq<Arg>)
    requires taken <= |args|
    ensures NextArg(PrintfText.Parsed(c, next, taken), args) == NextArg(PrintfText.Parsed(c, 0, taken), args)
    ensures Remaining(PrintfText.Parsed(c, next, taken), args) == Remaining(PrintfText.Parsed(c, 0, taken), args)
  {
  }

  lemma FirstPiece(pieces: seq<Piece>, args: seq<Arg>)
    requires pieces != []
    ensures FormatText(pieces) == PieceText(pieces[0]) + FormatText(pieces[1..])
    ensures pieces[0].Literal? ==> PieceText(pieces[0]) == [pieces[0].c]
    ensures pieces[0].Literal? ==> Meaning(pieces, args) == Before([pieces[0].c], Meaning(pieces[1..], args))
    ensures pieces[0].Directive? ==> PieceText(pieces[0])[0] == '%' as int
    ensures pieces[0].Directive? ==>
      var c := ConversionOf(pieces[0], args);
      Meaning(pieces, args) ==
        if c.None? then None
        else
          var parsed := PrintfText.Parsed(c.value.0, 0, c.value.1);
          var t := ConversionText(c.value.0, NextArg(parsed, args));
          if t.None? then None
          else Before(t.value, Meaning(pieces[1..], Remaining(parsed, args)))
  {
    hide ConversionText, ConversionOf, Remaining, NextArg, Before;
  }

  /** Every format that is written from pieces prints what the pieces mean. */
  lemma OutputIsMeaning(pieces: seq<Piece>, args: seq<Arg>)
    requires forall i :: 0 <= i < |pieces| ==> WellFormed(pieces[i])
    ensures Output(FormatText(pieces), 0, args) == Meaning(pieces, args)
  {
    OutputFromIsMeaning(FormatText(pieces), 0, pieces, args);
  }
}
