/** The tinyprintf engine: every function sends its characters to an output function at a running index. */
module Printf {
  import opened Machine
  import opened Numeral
  import opened PrintfText

  /** Which output function is passed around: _out_buffer, _out_null, or one that forwards non-NUL characters. */
  datatype Kind = ToBuffer | ToNull | ToStream

  /** Everything output can change: the caller's buffer and what was forwarded. */
  datatype Sent = Sent(buffer: seq<byte>, stream: seq<byte>)

  function NonNul(t: seq<byte>): seq<byte> {
    if t == [] then []
    else if t[|t| - 1] == NUL then NonNul(t[..|t| - 1]) else NonNul(t[..|t| - 1]) + [t[|t| - 1]]
  }

  /** b with t at index idx on, but nothing at maxlen or beyond. */
  function Bounded(b: seq<byte>, idx: nat, t: seq<byte>, maxlen: nat): (r: seq<byte>)
    ensures |r| == |b|
  {
    seq(|b|, i requires 0 <= i < |b| => if idx <= i < idx + |t| && i < maxlen then t[i - idx] else b[i])
  }

  function After(kind: Kind, s: Sent, idx: nat, t: seq<byte>, maxlen: nat): Sent {
    match kind
    case ToBuffer => s.(buffer := Bounded(s.buffer, idx, t, maxlen))
    case ToNull => s
    case ToStream => s.(stream := s.stream + NonNul(t))
  }

  lemma {:induction false} NonNulConcat(t: seq<byte>, u: seq<byte>)
    ensures NonNul(t + u) == NonNul(t) + NonNul(u)
    decreases |u|
  {
    if u == [] {
      assert t + u == t;
    } else {
      NonNulConcat(t, u[..|u| - 1]);
      assert (t + u)[..|t + u| - 1] == t + u[..|u| - 1];
    }
  }

  /** What is forwarded: a text without NUL as it is, and every NUL drops out. */
  lemma {:induction false} NonNulIs(t: seq<byte>, u: seq<byte>)
    ensures NUL !in t ==> NonNul(t) == t
    ensures NonNul(t + [NUL] + u) == NonNul(t) + NonNul(u)
    decreases |t|
  {
    if t != [] {
      NonNulIs(t[..|t| - 1], u);
    }
    NonNulConcat(t + [NUL], u);
    NonNulConcat(t, [NUL]);
    assert NonNul([NUL]) == [] && NonNul(t) + [] == NonNul(t);
  }

  /** Output composes: t and then u is t + u. */
  lemma AfterAfter(kind: Kind, s: Sent, idx: nat, t: seq<byte>, u: seq<byte>, maxlen: nat)
    ensures After(kind, After(kind, s, idx, t, maxlen), idx + |t|, u, maxlen) == After(kind, s, idx, t + u, maxlen)
  {
    NonNulConcat(t, u);
    assert s.stream + NonNul(t) + NonNul(u) == s.stream + (NonNul(t) + NonNul(u));
    assert Bounded(Bounded(s.buffer, idx, t, maxlen), idx + |t|, u, maxlen) == Bounded(s.buffer, idx, t + u, maxlen);
  }

  lemma AfterNothing(kind: Kind, s: Sent, idx: nat, maxlen: nat)
    ensures After(kind, s, idx, [], maxlen) == s
  {
    assert Bounded(s.buffer, idx, [], maxlen) == s.buffer;
  }

  class Engine {
    const kind: Kind
    const buffer: array<byte>
    const maxlen: nat
    var stream: seq<byte>

    constructor (kind: Kind, buffer: array<byte>, maxlen: nat)
      ensures this.kind == kind && this.buffer == buffer && this.maxlen == maxlen && stream == []
    {
      this.kind := kind;
      this.buffer := buffer;
      this.maxlen := maxlen;
      stream := [];
    }

    ghost function State(): Sent
      reads this, buffer
    {
      Sent(buffer[..], stream)
    }

    /** The caller's buffer is as long as it says, as far as characters up to end go. */
    ghost predicate Room(end: nat) {
      kind.ToBuffer? ==> Min(end, maxlen) <= buffer.Length
    }

    /** The text went out at idx, and the index moved on by its length. */
    twostate predicate Wrote(idx: nat, t: seq<byte>, idx': nat)
      reads this, buffer
    {
      idx' == idx + |t| && State() == After(kind, old(State()), idx, t, maxlen)
    }

    /** out(c, buffer, idx++, maxlen). */
    method Out(c: byte, idx: nat) returns (idx': nat)
      requires Room(idx + 1)
      modifies this, buffer
      ensures Wrote(idx, [c], idx')
    {
      ghost var before := State();
      match kind {
        case ToBuffer =>
          if idx < maxlen {
            buffer[idx] := c;
          }
          assert buffer[..] == Bounded(before.buffer, idx, [c], maxlen);
        case ToNull =>
        case ToStream =>
          assert NonNul([c]) == if c == NUL then [] else [c];
          if c != NUL {
            stream := stream + [c];
          } else {
            assert stream + [] == stream;
          }
      }
      idx' := idx + 1;
    }

    /** A loop that writes the same character until n are written. */
    method OutRepeated(c: byte, n: nat, idx: nat) returns (idx': nat)
      requires Room(idx + n)
      modifies this, buffer
      ensures Wrote(idx, Repeat(c, n), idx')
    {
      hide After;
      ghost var before := State();
      idx' := idx;
      AfterNothing(kind, before, idx, maxlen);
      assert Repeat(c, 0) == [];
      for i := 0 to n
        invariant idx' == idx + i
        invariant State() == After(kind, before, idx, Repeat(c, i), maxlen)
      {
        idx' := Out(c, idx');
        AfterAfter(kind, before, idx, Repeat(c, i), [c], maxlen);
        assert Repeat(c, i) + [c] == Repeat(c, i + 1);
      }
    }

    /** A text written character by character. */
    method OutText(t: seq<byte>, idx: nat) returns (idx': nat)
      requires Room(idx + |t|)
      modifies this, buffer
      ensures Wrote(idx, t, idx')
    {
      hide After;
      ghost var before := State();
      idx' := idx;
      AfterNothing(kind, before, idx, maxlen);
      for i := 0 to |t|
        invariant idx' == idx + i
        invariant State() == After(kind, before, idx, t[..i], maxlen)
      {
        idx' := Out(t[i], idx');
        AfterAfter(kind, before, idx, t[..i], [t[i]], maxlen);
        assert t[..i] + [t[i]] == t[..i + 1];
      }
      assert t[..|t|] == t;
    }

    /** _out_rev: the scratch buffer backwards, with spaces on one side. */
    method OutRev(idx: nat, buf: array<byte>, len: nat, width: nat, flags: Flags) returns (idx': nat)
      requires len <= buf.Length && buf != buffer
      requires Room(idx + |Padded(Reversed(buf[..len]), width, flags)|)
      modifies this, buffer
      ensures Wrote(idx, Padded(Reversed(buf[..len]), width, flags), idx')
    {
      hide After, Padded;
      ghost var before, text := State(), Reversed(buf[..len]);
      PaddedSides(text, width, flags);
      ghost var front := if !flags.left && !flags.zeropad then Repeat(SPACE, Max(0, width - len)) else [];
      idx' := idx;
      AfterNothing(kind, before, idx, maxlen);
      if !flags.left && !flags.zeropad {
        idx' := OutRepeated(SPACE, Max(0, width - len), idx');
      }
      var left := len;
      assert text[..0] == [] && front + [] == front;
      while left > 0
        invariant 0 <= left <= len && idx' == idx + |front| + (len - left)
        invariant State() == After(kind, before, idx, front + text[..len - left], maxlen)
      {
        left := left - 1;
        assert buf[left] == text[len - left - 1];
        idx' := Out(buf[left], idx');
        AfterAfter(kind, before, idx, front + text[..len - left - 1], [buf[left]], maxlen);
        assert front + text[..len - left - 1] + [buf[left]] == front + text[..len - left];
      }
      assert text[..len] == text;
      if flags.left {
        var missing := if idx' - idx < width then width - (idx' - idx) else 0;
        idx' := OutRepeated(SPACE, missing, idx');
        AfterAfter(kind, before, idx, front + text, Repeat(SPACE, missing), maxlen);
        assert front + text == text;
      } else if flags.zeropad {
        assert front + text == text;
      }
    }

    // ----- integers, built backwards in the scratch buffer

    /** Appends one character unless the scratch buffer is full. */
    static method Push(buf: array<byte>, len: nat, c: byte) returns (len': nat)
      requires buf.Length == SCRATCH && len <= SCRATCH
      modifies buf
      ensures len' <= SCRATCH && Reversed(buf[..len']) == Prefixed(c, old(Reversed(buf[..len])))
    {
      len' := len;
      if len < SCRATCH {
        ghost var before := buf[..len];
        buf[len] := c;
        len' := len + 1;
        assert buf[..len'] == before + [c];
        ReversedSnoc(before, c);
      }
    }

    /** Zeros up to n characters. */
    static method FillZeros(buf: array<byte>, len: nat, n: nat) returns (len': nat)
      requires buf.Length == SCRATCH && len <= SCRATCH
      modifies buf
      ensures len' <= SCRATCH && Reversed(buf[..len']) == ZeroFilled(old(Reversed(buf[..len])), n)
    {
      len' := len;
      ghost var t := Reversed(buf[..len]);
      assert Repeat(ZERO, 0) + t == t;
      while len' < n && len' < SCRATCH
        invariant len <= len' <= SCRATCH && (len' == len || len' <= n)
        invariant Reversed(buf[..len']) == Repeat(ZERO, len' - len) + t
      {
        len' := Push(buf, len', ZERO);
        assert [ZERO] + (Repeat(ZERO, len' - 1 - len) + t) == Repeat(ZERO, len' - len) + t;
      }
    }

    static method PushHash(buf: array<byte>, len: nat, base: nat, prec: nat, width: nat, flags: Flags) returns (len': nat)
      requires buf.Length == SCRATCH && len <= SCRATCH
      modifies buf
      ensures len' <= SCRATCH && Reversed(buf[..len']) == Hashed(old(Reversed(buf[..len])), base, prec, width, flags)
    {
      hide Prefixed;
      len' := len;
      if !flags.precision && len' > 0 && (len' == prec || len' == width) {
        len' := len' - 1;
        assert Reversed(buf[..len']) == Reversed(buf[..len])[1..];
        if len' > 0 && base == 16 {
          len' := len' - 1;
          assert Reversed(buf[..len']) == Reversed(buf[..len])[1..][1..];
        }
      }
      if base == 16 && !flags.upper {
        len' := Push(buf, len', 120);
      } else if base == 16 && flags.upper {
        len' := Push(buf, len', 88);
      } else if base == 2 {
        len' := Push(buf, len', 98);
      }
      len' := Push(buf, len', ZERO);
    }

    static method PushSign(buf: array<byte>, len: nat, negative: bool, flags: Flags) returns (len': nat)
      requires buf.Length == SCRATCH && len <= SCRATCH
      modifies buf
      ensures len' <= SCRATCH
      ensures var t := old(Reversed(buf[..len]));
        Reversed(buf[..len']) == if |t| < SCRATCH then Sign(negative, flags) + t else t
    {
      len' := len;
      ghost var t := Reversed(buf[..len]);
      assert [] + t == t;
      if len < SCRATCH {
        if negative {
          len' := Push(buf, len, MINUS);
        } else if flags.plus {
          len' := Push(buf, len, PLUS);
        } else if flags.space {
          len' := Push(buf, len, SPACE);
        }
      }
    }

    /** _ntoa_format: no write ever reaches the end of the scratch buffer. */
    method NtoaFormat(idx: nat, buf: array<byte>, len: nat, negative: bool, base: nat, prec: nat, width: nat, flags: Flags)
      returns (idx': nat)
      requires buf.Length == SCRATCH && len <= SCRATCH && buf != buffer
      requires Room(idx + |FormatText(Reversed(buf[..len]), negative, base, prec, width, flags)|)
      modifies this, buffer, buf
      ensures Wrote(idx, FormatText(old(Reversed(buf[..len])), negative, base, prec, width, flags), idx')
    {
      hide Padded, ZeroFilled, Hashed, After;
      ghost var digits, state := Reversed(buf[..len]), State();
      var w, n := width, len;
      if !flags.left {
        if w > 0 && flags.zeropad && (negative || flags.plus || flags.space) {
          w := w - 1;
        }
        n := FillZeros(buf, n, prec);
        if flags.zeropad {
          n := FillZeros(buf, n, w);
        }
      }
      if flags.hash {
        n := PushHash(buf, n, base, prec, w, flags);
      }
      n := PushSign(buf, n, negative, flags);
      assert Reversed(buf[..n]) == Dressed(digits, negative, base, prec, width, flags);
      assert State() == state;
      idx' := OutRev(idx, buf, n, w, flags);
    }

    /** The digit loop of _ntoa_long and _ntoa_long_long, which stops when the scratch buffer is full. */
    static method FillDigits(value: dword, base: nat, flags: Flags, buf: array<byte>) returns (len: nat)
      requires base >= 2 && buf.Length == SCRATCH
      modifies buf
      ensures len <= SCRATCH
      ensures Reversed(buf[..len]) == FittingDigits(value, base, flags)
    {
      hide Digits, Value, FittingDigits;
      len := 0;
      if !flags.precision || value != 0 {
        ghost var ds := DwordNumeral(value, base);
        assert ds[..|ds|] == ds;
        var v: dword := value;
        while true
          invariant len < SCRATCH && len < |ds|
          invariant v == Value(ds[..|ds| - len], base)
          invariant forall k :: 0 <= k < len ==> buf[k] == DigitChar(ds[|ds| - 1 - k], flags.upper)
          decreases SCRATCH - len
        {
          SplitDigit(ds, base, len, v);
          var digit := v % base;
          buf[len] := if digit < 10 then 48 + digit else LowByte((if flags.upper then 65 else 97) + digit - 10);
          len := len + 1;
          v := v / base;
          if !(v != 0 && len < SCRATCH) { break; }
        }
        FittingFrom(value, base, flags, ds, buf[..len]);
      } else {
        FittingNone(value, base, flags);
      }
    }

    /** _ntoa_long, and _ntoa_long_long for 64-bit values. */
    method NtoaLong(idx: nat, value: dword, negative: bool, base: nat, prec: nat, width: nat, flags: Flags)
      returns (idx': nat)
      requires base >= 2
      requires Room(idx + |NumberText(value, negative, base, prec, width, flags)|)
      modifies this, buffer
      ensures Wrote(idx, NumberText(value, negative, base, prec, width, flags), idx')
    {
      hide After, FittingDigits, FormatText;
      NumberTextFormats(value, negative, base, prec, width, flags);
      var fl := if value == 0 then flags.(hash := false) else flags;
      var buf := new byte[SCRATCH];
      var len := FillDigits(value, base, fl, buf);
      idx' := NtoaFormat(idx, buf, len, negative, base, prec, width, fl);
    }

    // ----- strings and characters

    /** _strnlen_s. */
    static method Strnlen(t: seq<byte>, maxsize: word) returns (n: nat)
      requires NUL !in t
      ensures n == Min(|t|, maxsize)
    {
      n := 0;
      var left: int := maxsize;
      while n < |t| && left > 0
        invariant 0 <= n <= |t| && left == maxsize - n >= 0
      {
        left := left - 1;
        n := n + 1;
      }
    }

    method OutString(idx: nat, t: seq<byte>, width: word, precision: word, flags: Flags) returns (idx': nat)
      requires NUL !in t && |t| < WORD_LIMIT
      requires Room(idx + |Justified(Shortened(t, precision, flags), width, flags.left)|)
      modifies this, buffer
      ensures Wrote(idx, Justified(Shortened(t, precision, flags), width, flags.left), idx')
    {
      hide After;
      ghost var before := State();
      var l := Strnlen(t, if precision != 0 then precision else WORD_LIMIT - 1);
      if flags.precision {
        l := if l < precision then l else precision;
      }
      var shown := t[..if flags.precision then Min(|t|, precision) else |t|];
      assert shown == Shortened(t, precision, flags);
      assert flags.precision ==> l == |shown|;
      idx' := OutJustified(idx, shown, if flags.precision then l else |t|, width, flags.left);
    }

    /** Pre padding, the characters, post padding; l is the length the padding goes by. */
    method OutJustified(idx: nat, t: seq<byte>, l: nat, width: nat, left: bool) returns (idx': nat)
      requires l == |t| && Room(idx + |Justified(t, width, left)|)
      modifies this, buffer
      ensures Wrote(idx, Justified(t, width, left), idx')
    {
      hide After;
      ghost var before := State();
      idx' := idx;
      var missing := if l < width then width - l else 0;
      if !left {
        idx' := OutRepeated(SPACE, missing, idx');
        idx' := OutText(t, idx');
        AfterAfter(kind, before, idx, Repeat(SPACE, missing), t, maxlen);
      } else {
        idx' := OutText(t, idx');
        idx' := OutRepeated(SPACE, missing, idx');
        AfterAfter(kind, before, idx, t, Repeat(SPACE, missing), maxlen);
      }
    }

    // ----- formats

    /** The flags loop. */
    static method EvalFlags(format: seq<byte>, p: nat) returns (flags: Flags, next: nat)
      requires p <= |format|
      ensures Read(flags, next) == ReadFlags(format, p, NO_FLAGS)
    {
      flags, next := NO_FLAGS, p;
      while true
        invariant next <= |format| && ReadFlags(format, next, flags) == ReadFlags(format, p, NO_FLAGS)
        decreases |format| - next
      {
        var c := At(format, next);
        if c == '0' as int {
          flags := flags.(zeropad := true);
        } else if c == '-' as int {
          flags := flags.(left := true);
        } else if c == '+' as int {
          flags := flags.(plus := true);
        } else if c == ' ' as int {
          flags := flags.(space := true);
        } else if c == '#' as int {
          flags := flags.(hash := true);
        } else {
          return;
        }
        next := next + 1;
      }
    }

    /** _atoi. */
    static method Atoi(format: seq<byte>, p: nat) returns (i: word, next: nat)
      requires p <= |format|
      ensures Read(i, next) == ReadNumber(format, p, 0)
    {
      i, next := 0, p;
      while IsDigit(At(format, next))
        invariant next <= |format| && ReadNumber(format, next, i) == ReadNumber(format, p, 0)
        decreases |format| - next
      {
        i := ToWord(i * 10 + (At(format, next) - 48));
        next := next + 1;
      }
    }

    /** Everything from after the '%' to the specifier. */
    static method EvalConversion(format: seq<byte>, p: nat, args: seq<Arg>) returns (c: Parsed)
      requires p <= |format| && ReadConversion(format, p, args).Some?
      ensures Some(c) == ReadConversion(format, p, args)
    {
      hide ReadFlags, ReadWidth, ReadPrecision, ReadLength;
      var flags, q := EvalFlags(format, p);
      var width := EvalWidth(format, q, args);
      if width.left { flags := flags.(left := true); }
      q := width.next;
      var precision, taken: nat := 0, width.taken;
      if At(format, q) == '.' as int {
        flags := flags.(precision := true);
        var field := EvalPrecision(format, q + 1, args[width.taken..]);
        q, precision, taken := field.next, field.value, taken + field.taken;
      }
      var l := ReadLength(format, q, flags);
      c := Parsed(Conversion(l.value, width.value, precision, format[l.next]), l.next + 1, taken);
    }

    /** The width field; a negative '*' argument means left-justified. */
    static method EvalWidth(format: seq<byte>, p: nat, args: seq<Arg>) returns (f: Field)
      requires p <= |format| && ReadWidth(format, p, args).Some?
      ensures Some(f) == ReadWidth(format, p, args)
    {
      hide ReadNumber, ToLong, ToWord;
      f := Field(0, false, p, 0);
      if IsDigit(At(format, p)) {
        var n, next := Atoi(format, p);
        f := Field(n, false, next, 0);
      } else if At(format, p) == '*' as int {
        var w := ToLong(args[0].w);
        if w < 0 {
          f := Field(ToWord(-(w as int)), true, p + 1, 1);
        } else {
          f := Field(w, false, p + 1, 1);
        }
      }
    }

    /** The precision field; a '*' argument that is not positive counts as 0. */
    static method EvalPrecision(format: seq<byte>, p: nat, args: seq<Arg>) returns (f: Field)
      requires p <= |format| && ReadPrecision(format, p, args).Some?
      ensures Some(f) == ReadPrecision(format, p, args)
    {
      hide ReadNumber, ToLong, ToWord;
      f := Field(0, false, p, 0);
      if IsDigit(At(format, p)) {
        var n, next := Atoi(format, p);
        f := Field(n, false, next, 0);
      } else if At(format, p) == '*' as int {
        var w := ToLong(args[0].w);
        f := Field(if w > 0 then w else 0, false, p + 1, 1);
      }
    }

    /** The switch on the specifier. */
    method Convert(idx: nat, c: Conversion, arg: Option<Arg>) returns (idx': nat)
      requires ConversionText(c, arg).Some? && Short(arg)
      requires Room(idx + |ConversionText(c, arg).value|)
      modifies this, buffer
      ensures Wrote(idx, ConversionText(c, arg).value, idx')
    {
      hide After, NumberText, Justified, IntegerArg, IntegerFlags;
      if IsIntegerSpec(c.spec) {
        var n := IntegerArg(c.flags, c.spec, arg.value);
        idx' := NtoaLong(idx, n.value.magnitude, n.value.negative, BaseOf(c.spec), c.precision, c.width,
                         IntegerFlags(c.flags, c.spec));
      } else if c.spec == 'c' as int {
        idx' := OutJustified(idx, [arg.value.w % 256], 1, c.width, c.flags.left);
      } else if c.spec == 's' as int {
        idx' := OutString(idx, arg.value.s, c.width, c.precision, c.flags);
      } else if c.spec == 'p' as int {
        idx' := NtoaLong(idx, arg.value.w, false, 16, c.precision, 8, c.flags.(zeropad := true, upper := true));
      } else {
        idx' := Out(c.spec, idx);
      }
    }

    /**
      _vsnprintf. The text is the same for every output function and every bound; how much of it arrives
      is a matter of kind and maxlen alone. A NUL follows it, or takes the last place.
     */
    method Vsnprintf(format: seq<byte>, args: seq<Arg>) returns (r: long)
      requires NUL !in format && maxlen < WORD_LIMIT && forall a :: a in args ==> Short(Some(a))
      requires Output(format, 0, args).Some? && |Output(format, 0, args).value| < WORD_LIMIT
      requires Room(|Output(format, 0, args).value| + 1)
      modifies this, buffer
      ensures r == ToLong(|Output(format, 0, args).value|)
      ensures State() == Finished(kind, old(State()), Output(format, 0, args).value, maxlen)
    {
      hide After, ConversionText, ReadConversion, Output, ToLong, ToWord, TakesArgument;
      ghost var text, before := Output(format, 0, args).value, State();
      var idx, p, rest := 0, 0, args;
      ghost var done: seq<byte> := [];
      AfterNothing(kind, before, 0, maxlen);
      assert done + text == text;
      while p < |format|
        invariant p <= |format| && forall a :: a in rest ==> Short(Some(a))
        invariant Output(format, p, rest).Some? && text == done + Output(format, p, rest).value
        invariant idx == |done| && State() == After(kind, before, 0, done, maxlen)
        decreases |format| - p
      {
        ghost var here: seq<byte>;
        if format[p] != '%' as int {
          OutputLiteral(format, p, rest);
          here := [format[p]];
          idx := Out(format[p], idx);
          p := p + 1;
        } else {
          OutputConversion(format, p, rest);
          var c := EvalConversion(format, p + 1, rest);
          var arg := NextArg(c, rest);
          here := ConversionText(c.conversion, arg).value;
          assert arg.Some? ==> arg.value in rest;
          idx := Convert(idx, c.conversion, arg);
          p := c.next;
          rest := Remaining(c, rest);
        }
        AfterAfter(kind, before, 0, done, here, maxlen);
        ghost var left := Output(format, p, rest).value;
        assert done + (here + left) == (done + here) + left;
        done := done + here;
      }
      assert Output(format, p, rest).value == [] by { OutputEnd(format, rest); }
      assert done + [] == done;
      var at := if idx < maxlen then idx else ToWord(maxlen - 1);
      var _ := Out(NUL, at);
      r := ToLong(idx);
    }
  }

  lemma PaddedSides(t: seq<byte>, width: nat, flags: Flags)
    ensures Padded(t, width, flags) ==
      if flags.left then t + Repeat(SPACE, Max(0, width - |t|))
      else if flags.zeropad then t
      else Repeat(SPACE, Max(0, width - |t|)) + t
  {
  }

  /** Strings are shorter than the address space. */
  predicate Short(arg: Option<Arg>) {
    arg.Some? && arg.value.TextArg? ==> |arg.value.s| < WORD_LIMIT
  }

  function Shortened(t: seq<byte>, precision: nat, flags: Flags): seq<byte> {
    if flags.precision then t[..Min(|t|, precision)] else t
  }

  /** The text from index 0 on, then a NUL right after it or at the last place. */
  function Finished(kind: Kind, s: Sent, text: seq<byte>, maxlen: nat): Sent {
    After(kind, After(kind, s, 0, text, maxlen), if |text| < maxlen then |text| else ToWord(maxlen - 1), [NUL], maxlen)
  }

  lemma FittingFrom(value: nat, base: nat, flags: Flags, ds: seq<nat>, t: seq<byte>)
    requires base >= 2 && ds == Digits(value, base) && (!flags.precision || value != 0)
    requires |t| == Min(|ds|, SCRATCH)
    requires forall k :: 0 <= k < |t| ==> t[k] == DigitChar(ds[|ds| - 1 - k], flags.upper)
    ensures Reversed(t) == FittingDigits(value, base, flags)
  {
    hide Digits, DigitChar;
  }

  lemma FittingNone(value: nat, base: nat, flags: Flags)
    requires base >= 2 && flags.precision && value == 0
    ensures FittingDigits(value, base, flags) == []
  {
  }

  /** The part of the text that _ntoa_format is responsible for. */
  function FormatText(digits: seq<byte>, negative: bool, base: nat, prec: nat, width: nat, flags: Flags): seq<byte>
    requires |digits| <= SCRATCH
  {
    Padded(Dressed(digits, negative, base, prec, width, flags), FillWidth(negative, width, flags), flags)
  }

  lemma NumberTextFormats(value: nat, negative: bool, base: nat, prec: nat, width: nat, flags: Flags)
    requires base >= 2
    ensures var fl := if value == 0 then flags.(hash := false) else flags;
      NumberText(value, negative, base, prec, width, flags) ==
        FormatText(FittingDigits(value, base, fl), negative, base, prec, width, fl)
  {
    hide Padded, Dressed, FillWidth, FittingDigits;
  }

  /** before with the first min(|text|, n - 1) characters of text and a NUL, and nothing else changed. */
  ghost predicate BoundedCopy(before: seq<byte>, after: seq<byte>, text: seq<byte>, n: nat) {
    if n == 0 then after == before
    else
      var m := Min(|text|, n - 1);
      && |after| == |before| > m
      && after[..m] == text[..m]
      && after[m] == NUL
      && after[m + 1..] == before[m + 1..]
  }

  lemma FinishedIsBoundedCopy(before: seq<byte>, text: seq<byte>, n: word)
    requires Min(|text| + 1, n) <= |before|
    ensures BoundedCopy(before, Finished(ToBuffer, Sent(before, []), text, n).buffer, text, n)
  {
    var after := Finished(ToBuffer, Sent(before, []), text, n).buffer;
    if n == 0 {
      assert after == before;
    } else {
      assert ToWord(n - 1) == n - 1;
      var m := Min(|text|, n - 1);
      assert after[..m] == text[..m] && after[m + 1..] == before[m + 1..];
    }
  }

  /**
    snprintf_ (ISO C11, section 7.21.6.5): the result is the length of the unbounded text whatever the
    bound, and the buffer is a bounded copy of it.
   */
  method Snprintf(buffer: array?<byte>, count: word, format: seq<byte>, args: seq<Arg>) returns (r: long)
    requires NUL !in format && forall a :: a in args ==> Short(Some(a))
    requires Output(format, 0, args).Some? && |Output(format, 0, args).value| < WORD_LIMIT
    requires buffer != null ==> Min(|Output(format, 0, args).value| + 1, count) <= buffer.Length
    modifies buffer
    ensures r == ToLong(|Output(format, 0, args).value|)
    ensures buffer != null ==> BoundedCopy(old(buffer[..]), buffer[..], Output(format, 0, args).value, count)
  {
    hide Finished, BoundedCopy, Output, ToLong;
    if buffer == null {
      var nothing := new byte[0];
      var engine := new Engine(ToNull, nothing, count);
      r := engine.Vsnprintf(format, args);
    } else {
      var engine := new Engine(ToBuffer, buffer, count);
      r := engine.Vsnprintf(format, args);
      FinishedIsBoundedCopy(old(buffer[..]), Output(format, 0, args).value, count);
    }
  }

  /** printf_ and fctprintf: every character but NUL is forwarded, without bound or terminator. */
  method PrintfTo(format: seq<byte>, args: seq<Arg>) returns (r: long, out: seq<byte>)
    requires NUL !in format && forall a :: a in args ==> Short(Some(a))
    requires Output(format, 0, args).Some? && |Output(format, 0, args).value| < WORD_LIMIT
    ensures r == ToLong(|Output(format, 0, args).value|)
    ensures out == NonNul(Output(format, 0, args).value)
  {
    hide Output, ToLong;
    var nothing := new byte[1];
    var engine := new Engine(ToStream, nothing, WORD_LIMIT - 1);
    r := engine.Vsnprintf(format, args);
    out := engine.stream;
    assert NonNul([NUL]) == NonNul([]) == [];
  }
}
