/** What `parseInt` should make of a byte stream, and how it relates to the decimal printers. */
module IntegerText {
  import opened Machine
  import opened Numeral
  import opened Itoa

  datatype LookaheadMode = SkipAll | SkipNone | SkipWhitespace

  /** Undefined: some signed 32-bit expression overflows. */
  datatype Parsed = Parsed(value: long) | Undefined

  /** '0' is subtracted last, so 48 of the range of `long` is lost. */
  const PARSE_LIMIT := INT_MAX - 48

  predicate Starts(c: byte, detectDecimal: bool) {
    c == MINUS || IsDigit(c) || (detectDecimal && c == POINT)
  }

  predicate Skips(lookahead: LookaheadMode, c: byte) {
    match lookahead
    case SkipAll => true
    case SkipNone => false
    case SkipWhitespace => c == 32 || c == 9 || c == 13 || c == 10
  }

  /** k is the number of bytes looked past: all skippable, none starting a number, and maximal. */
  ghost predicate LooksPast(s: seq<byte>, lookahead: LookaheadMode, detectDecimal: bool, k: nat) {
    && k <= |s|
    && (forall i :: 0 <= i < k ==> !Starts(s[i], detectDecimal) && Skips(lookahead, s[i]))
    && (k < |s| ==> Starts(s[k], detectDecimal) || !Skips(lookahead, s[k]))
  }

  // ----- the same with the modes and characters written out

  predicate IsBlank(c: byte) {
    c == 32 || c == 9 || c == 13 || c == 10
  }

  /** What every lookahead mode stops at. */
  predicate IsStop(c: byte, detectDecimal: bool) {
    c == 45 || 48 <= c <= 57 || (detectDecimal && c == 46)
  }

  /** Bytes that parseInt passes over in front of a number. */
  predicate Passable(before: seq<byte>, lookahead: LookaheadMode) {
    match lookahead
    case SkipNone => before == []
    case SkipWhitespace => forall c :: c in before ==> IsBlank(c)
    case SkipAll => forall c :: c in before ==> !IsStop(c, false)
  }

  lemma StopsAreStarts(c: byte, detectDecimal: bool)
    ensures Starts(c, detectDecimal) <==> IsStop(c, detectDecimal)
    ensures IsBlank(c) ==> !IsStop(c, detectDecimal)
  {
  }

  /** Without lookahead nothing is passed over. */
  lemma SkipNoneTakesNothing(s: seq<byte>, detectDecimal: bool, k: nat)
    ensures LooksPast(s, SkipNone, detectDecimal, k) <==> k == 0
  {
    if k == 0 {
      assert LooksPast(s, SkipNone, detectDecimal, 0);
    } else if k <= |s| {
      assert !Skips(SkipNone, s[0]);
    }
  }

  /** With white space lookahead exactly the blanks in front are passed over. */
  lemma SkipWhitespaceTakesBlanks(s: seq<byte>, detectDecimal: bool, k: nat)
    ensures LooksPast(s, SkipWhitespace, detectDecimal, k) <==>
      k <= |s| && (forall i :: 0 <= i < k ==> IsBlank(s[i])) && (k < |s| ==> !IsBlank(s[k]))
  {
  }

  /** With full lookahead everything up to the first stop is passed over. */
  lemma SkipAllTakesToStop(s: seq<byte>, detectDecimal: bool, k: nat)
    ensures LooksPast(s, SkipAll, detectDecimal, k) <==>
      k <= |s| && (forall i :: 0 <= i < k ==> !IsStop(s[i], detectDecimal)) && (k < |s| ==> IsStop(s[k], detectDecimal))
  {
  }

  lemma LooksPastUnique(s: seq<byte>, lookahead: LookaheadMode, detectDecimal: bool, k: nat, l: nat)
    requires LooksPast(s, lookahead, detectDecimal, k) && LooksPast(s, lookahead, detectDecimal, l)
    ensures k == l
  {
    var atK := if k < |s| then Starts(s[k], detectDecimal) else true;
    var atL := if l < |s| then Starts(s[l], detectDecimal) else true;
  }

  /** The bytes of one number: any first byte, then digits and ignored bytes as far as they go. */
  ghost predicate NumberRun(s: seq<byte>, ignored: byte, m: nat) {
    && 1 <= m <= |s|
    && (forall i :: 1 <= i < m ==> IsDigit(s[i]) || s[i] == ignored)
    && (m < |s| ==> !IsDigit(s[m]) && s[m] != ignored)
  }

  /** The decimal digits of t that are not ignored. */
  function CountedDigits(t: seq<byte>, ignored: byte): (ds: seq<nat>)
    ensures forall i :: 0 <= i < |ds| ==> ds[i] < 10
  {
    if t == [] then []
    else
      var c := t[|t| - 1];
      var ds := CountedDigits(t[..|t| - 1], ignored);
      if IsDigit(c) && c != ignored then ds + [c - 48] else ds
  }

  function Number(t: seq<byte>, ignored: byte): nat {
    Value(CountedDigits(t, ignored), 10)
  }

  /**
    The result of parseInt and the number of bytes taken: nothing starts a number after the
    bytes looked past, or a run of m bytes denotes a number that fits or does not.
   */
  ghost predicate Parses(s: seq<byte>, lookahead: LookaheadMode, ignored: byte, r: Parsed, taken: nat) {
    exists k: nat :: LooksPast(s, lookahead, false, k) && ParsesAt(s, ignored, r, taken, k)
  }

  ghost predicate ParsesAt(s: seq<byte>, ignored: byte, r: Parsed, taken: nat, k: nat)
    requires k <= |s|
  {
    if k == |s| || !Starts(s[k], false) then r == Parsed(0) && taken == k
    else exists m: nat :: RunAt(s[k..], ignored, r, m) && (r.Parsed? ==> taken == k + m)
  }

  /** The run of m bytes at the front of s is the number r reports. */
  ghost predicate RunAt(s: seq<byte>, ignored: byte, r: Parsed, m: nat) {
    NumberRun(s, ignored, m) && RunParses(s[..m], ignored, r)
  }

  ghost predicate RunParses(run: seq<byte>, ignored: byte, r: Parsed)
    requires run != []
  {
    var n := Number(run, ignored);
    if n > PARSE_LIMIT then r == Undefined
    else r == Parsed(if run[0] == MINUS && ignored != MINUS then -(n as int) else n)
  }

  /** One more byte: the number stays, or is shifted by the digit. */
  lemma NumberStep(t: seq<byte>, ignored: byte, c: byte)
    ensures Number(t + [c], ignored) ==
      if IsDigit(c) && c != ignored then Number(t, ignored) * 10 + c - 48 else Number(t, ignored)
  {
    assert (t + [c])[..|t|] == t;
    if IsDigit(c) && c != ignored {
      ValueSnoc(CountedDigits(t, ignored), c - 48, 10);
    }
  }

  /** A number never shrinks as the run gets longer, so overflow cannot be undone. */
  lemma {:induction false} NumberGrows(t: seq<byte>, ignored: byte, i: nat)
    requires i <= |t|
    ensures Number(t[..i], ignored) <= Number(t, ignored)
    decreases |t|
  {
    if i < |t| {
      var init := t[..|t| - 1];
      NumberGrows(init, ignored, i);
      assert init[..i] == t[..i] && init + [t[|t| - 1]] == t;
      NumberStep(init, ignored, t[|t| - 1]);
    } else {
      assert t[..i] == t;
    }
  }

  lemma {:induction false} CountedOfDigits(t: seq<byte>, ignored: byte)
    requires forall i :: 0 <= i < |t| ==> IsDigit(t[i]) && t[i] != ignored
    ensures CountedDigits(t, ignored) == CharDigits(t)
  {
    if t != [] {
      CountedOfDigits(t[..|t| - 1], ignored);
    }
  }

  lemma CountedAfterSign(t: seq<byte>, ignored: byte)
    ensures CountedDigits([MINUS] + t, ignored) == CountedDigits(t, ignored)
  {
    if t != [] {
      assert ([MINUS] + t)[..|t|] == [MINUS] + t[..|t| - 1];
      CountedAfterSign(t[..|t| - 1], ignored);
    } else {
      assert ([MINUS] + t)[..0] == [];
    }
  }

  /** The text of a long denotes its magnitude and shows its sign. */
  lemma TextDenotes(n: long, ignored: byte)
    requires !IsDigit(ignored) && ignored != MINUS
    ensures LongText(n, 10) != []
    ensures Number(LongText(n, 10), ignored) == if n < 0 then -(n as int) else n
    ensures LongText(n, 10)[0] == MINUS <==> n < 0
    ensures forall i :: 1 <= i < |LongText(n, 10)| ==> IsDigit(LongText(n, 10)[i])
    ensures Starts(LongText(n, 10)[0], false)
  {
    hide Digits;
    LongWordLong(n);
    var v := if n < 0 then -(n as int) else n;
    var t := Text(v, 10, false);
    TextChars(v, 10, false);
    CountedOfDigits(t, ignored);
    CountedAfterSign(t, ignored);
    DecodeText(v, 10, false);
  }

  /** The bytes of t that are digits and not ignored. */
  function Kept(t: seq<byte>, ignored: byte): seq<byte> {
    if t == [] then []
    else (if 48 <= t[0] <= 57 && t[0] != ignored then [t[0]] else []) + Kept(t[1..], ignored)
  }

  lemma {:induction false} KeptSnoc(t: seq<byte>, c: byte, ignored: byte)
    ensures Kept(t + [c], ignored) == Kept(t, ignored) + if 48 <= c <= 57 && c != ignored then [c] else []
    decreases |t|
  {
    if t == [] {
      assert [c][1..] == [];
    } else {
      assert (t + [c])[1..] == t[1..] + [c];
      KeptSnoc(t[1..], c, ignored);
    }
  }

  /** The number of a run is what its kept digits decode to. */
  lemma {:induction false} NumberIsKept(t: seq<byte>, ignored: byte)
    ensures Number(t, ignored) == Decode(Kept(t, ignored), 10)
    decreases |t|
  {
    hide Number, Decode, Kept;
    if t == [] {
      NothingKept(ignored);
    } else {
      var init, c := t[..|t| - 1], t[|t| - 1];
      assert t == init + [c];
      NumberIsKept(init, ignored);
      NumberStep(init, ignored, c);
      KeptSnoc(init, c, ignored);
      assert Kept(init, ignored) + [] == Kept(init, ignored);
      if IsDigit(c) {
        DecodeDigit(Kept(init, ignored), c);
      }
    }
  }

  lemma NothingKept(ignored: byte)
    ensures Number([], ignored) == Decode(Kept([], ignored), 10)
  {
    assert CharDigits([]) == [];
  }

  lemma DecodeDigit(t: seq<byte>, c: byte)
    requires IsDigit(c)
    ensures Decode(t + [c], 10) == Decode(t, 10) * 10 + c - 48
  {
    assert CharDigits(t + [c]) == CharDigits(t) + [c - 48];
    ValueSnoc(CharDigits(t), c - 48, 10);
  }

  /**
    parseInt on any stream that holds a number: passable bytes, a run that begins with '-' or a digit and goes on
    with digits and ignored bytes, and something else. It reports what the kept digits of the run decode to, with
    the sign of a '-' that is not ignored, if that is at most 2147483599, and takes exactly up to the end of the run.
   */
  lemma ParsesRun(before: seq<byte>, run: seq<byte>, after: seq<byte>, lookahead: LookaheadMode, ignored: byte)
    requires Passable(before, lookahead) && run != [] && IsStop(run[0], false)
    requires forall i :: 1 <= i < |run| ==> 48 <= run[i] <= 57 || run[i] == ignored
    requires after != [] ==> !(48 <= after[0] <= 57) && after[0] != ignored
    ensures var s, n := before + run + after, Decode(Kept(run, ignored), 10);
      && (n <= 2147483599 ==>
            Parses(s, lookahead, ignored, Parsed(if run[0] == 45 && ignored != 45 then -(n as int) else n), |s| - |after|))
      && (forall taken: nat :: n > 2147483599 ==> Parses(s, lookahead, ignored, Undefined, taken))
  {
    hide Number, Decode;
    var s, k, n := before + run + after, |before|, Decode(Kept(run, ignored), 10);
    NumberIsKept(run, ignored);
    assert s[k..] == run + after && s[k] == run[0] && (run + after)[..|run|] == run;
    PassableIsPast(s, before, lookahead, k);
    var r := if n > 2147483599 then Undefined else Parsed(if run[0] == 45 && ignored != 45 then -(n as int) else n);
    assert RunAt(s[k..], ignored, r, |run|);
    forall taken: nat | r.Parsed? ==> taken == k + |run|
      ensures Parses(s, lookahead, ignored, r, taken)
    {
      assert ParsesAt(s, ignored, r, taken, k);
    }
  }

  lemma PassableIsPast(s: seq<byte>, before: seq<byte>, lookahead: LookaheadMode, k: nat)
    requires Passable(before, lookahead) && k == |before| < |s| && s[..k] == before && IsStop(s[k], false)
    ensures LooksPast(s, lookahead, false, k)
  {
    forall i | 0 <= i < k
      ensures s[i] in before
    {
      assert s[..k][i] == s[i];
    }
    match lookahead
    case SkipNone => SkipNoneTakesNothing(s, false, k);
    case SkipWhitespace => SkipWhitespaceTakesBlanks(s, false, k);
    case SkipAll => SkipAllTakesToStop(s, false, k);
  }

  /** parseInt on a stream whose next byte after the passable ones starts no number, or that has no more. */
  lemma ParsesNothing(before: seq<byte>, after: seq<byte>, lookahead: LookaheadMode, ignored: byte)
    requires Passable(before, lookahead)
    requires after != [] ==> !IsStop(after[0], false) && !Passable([after[0]], lookahead)
    ensures Parses(before + after, lookahead, ignored, Parsed(0), |before|)
  {
    var s, k := before + after, |before|;
    forall i | 0 <= i < k
      ensures s[i] in before && (lookahead.SkipWhitespace? ==> !IsStop(s[i], false))
    {
      assert s[i] == before[i];
    }
    assert LooksPast(s, lookahead, false, k);
    assert ParsesAt(s, ignored, Parsed(0), k, k);
  }

  /** With full lookahead a stream without '-' and digit is used up for 0, and only an empty one is left as it is. */
  lemma ParsesSkipAll(s: seq<byte>, ignored: byte, r: Parsed, taken: nat)
    requires Parses(s, SkipAll, ignored, r, taken)
    ensures (forall c :: c in s ==> c != 45 && !(48 <= c <= 57)) ==> r == Parsed(0) && taken == |s|
    ensures r.Parsed? && taken == 0 ==> s == []
  {
    var k: nat :| LooksPast(s, SkipAll, false, k) && ParsesAt(s, ignored, r, taken, k);
    SkipAllTakesToStop(s, false, k);
    assert k < |s| ==> s[k] in s;
  }

  /**
    parseInt undoes ltoa(n, 10) and print(n, 10), exactly for |n| <= 2^31 - 1 - 48; it stops right
    after the text, past anything the lookahead mode skips before it.
   */
  lemma ParsesPrinted(n: long, lookahead: LookaheadMode, ignored: byte, before: seq<byte>, after: seq<byte>)
    requires !IsDigit(ignored) && ignored != MINUS && Passable(before, lookahead)
    requires after != [] ==> !IsDigit(after[0]) && after[0] != ignored
    ensures var s := before + LongText(n, 10) + after;
      && (-2147483599 <= n <= 2147483599 ==> Parses(s, lookahead, ignored, Parsed(n), |s| - |after|))
      && (forall taken: nat :: !(-2147483599 <= n <= 2147483599) ==> Parses(s, lookahead, ignored, Undefined, taken))
  {
    hide Number, Kept, LongText, Parses;
    TextDenotes(n, ignored);
    NumberIsKept(LongText(n, 10), ignored);
    ParsesRun(before, LongText(n, 10), after, lookahead, ignored);
  }

  /** What parseInt reports is determined by the stream. */
  lemma ParsesUnique(s: seq<byte>, lookahead: LookaheadMode, ignored: byte, r: Parsed, taken: nat, r': Parsed, taken': nat)
    requires Parses(s, lookahead, ignored, r, taken) && Parses(s, lookahead, ignored, r', taken')
    ensures r == r' && (r.Parsed? ==> taken == taken')
  {
    hide ParsesAt, RunAt;
    var k: nat :| LooksPast(s, lookahead, false, k) && ParsesAt(s, ignored, r, taken, k);
    var k': nat :| LooksPast(s, lookahead, false, k') && ParsesAt(s, ignored, r', taken', k');
    LooksPastUnique(s, lookahead, false, k, k');
    ParsesAtUnique(s, ignored, r, taken, r', taken', k);
  }

  lemma ParsesAtUnique(s: seq<byte>, ignored: byte, r: Parsed, taken: nat, r': Parsed, taken': nat, k: nat)
    requires k <= |s| && ParsesAt(s, ignored, r, taken, k) && ParsesAt(s, ignored, r', taken', k)
    ensures r == r' && (r.Parsed? ==> taken == taken')
  {
    hide NumberRun, Number;
    if k < |s| && Starts(s[k], false) {
      var m: nat :| RunAt(s[k..], ignored, r, m) && (r.Parsed? ==> taken == k + m);
      var m': nat :| RunAt(s[k..], ignored, r', m') && (r'.Parsed? ==> taken' == k + m');
      RunUnique(s[k..], ignored, m, m');
    }
  }

  lemma RunUnique(s: seq<byte>, ignored: byte, m: nat, m': nat)
    requires NumberRun(s, ignored, m) && NumberRun(s, ignored, m')
    ensures m == m'
  {
    var atM := if m < |s| then IsDigit(s[m]) else false;
    var atM' := if m' < |s| then IsDigit(s[m']) else false;
  }

  lemma NumberOfNothing(ignored: byte)
    ensures Number([], ignored) == 0
  {
  }

  lemma RunExists(s: seq<byte>, ignored: byte, m: nat) returns (all: nat)
    requires 1 <= m <= |s|
    requires forall i :: 1 <= i < m ==> IsDigit(s[i]) || s[i] == ignored
    ensures m <= all <= |s| && NumberRun(s, ignored, all)
    decreases |s| - m
  {
    if m < |s| && (IsDigit(s[m]) || s[m] == ignored) {
      all := RunExists(s, ignored, m + 1);
    } else {
      all := m;
    }
  }

  /** Once a prefix of the run is too large, the whole run is. */
  lemma OverflowIsUndefined(s: seq<byte>, ignored: byte, m: nat)
    requires 1 <= m <= |s|
    requires forall i :: 1 <= i < m ==> IsDigit(s[i]) || s[i] == ignored
    requires Number(s[..m], ignored) > PARSE_LIMIT
    ensures exists all: nat :: RunAt(s, ignored, Undefined, all)
  {
    hide Number;
    var all := RunExists(s, ignored, m);
    NumberGrows(s[..all], ignored, m);
    assert s[..all][..m] == s[..m];
    assert RunAt(s, ignored, Undefined, all);
  }
}
