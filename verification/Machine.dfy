/** Machine types of the ARM target: 8-bit unsigned `char`, 32-bit `int` and `long`. */
module Machine {

  type byte = b: int | 0 <= b < 256
  type word = w: int | 0 <= w < 0x1_0000_0000
  type dword = d: int | 0 <= d < 0x1_0000_0000_0000_0000
  type long = n: int | -0x8000_0000 <= n < 0x8000_0000
  type longlong = n: int | -0x8000_0000_0000_0000 <= n < 0x8000_0000_0000_0000

  const INT_MAX := 0x7fff_ffff
  const WORD_LIMIT := 0x1_0000_0000
  const DWORD_LIMIT := 0x1_0000_0000_0000_0000

  const NUL: byte := 0
  const SPACE: byte := ' ' as int
  const PLUS: byte := '+' as int
  const MINUS: byte := '-' as int
  const POINT: byte := '.' as int
  const ZERO: byte := '0' as int

  /** Conversion to `unsigned long`. */
  function ToWord(x: int): word {
    x % WORD_LIMIT
  }

  /** Conversion to `char` or `uint8_t`. */
  function LowByte(x: int): byte {
    x % 256
  }

  /** Conversion to a signed 32-bit integer. */
  function ToLong(x: int): long {
    var w := x % WORD_LIMIT;
    if w < 0x8000_0000 then w else w - WORD_LIMIT
  }

  predicate IsDigit(c: int) {
    '0' as int <= c <= '9' as int
  }

  /** `isspace` of the C locale. */
  predicate IsSpace(c: byte) {
    c == 32 || 9 <= c <= 13
  }

  /** Space, tab, line feed, vertical tab, form feed, carriage return. */
  lemma SixSpaces(c: byte)
    ensures IsSpace(c) <==> c == 32 || c == 9 || c == 10 || c == 11 || c == 12 || c == 13
  {
  }

  /** Conversions keep the residue; the types of their results say the range. */
  lemma Residues(x: int)
    ensures (x - ToWord(x)) % 0x1_0000_0000 == 0 && (x - ToLong(x)) % 0x1_0000_0000 == 0 && (x - LowByte(x)) % 256 == 0
  {
  }

  datatype Option<+T> = None | Some(value: T)

  function Reversed<T>(s: seq<T>): (r: seq<T>)
    ensures |r| == |s|
    ensures forall i :: 0 <= i < |s| ==> r[i] == s[|s| - 1 - i]
  {
    seq(|s|, i requires 0 <= i < |s| => s[|s| - 1 - i])
  }

  lemma ReversedSnoc<T>(s: seq<T>, x: T)
    ensures Reversed(s + [x]) == [x] + Reversed(s)
  {
  }

  function Repeat<T>(x: T, n: nat): (r: seq<T>)
    ensures |r| == n
    ensures forall i :: 0 <= i < n ==> r[i] == x
  {
    seq(n, _ => x)
  }

  /** s with t written over it from position at on. */
  function Patch<T>(s: seq<T>, at: nat, t: seq<T>): (r: seq<T>)
    requires at + |t| <= |s|
    ensures |r| == |s|
  {
    s[..at] + t + s[at + |t|..]
  }

  lemma PatchPatch<T>(s: seq<T>, at: nat, t: seq<T>, u: seq<T>)
    requires at + |t| + |u| <= |s|
    ensures Patch(Patch(s, at, t), at + |t|, u) == Patch(s, at, t + u)
  {
    var p := Patch(s, at, t);
    assert p[..at + |t|] == s[..at] + t;
    assert p[at + |t| + |u|..] == s[at + |t| + |u|..];
  }

  lemma PatchAround<T>(s: seq<T>, at: nat, t: seq<T>)
    requires at + |t| <= |s|
    ensures Patch(s, at, t)[..at] == s[..at]
    ensures Patch(s, at, t)[at..at + |t|] == t
    ensures Patch(s, at, t)[at + |t|..] == s[at + |t|..]
  {
  }

  lemma PatchNothing<T>(s: seq<T>, at: nat)
    requires at <= |s|
    ensures Patch(s, at, []) == s
  {
  }

  /** Writing one more element extends the patch by it. */
  lemma PatchSnoc<T>(s: seq<T>, at: nat, t: seq<T>, x: T)
    requires at + |t| < |s|
    ensures Patch(s, at, t)[at + |t| := x] == Patch(s, at, t + [x])
  {
  }

  lemma LongWordLong(x: long)
    ensures ToLong(ToWord(x)) == x
    ensures x >= 0 ==> ToWord(x) == x
    ensures x < 0 ==> ToWord(-(x as int)) == -(x as int)
  {
  }

  /** The C string at the front of t: everything before its first NUL. */
  function UpToNul(t: seq<byte>): (r: seq<byte>)
    ensures r <= t
  {
    if t == [] || t[0] == NUL then [] else [t[0]] + UpToNul(t[1..])
  }

  lemma UpToNulWhole(t: seq<byte>)
    requires NUL !in t
    ensures UpToNul(t) == t
  {
  }

  lemma UpToNulAt(t: seq<byte>, k: nat)
    requires k < |t| && t[k] == NUL && NUL !in t[..k]
    ensures UpToNul(t) == t[..k]
  {
    if k > 0 {
      assert t[..k][0] == t[0] && t[1..][..k - 1] == t[..k][1..];
      UpToNulAt(t[1..], k - 1);
    }
  }

  lemma UpToNulTerminated(t: seq<byte>)
    ensures UpToNul(t + [NUL]) == UpToNul(t)
  {
    if t != [] {
      assert (t + [NUL])[1..] == t[1..] + [NUL];
    }
  }

  function Min(a: int, b: int): int {
    if a < b then a else b
  }

  function Max(a: int, b: int): int {
    if a < b then b else a
  }
}
