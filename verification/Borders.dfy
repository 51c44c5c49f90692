/** Suffix and border facts behind the streaming matcher. */
module Borders {
  import opened Machine

  ghost predicate EndsWith(s: seq<byte>, p: seq<byte>) {
    |p| <= |s| && s[|s| - |p|..] == p
  }

  /** k is the length of the longest proper prefix of pat that s ends with, and s does not end with pat. */
  ghost predicate Tracks(pat: seq<byte>, k: nat, s: seq<byte>) {
    && k < |pat|
    && EndsWith(s, pat[..k])
    && forall j :: k < j <= |pat| ==> !EndsWith(s, pat[..j])
  }

  lemma TracksFresh(pat: seq<byte>)
    requires pat != []
    ensures Tracks(pat, 0, [])
  {
  }

  lemma TracksUnique(pat: seq<byte>, k: nat, l: nat, s: seq<byte>)
    requires Tracks(pat, k, s) && Tracks(pat, l, s)
    ensures k == l
  {
  }

  lemma EndsWithSnoc(s: seq<byte>, c: byte, p: seq<byte>)
    requires p != []
    ensures EndsWith(s + [c], p) <==> p[|p| - 1] == c && EndsWith(s, p[..|p| - 1])
  {
    var init := p[..|p| - 1];
    assert p == init + [p[|p| - 1]];
    if |p| <= |s| + 1 {
      var from := |s| + 1 - |p|;
      assert (s + [c])[from..] == s[from..] + [c];
      if s[from..] + [c] == p {
        assert (s[from..] + [c])[..|p| - 1] == s[from..];
        assert (s[from..] + [c])[|p| - 1] == c;
      }
    }
  }

  /** Of two suffixes the shorter is a suffix of the longer. */
  lemma EndsWithInner(s: seq<byte>, p: seq<byte>, q: seq<byte>)
    requires EndsWith(s, p) && |q| <= |p|
    ensures EndsWith(s, q) <==> EndsWith(p, q)
  {
    assert s[|s| - |p|..][|p| - |q|..] == s[|s| - |q|..];
  }

  lemma PrefixInit(pat: seq<byte>, j: nat)
    requires 1 <= j <= |pat|
    ensures pat[..j][..j - 1] == pat[..j - 1] && pat[..j][j - 1] == pat[j - 1]
  {
  }

  /** After c only prefixes up to k + 1 can be matched, and k + 1 only by c itself. */
  lemma StepCandidates(pat: seq<byte>, k: nat, s: seq<byte>, c: byte, j: nat)
    requires Tracks(pat, k, s) && 1 <= j <= |pat|
    requires j > k + 1 || (j == k + 1 && pat[k] != c)
    ensures !EndsWith(s + [c], pat[..j])
  {
    PrefixInit(pat, j);
    EndsWithSnoc(s, c, pat[..j]);
  }

  lemma StepMatch(pat: seq<byte>, k: nat, s: seq<byte>, c: byte)
    requires Tracks(pat, k, s) && pat[k] == c
    ensures k + 1 == |pat| ==> EndsWith(s + [c], pat)
    ensures k + 1 < |pat| ==> Tracks(pat, k + 1, s + [c])
  {
    PrefixInit(pat, k + 1);
    EndsWithSnoc(s, c, pat[..k + 1]);
    assert pat[..|pat|] == pat;
    forall j | k + 1 < j <= |pat|
      ensures !EndsWith(s + [c], pat[..j])
    {
      StepCandidates(pat, k, s, c, j);
    }
  }

  /** Index i survives the walk back exactly when c fits and pat[..i] is a border of pat[..k]. */
  lemma StepBorder(pat: seq<byte>, k: nat, s: seq<byte>, c: byte, i: nat)
    requires Tracks(pat, k, s) && i < k
    ensures EndsWith(s + [c], pat[..i + 1]) <==>
      pat[i] == c && forall x :: 0 <= x < i ==> pat[x] == pat[x + (k - i)]
  {
    PrefixInit(pat, i + 1);
    EndsWithSnoc(s, c, pat[..i + 1]);
    EndsWithInner(s, pat[..k], pat[..i]);
    var tail := pat[..k][k - i..];
    assert forall x :: 0 <= x < i ==> tail[x] == pat[x + (k - i)];
    if forall x :: 0 <= x < i ==> pat[x] == pat[x + (k - i)] {
      assert tail == pat[..i];
    } else {
      var x :| 0 <= x < i && pat[x] != pat[x + (k - i)];
      assert tail[x] != pat[..i][x];
    }
  }

  /** No prefix of pat longer than i can be matched at the end of s. */
  ghost predicate Dead(pat: seq<byte>, i: nat, s: seq<byte>) {
    forall j :: i < j <= |pat| ==> !EndsWith(s, pat[..j])
  }

  /** Agreement of pat[..i] with the stretch diff further on. */
  ghost predicate Overlaps(pat: seq<byte>, i: nat, diff: nat) {
    i + diff <= |pat| && forall x :: 0 <= x < i ==> pat[x] == pat[x + diff]
  }

  lemma StepMismatch(pat: seq<byte>, k: nat, s: seq<byte>, c: byte)
    requires Tracks(pat, k, s) && pat[k] != c
    ensures Dead(pat, k, s + [c])
  {
    forall j | k < j <= |pat|
      ensures !EndsWith(s + [c], pat[..j])
    {
      StepCandidates(pat, k, s, c, j);
    }
  }

  lemma StepLands(pat: seq<byte>, k: nat, s: seq<byte>, c: byte, i: nat)
    requires Tracks(pat, k, s) && i < k && Dead(pat, i + 1, s + [c])
    requires pat[i] == c && Overlaps(pat, i, k - i)
    ensures Tracks(pat, i + 1, s + [c])
  {
    StepBorder(pat, k, s, c, i);
  }

  lemma StepSkips(pat: seq<byte>, k: nat, s: seq<byte>, c: byte, i: nat)
    requires Tracks(pat, k, s) && i < k && Dead(pat, i + 1, s + [c])
    requires pat[i] != c || !Overlaps(pat, i, k - i)
    ensures Dead(pat, i, s + [c])
  {
    StepBorder(pat, k, s, c, i);
  }

  lemma StepEmpty(pat: seq<byte>, s: seq<byte>)
    requires pat != [] && Dead(pat, 0, s)
    ensures Tracks(pat, 0, s)
  {
  }

  lemma Unfinished(pat: seq<byte>, k: nat, s: seq<byte>)
    requires Tracks(pat, k, s)
    ensures !EndsWith(s, pat)
  {
    assert pat[..|pat|] == pat;
  }
}
