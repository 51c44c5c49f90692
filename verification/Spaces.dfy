/** Text without the white space around it. */
module Spaces {
  import opened Machine

  ghost predicate AllSpace(t: seq<byte>) {
    forall i :: 0 <= i < |t| ==> IsSpace(t[i])
  }

  ghost predicate TrimmedBy(text: seq<byte>, r: seq<byte>, a: seq<byte>, b: seq<byte>) {
    && text == a + r + b && AllSpace(a) && AllSpace(b)
    && (r != [] ==> !IsSpace(r[0]) && !IsSpace(r[|r| - 1]))
  }

  /** r is text without the white space around it: nothing but space is lost, none is left at the ends. */
  ghost predicate Trimmed(text: seq<byte>, r: seq<byte>) {
    exists a, b :: TrimmedBy(text, r, a, b)
  }

  lemma TrimmedUnique(text: seq<byte>, r: seq<byte>, r': seq<byte>)
    requires Trimmed(text, r) && Trimmed(text, r')
    ensures r == r'
  {
    var a, b :| TrimmedBy(text, r, a, b);
    var a', b' :| TrimmedBy(text, r', a', b');
    if r' != [] { TrimmedInside(text, r, a, b, r', a', b'); }
    if r != [] {
      TrimmedInside(text, r', a', b', r, a, b);
      assert r == text[|a|..|a| + |r|] && r' == text[|a'|..|a'| + |r'|];
    }
  }

  lemma TrimmedInside(text: seq<byte>, r: seq<byte>, a: seq<byte>, b: seq<byte>, r': seq<byte>, a': seq<byte>, b': seq<byte>)
    requires TrimmedBy(text, r, a, b) && TrimmedBy(text, r', a', b') && r' != []
    ensures |a| <= |a'| && |a'| + |r'| <= |a| + |r|
  {
    assert text[|a'|] == r'[0] && text[|a'| + |r'| - 1] == r'[|r'| - 1];
    forall i | 0 <= i < |a|
      ensures IsSpace(text[i])
    {
      assert text[i] == a[i];
    }
    forall i | |a| + |r| <= i < |text|
      ensures IsSpace(text[i])
    {
      assert text[i] == b[i - |a| - |r|];
    }
  }

  lemma TrimmedEnds(text: seq<byte>, begin: nat, end: nat)
    requires begin <= end <= |text|
    requires AllSpace(text[..begin]) && AllSpace(text[end..])
    requires begin < end ==> !IsSpace(text[begin]) && !IsSpace(text[end - 1])
    ensures Trimmed(text, text[begin..end])
  {
    assert text == text[..begin] + text[begin..end] + text[end..];
    assert TrimmedBy(text, text[begin..end], text[..begin], text[end..]);
  }
}
