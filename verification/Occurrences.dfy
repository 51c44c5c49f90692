/** Finding a byte string in another: what `strstr` and `lastIndexOf` return. */
module Occurrences {
  import opened Machine

  predicate OccursAt(p: seq<byte>, s: seq<byte>, k: int) {
    0 <= k && k + |p| <= |s| && s[k..k + |p|] == p
  }

  /** The first occurrence of p in s, or -1; this is `strstr` on C strings. */
  function Find(s: seq<byte>, p: seq<byte>): (k: int)
    ensures -1 <= k && (k == -1 || OccursAt(p, s, k))
    ensures forall j :: 0 <= j && (k == -1 || j < k) ==> !OccursAt(p, s, j)
  {
    if |p| > |s| then -1
    else if OccursAt(p, s, 0) then 0
    else
      var k := Find(s[1..], p);
      FindShift(s, p);
      if k == -1 then -1 else k + 1
  }

  lemma FindShift(s: seq<byte>, p: seq<byte>)
    requires s != []
    ensures forall j :: 1 <= j ==> (OccursAt(p, s, j) <==> OccursAt(p, s[1..], j - 1))
  {
    forall j | 1 <= j
      ensures OccursAt(p, s, j) <==> OccursAt(p, s[1..], j - 1)
    {
      if j + |p| <= |s| {
        TailSlice(s, j, j + |p|);
      }
    }
  }

  lemma TailSlice(s: seq<byte>, i: nat, j: nat)
    requires 1 <= i <= j <= |s|
    ensures s[1..][i - 1..j - 1] == s[i..j]
  {
  }

  /** The last occurrence of p in s that starts at or before from, or -1. */
  function LastAt(s: seq<byte>, p: seq<byte>, from: int): (k: int)
    ensures -1 <= k && (k == -1 || (k <= from && OccursAt(p, s, k)))
    ensures forall j :: k < j <= from ==> !OccursAt(p, s, j)
    decreases from + 1
  {
    if from < 0 then -1 else if OccursAt(p, s, from) then from else LastAt(s, p, from - 1)
  }

  /** LastAt is the only index with these two properties. */
  lemma LastAtUnique(s: seq<byte>, p: seq<byte>, from: int, k: int)
    requires -1 <= k && (k == -1 || (k <= from && OccursAt(p, s, k)))
    requires forall j :: k < j <= from ==> !OccursAt(p, s, j)
    ensures k == LastAt(s, p, from)
  {
  }

  lemma FindUnique(s: seq<byte>, p: seq<byte>, k: int)
    requires OccursAt(p, s, k) && forall j :: 0 <= j < k ==> !OccursAt(p, s, j)
    ensures k == Find(s, p)
  {
  }

  lemma OccursInPrefix(p: seq<byte>, s: seq<byte>, t: seq<byte>, k: int)
    requires k + |p| <= |s|
    ensures OccursAt(p, s + t, k) <==> OccursAt(p, s, k)
  {
    if 0 <= k {
      assert (s + t)[k..k + |p|] == s[k..k + |p|];
    }
  }
}
