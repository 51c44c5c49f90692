/** Replacing every occurrence: the intended left-to-right result and the right-to-left scan. */
module Replacement {
  import opened Machine
  import opened Occurrences

  /** Greedy left-to-right non-overlapping replacement. */
  function ReplaceAll(s: seq<byte>, f: seq<byte>, r: seq<byte>): seq<byte>
    requires f != []
    decreases |s|
  {
    var k := Find(s, f);
    if k == -1 then s else s[..k] + r + ReplaceAll(s[k + |f|..], f, r)
  }

  // ----- what greedy replacement means: cut s at the greedy occurrences of f, join with r

  function Join(parts: seq<seq<byte>>, sep: seq<byte>): seq<byte>
    requires parts != []
  {
    if |parts| == 1 then parts[0] else parts[0] + sep + Join(parts[1..], sep)
  }

  /** Every part but the last reaches up to the first f; the last contains none. */
  ghost predicate GreedyParts(parts: seq<seq<byte>>, f: seq<byte>) {
    && parts != []
    && (forall i :: 0 <= i < |parts| - 1 ==> Find(parts[i] + f, f) == |parts[i]|)
    && Find(parts[|parts| - 1], f) == -1
  }

  lemma {:induction false} ReplaceAllJoins(s: seq<byte>, f: seq<byte>, r: seq<byte>) returns (parts: seq<seq<byte>>)
    requires f != []
    ensures GreedyParts(parts, f) && Join(parts, f) == s && Join(parts, r) == ReplaceAll(s, f, r)
    decreases |s|
  {
    hide OccursAt, Find, ReplaceAll;
    var k := Find(s, f);
    if k == -1 {
      parts := [s];
      ReplaceAllNone(s, f, r);
    } else {
      FoundIs(s, f, k);
      ReplaceAllUnfold(s, f, r, k);
      var rest := ReplaceAllJoins(s[k + |f|..], f, r);
      parts := [s[..k]] + rest;
      assert parts[1..] == rest && parts[0] + f == s[..k + |f|] && s == s[..k + |f|] + s[k + |f|..];
      FindInPrefix(s, k + |f|, f);
      assert parts[|parts| - 1] == rest[|rest| - 1];
    }
  }

  lemma FoundIs(s: seq<byte>, f: seq<byte>, k: int)
    requires OccursAt(f, s, k)
    ensures 0 <= k && k + |f| <= |s| && s[k..k + |f|] == f
  {
  }

  /** The greedy cut is unique. */
  lemma {:induction false} GreedyPartsUnique(a: seq<seq<byte>>, b: seq<seq<byte>>, f: seq<byte>)
    requires f != [] && GreedyParts(a, f) && GreedyParts(b, f) && Join(a, f) == Join(b, f)
    ensures a == b
    decreases |a|
  {
    GreedyFirst(a, f);
    GreedyFirst(b, f);
    if |a| > 1 {
      assert a == [a[0]] + a[1..] && b == [b[0]] + b[1..];
      var s := Join(a, f);
      assert a[0] == s[..|a[0]|] == b[0];
      assert Join(a[1..], f) == s[|a[0] + f|..] == Join(b[1..], f);
      GreedyPartsUnique(a[1..], b[1..], f);
    }
  }

  lemma GreedyFirst(a: seq<seq<byte>>, f: seq<byte>)
    requires f != [] && GreedyParts(a, f)
    ensures Find(Join(a, f), f) == if |a| == 1 then -1 else |a[0]|
    ensures |a| > 1 ==> GreedyParts(a[1..], f)
  {
    hide OccursAt, Find;
    var s := Join(a, f);
    if |a| == 1 {
      assert s == a[|a| - 1];
    } else {
      var k := |a[0]|;
      assert s == (a[0] + f) + Join(a[1..], f);
      FindStaysFirst(a[0] + f, Join(a[1..], f), f);
      assert a[1..][|a| - 2] == a[|a| - 1];
    }
  }

  lemma FindStaysFirst(s: seq<byte>, t: seq<byte>, f: seq<byte>)
    requires Find(s, f) != -1
    ensures Find(s + t, f) == Find(s, f)
  {
    hide OccursAt, Find;
    var k := Find(s, f);
    FoundIs(s, f, k);
    forall j | 0 <= j <= k
      ensures OccursAt(f, s + t, j) <==> OccursAt(f, s, j)
    {
      OccursInPrefix(f, s, t, j);
    }
    FindUnique(s + t, f, k);
  }

  lemma OccursMiddle(a: seq<byte>, f: seq<byte>, b: seq<byte>)
    ensures OccursAt(f, a + f + b, |a|)
  {
  }

  /** Lengths: every replacement adds |r| - |f|. */
  lemma {:induction false} ReplaceAllGrows(s: seq<byte>, f: seq<byte>, r: seq<byte>)
    requires f != [] && |r| > |f|
    ensures |ReplaceAll(s, f, r)| >= |s|
    ensures |ReplaceAll(s, f, r)| == |s| <==> Find(s, f) == -1
    decreases |s|
  {
    hide Find, OccursAt, ReplaceAll;
    var k := Find(s, f);
    if k != -1 {
      ReplaceAllUnfold(s, f, r, k);
      ReplaceAllGrows(s[k + |f|..], f, r);
    } else {
      ReplaceAllNone(s, f, r);
    }
  }

  lemma {:induction false} ReplaceAllChars(s: seq<byte>, f: seq<byte>, r: seq<byte>)
    requires f != []
    ensures forall c :: c in ReplaceAll(s, f, r) ==> c in s || c in r
    decreases |s|
  {
    hide Find, OccursAt, ReplaceAll;
    var k := Find(s, f);
    if k != -1 {
      ReplaceAllUnfold(s, f, r, k);
      ReplaceAllChars(s[k + |f|..], f, r);
    } else {
      ReplaceAllNone(s, f, r);
    }
  }

  /** A progress report of the forward scans: `done` is final, text[at..] is still to be read. */
  ghost predicate Progress(done: seq<byte>, text: seq<byte>, at: nat, f: seq<byte>, r: seq<byte>)
    requires f != []
  {
    at <= |text| && ReplaceAll(text, f, r) == done + ReplaceAll(text[at..], f, r)
  }

  lemma ProgressStart(text: seq<byte>, f: seq<byte>, r: seq<byte>)
    requires f != []
    ensures Progress([], text, 0, f, r)
  {
    assert text[0..] == text;
  }

  lemma ProgressStep(done: seq<byte>, text: seq<byte>, at: nat, f: seq<byte>, r: seq<byte>, k: int)
    requires f != [] && Progress(done, text, at, f, r) && k == Find(text[at..], f) && k != -1
    ensures 0 <= k && at + k + |f| <= |text|
    ensures Progress(done + text[at..at + k] + r, text, at + k + |f|, f, r)
  {
    hide Find, OccursAt, ReplaceAll;
    var rest := text[at..];
    ReplaceAllUnfold(rest, f, r, k);
    assert rest[..k] == text[at..at + k] && rest[k + |f|..] == text[at + k + |f|..];
    Associate(done, text[at..at + k], r, ReplaceAll(rest[k + |f|..], f, r));
  }

  lemma Associate(a: seq<byte>, b: seq<byte>, c: seq<byte>, d: seq<byte>)
    ensures a + (b + c + d) == (a + b + c) + d
  {
  }

  lemma ProgressEnd(done: seq<byte>, text: seq<byte>, at: nat, f: seq<byte>, r: seq<byte>)
    requires f != [] && Progress(done, text, at, f, r) && Find(text[at..], f) == -1
    ensures ReplaceAll(text, f, r) == done + text[at..]
  {
    ReplaceAllNone(text[at..], f, r);
  }

  // ----- the right-to-left scan of the growing case

  function Splice(s: seq<byte>, k: nat, f: seq<byte>, r: seq<byte>): seq<byte>
    requires k + |f| <= |s|
  {
    s[..k] + r + s[k + |f|..]
  }

  /** From index downwards, always replace the last occurrence in the text as it now is. */
  function ReplaceBack(s: seq<byte>, f: seq<byte>, r: seq<byte>, index: int): seq<byte>
    decreases index + 1
  {
    var k := LastAt(s, f, index);
    if k == -1 then s else ReplaceBack(Splice(s, k, f, r), f, r, k - 1)
  }

  lemma {:induction false} ReplaceBackGrows(s: seq<byte>, f: seq<byte>, r: seq<byte>, index: int)
    requires |r| >= |f|
    ensures |ReplaceBack(s, f, r, index)| >= |s|
    decreases index + 1
  {
    var k := LastAt(s, f, index);
    if k != -1 {
      ReplaceBackGrows(Splice(s, k, f, r), f, r, k - 1);
    }
  }

  /** f[m..] is also a prefix of f. */
  predicate BorderAt(f: seq<byte>, m: nat) {
    1 <= m < |f| && f[m..] == f[..|f| - m]
  }

  /** f[m..] is a prefix of r. */
  predicate ClashAt(f: seq<byte>, r: seq<byte>, m: nat) {
    1 <= m < |f| && |f| - m <= |r| && f[m..] == r[..|f| - m]
  }

  /** f does not overlap itself. */
  predicate Unbordered(f: seq<byte>) {
    forall m :: 1 <= m < |f| ==> !BorderAt(f, m)
  }

  /** f does not overlap the front of r. */
  predicate ClashFree(f: seq<byte>, r: seq<byte>) {
    forall m :: 1 <= m < |f| ==> !ClashAt(f, r, m)
  }

  /** Both: a check on the two arguments alone. */
  predicate Clean(f: seq<byte>, r: seq<byte>) {
    Unbordered(f) && ClashFree(f, r)
  }

  /** An occurrence that reaches from p into a following r makes a clash. */
  lemma Reaching(p: seq<byte>, u: seq<byte>, f: seq<byte>, r: seq<byte>, j: int)
    requires OccursAt(f, p + u, j) && j < |p| < j + |f| && |r| > |f| && r <= u
    ensures ClashAt(f, r, |p| - j)
  {
    var m := |p| - j;
    assert f[m..] == (p + u)[j..j + |f|][m..] == (p + u)[|p|..j + |f|] == u[..|f| - m] == r[..|f| - m];
  }

  lemma NoClashNoReach(p: seq<byte>, u: seq<byte>, f: seq<byte>, r: seq<byte>, j: int)
    requires ClashFree(f, r) && |r| > |f| && r <= u && j < |p|
    ensures OccursAt(f, p + u, j) <==> OccursAt(f, p, j)
  {
    hide ClashAt;
    if j + |f| <= |p| {
      OccursInPrefix(f, p, u, j);
    } else if OccursAt(f, p + u, j) {
      Reaching(p, u, f, r, j);
    }
  }

  lemma {:induction false} LastAtLocal(p: seq<byte>, u: seq<byte>, f: seq<byte>, r: seq<byte>, i: int)
    requires ClashFree(f, r) && |r| > |f| && r <= u && i < |p|
    ensures LastAt(p + u, f, i) == LastAt(p, f, i)
    decreases i + 1
  {
    if i >= 0 {
      NoClashNoReach(p, u, f, r, i);
      LastAtLocal(p, u, f, r, i - 1);
    }
  }

  /** The scan of p is not disturbed by what was already rewritten after it. */
  lemma {:induction false} ReplaceBackLocal(p: seq<byte>, u: seq<byte>, f: seq<byte>, r: seq<byte>, i: int)
    requires f != [] && ClashFree(f, r) && |r| > |f| && r <= u && i < |p|
    ensures ReplaceBack(p + u, f, r, i) == ReplaceBack(p, f, r, i) + u
    decreases i + 1
  {
    hide ClashFree, OccursAt, LastAt, ReplaceBack;
    LastAtLocal(p, u, f, r, i);
    var k := LastAt(p, f, i);
    if k != -1 {
      assert 0 <= k && k + |f| <= |p| by { FoundIs(p, f, k); }
      var v := r + p[k + |f|..];
      ReplaceBackLocal(p[..k], v, f, r, k - 1);
      ReplaceBackLocal(p[..k], v + u, f, r, k - 1);
      assert Splice(p, k, f, r) == p[..k] + v;
      assert Splice(p + u, k, f, r) == p[..k] + (v + u);
      ReplaceBackUnfold(p, f, r, i, k);
      ReplaceBackUnfold(p + u, f, r, i, k);
    } else {
      ReplaceBackNone(p, f, r, i);
      ReplaceBackNone(p + u, f, r, i);
    }
  }

  /** Two overlapping occurrences make a border. */
  lemma Overlapping(s: seq<byte>, f: seq<byte>, j: int, k: int)
    requires OccursAt(f, s, j) && OccursAt(f, s, k) && j < k < j + |f|
    ensures BorderAt(f, k - j)
  {
    var m := k - j;
    assert f[m..] == s[j..j + |f|][m..] == s[k..j + |f|] == s[k..k + |f|][..|f| - m] == f[..|f| - m];
  }

  lemma Disjoint(s: seq<byte>, f: seq<byte>, j: int, k: int)
    requires OccursAt(f, s, j) && OccursAt(f, s, k) && j < k
    requires Unbordered(f)
    ensures j + |f| <= k
  {
    hide BorderAt, OccursAt;
    if k < j + |f| {
      Overlapping(s, f, j, k);
    }
  }

  lemma ReplaceAllUnfold(s: seq<byte>, f: seq<byte>, r: seq<byte>, k: int)
    requires f != [] && k == Find(s, f) && k != -1
    ensures 0 <= k && k + |f| <= |s|
    ensures ReplaceAll(s, f, r) == s[..k] + r + ReplaceAll(s[k + |f|..], f, r)
  {
    hide Find, OccursAt, ReplaceAll;
    FoundIs(s, f, k);
    ReplaceAllCut(s, f, r, k, s[k + |f|..]);
  }

  lemma ReplaceAllCut(s: seq<byte>, f: seq<byte>, r: seq<byte>, k: int, rest: seq<byte>)
    requires f != [] && k == Find(s, f) && 0 <= k && k + |f| <= |s| && rest == s[k + |f|..]
    ensures ReplaceAll(s, f, r) == s[..k] + r + ReplaceAll(rest, f, r)
  {
    hide Find, OccursAt;
  }

  lemma ReplaceBackUnfold(s: seq<byte>, f: seq<byte>, r: seq<byte>, i: int, k: int)
    requires k == LastAt(s, f, i) && k != -1
    ensures 0 <= k && k + |f| <= |s| && k <= i
    ensures ReplaceBack(s, f, r, i) == ReplaceBack(Splice(s, k, f, r), f, r, k - 1)
  {
  }

  /** Greedy replacement uses the last occurrence, when occurrences are disjoint. */
  lemma {:induction false} ReplaceAllLast(s: seq<byte>, f: seq<byte>, r: seq<byte>, k: int)
    requires f != [] && Unbordered(f)
    requires OccursAt(f, s, k) && forall j :: k < j ==> !OccursAt(f, s, j)
    ensures 0 <= k && k + |f| <= |s|
    ensures ReplaceAll(s, f, r) == ReplaceAll(s[..k], f, r) + r + s[k + |f|..]
    decreases |s|
  {
    hide OccursAt, Unbordered, ReplaceAll, Find;
    FoundIs(s, f, k);
    var first := Find(s, f);
    var tail := s[k + |f|..];
    ReplaceAllUnfold(s, f, r, first);
    if first == k {
      FindNowhere(s[..k], tail, s, f, k);
      ReplaceAllNone(s[..k], f, r);
      ReplaceAllNone(tail, f, r);
    } else {
      Disjoint(s, f, first, k);
      var at := first + |f|;
      ReplaceAllLastRest(s, f, k, at);
      ReplaceAllLast(s[at..], f, r, k - at);
      assert s[at..][..k - at] == s[..k][at..] && s[at..][k - at + |f|..] == tail;
      FindInPrefix(s, k, f);
      ReplaceAllUnfold(s[..k], f, r, first);
      assert s[..k][..first] == s[..first];
    }
  }

  lemma ReplaceAllNone(s: seq<byte>, f: seq<byte>, r: seq<byte>)
    requires f != [] && Find(s, f) == -1
    ensures ReplaceAll(s, f, r) == s
  {
  }

  lemma ReplaceBackNone(s: seq<byte>, f: seq<byte>, r: seq<byte>, i: int)
    requires LastAt(s, f, i) == -1
    ensures ReplaceBack(s, f, r, i) == s
  {
  }

  lemma ReplaceAllLastRest(s: seq<byte>, f: seq<byte>, k: int, at: nat)
    requires at <= k && at <= |s|
    requires OccursAt(f, s, k) && forall j :: k < j ==> !OccursAt(f, s, j)
    ensures OccursAt(f, s[at..], k - at) && forall j :: k - at < j ==> !OccursAt(f, s[at..], j)
  {
    hide OccursAt;
    OccursShift(f, s, at, k - at);
    forall j | k - at < j
      ensures !OccursAt(f, s[at..], j)
    {
      OccursShift(f, s, at, j);
    }
  }

  lemma OccursShift(f: seq<byte>, s: seq<byte>, at: nat, j: nat)
    requires at <= |s|
    ensures OccursAt(f, s[at..], j) <==> OccursAt(f, s, at + j)
  {
    if at + j + |f| <= |s| {
      assert s[at..][j..j + |f|] == s[at + j..at + j + |f|];
    }
  }

  lemma FindNowhere(a: seq<byte>, tail: seq<byte>, s: seq<byte>, f: seq<byte>, k: nat)
    requires f != [] && k + |f| <= |s| && a == s[..k] && tail == s[k + |f|..]
    requires forall j :: 0 <= j && j != k ==> !OccursAt(f, s, j)
    ensures Find(a, f) == -1 && Find(tail, f) == -1
  {
    hide OccursAt;
    forall j: int
      ensures !OccursAt(f, a, j)
    {
      if OccursAt(f, a, j) {
        FoundIs(a, f, j);
        assert s == a + s[k..];
        OccursInPrefix(f, a, s[k..], j);
      }
    }
    forall j | 0 <= j
      ensures !OccursAt(f, tail, j)
    {
      OccursShift(f, s, k + |f|, j);
    }
  }

  /** An occurrence that fits into a prefix is found there as well. */
  lemma FindInPrefix(s: seq<byte>, n: nat, f: seq<byte>)
    requires n <= |s| && Find(s, f) != -1 && Find(s, f) + |f| <= n
    ensures Find(s[..n], f) == Find(s, f)
  {
    hide OccursAt;
    assert s == s[..n] + s[n..];
    forall j | j + |f| <= n
      ensures OccursAt(f, s[..n], j) <==> OccursAt(f, s, j)
    {
      OccursInPrefix(f, s[..n], s[n..], j);
    }
    FindUnique(s[..n], f, Find(s, f));
  }

  /** Under the condition the two scans agree on every text. */
  lemma {:induction false} CleanScansAgree(s: seq<byte>, f: seq<byte>, r: seq<byte>)
    requires f != [] && Clean(f, r) && |r| > |f|
    ensures ReplaceBack(s, f, r, |s| - 1) == ReplaceAll(s, f, r)
    decreases |s|
  {
    hide OccursAt, Unbordered, ClashFree, ReplaceAll, ReplaceBack, Find, LastAt;
    var k := LastAt(s, f, |s| - 1);
    forall j | k < j
      ensures !OccursAt(f, s, j)
    {
      if OccursAt(f, s, j) { FoundIs(s, f, j); }
    }
    if k != -1 {
      ReplaceAllLast(s, f, r, k);
      ReplaceBackUnfold(s, f, r, |s| - 1, k);
      var u := r + s[k + |f|..];
      assert Splice(s, k, f, r) == s[..k] + u;
      ReplaceBackLocal(s[..k], u, f, r, k - 1);
      CleanScansAgree(s[..k], f, r);
      assert |s[..k]| - 1 == k - 1;
    } else {
      ReplaceAllNone(s, f, r);
      ReplaceBackNone(s, f, r, |s| - 1);
    }
  }

  // ----- and without the condition they disagree somewhere

  /** f overlapped with itself at distance m. */
  function Overlap(f: seq<byte>, m: nat): seq<byte>
    requires m <= |f|
  {
    f[..m] + f
  }

  lemma OverlapOnce(f: seq<byte>, r: seq<byte>, m: nat)
    requires 1 <= m < |f|
    ensures LastAt(Overlap(f, m), f, |Overlap(f, m)| - 1) == m
    ensures Splice(Overlap(f, m), m, f, r) == f[..m] + r
    ensures |ReplaceAll(Overlap(f, m), f, r)| == m + |r|
  {
    var s := Overlap(f, m);
    OccursMiddle(f[..m], f, []);
    assert f[..m] + f + [] == s;
    LastAtUnique(s, f, |s| - 1, m);
    var k := Find(s, f);
    assert 0 <= k <= m;
    assert |s[k + |f|..]| < |f|;
  }

  /** A clash makes the scan from the right replace once too often, and its result too long. */
  lemma ClashOverruns(f: seq<byte>, r: seq<byte>, m: nat)
    requires ClashAt(f, r, m) && |r| > |f|
    ensures |ReplaceBack(Overlap(f, m), f, r, |Overlap(f, m)| - 1)| > |ReplaceAll(Overlap(f, m), f, r)|
  {
    hide ReplaceBack, ReplaceAll, LastAt;
    var s := Overlap(f, m);
    OverlapOnce(f, r, m);
    ReplaceBackUnfold(s, f, r, |s| - 1, m);
    var s' := f[..m] + r;
    assert OccursAt(f, s', 0) by {
      assert s'[0..0 + |f|] == f[..m] + r[..|f| - m] == f;
    }
    var k := LastAt(s', f, m - 1);
    ReplaceBackUnfold(s', f, r, m - 1, k);
    ReplaceBackGrows(Splice(s', k, f, r), f, r, k - 1);
  }

  lemma BorderDisagrees(f: seq<byte>, r: seq<byte>, m: nat)
    requires BorderAt(f, m) && |r| > |f|
    requires ClashFree(f, r)
    ensures ReplaceBack(Overlap(f, m), f, r, |Overlap(f, m)| - 1) != ReplaceAll(Overlap(f, m), f, r)
  {
    hide ReplaceBack, ReplaceAll, LastAt, ClashAt;
    var s := Overlap(f, m);
    OverlapOnce(f, r, m);
    ReplaceBackUnfold(s, f, r, |s| - 1, m);
    var s' := f[..m] + r;
    forall j | 0 <= j <= m - 1
      ensures !OccursAt(f, s', j)
    {
      NoClashNoReach(f[..m], r, f, r, j);
    }
    ReplaceBackNone(s', f, r, m - 1);
    assert s[0..0 + |f|] == f[..m] + f[..|f| - m] == f[..m] + f[m..] == f;
    FindUnique(s, f, 0);
    ReplaceAllUnfold(s, f, r, 0);
    ReplaceAllNone(s[|f|..], f, r);
    if s' == r + s[|f|..] {
      PeriodClash(f, r, m, s[|f|..]);
    }
  }

  /** If both scans gave the same text, r would have the period of f and begin with its border. */
  lemma PeriodClash(f: seq<byte>, r: seq<byte>, m: nat, v: seq<byte>)
    requires BorderAt(f, m) && |r| > |f| && f[..m] + r == r + v
    ensures ClashAt(f, r, m)
  {
    PeriodPrefix(f, r, m, v, |f| - m);
    assert f[m..] == f[..|f| - m] == r[..|f| - m];
  }

  lemma {:induction false} PeriodPrefix(f: seq<byte>, r: seq<byte>, m: nat, v: seq<byte>, n: nat)
    requires BorderAt(f, m) && |r| > |f| && f[..m] + r == r + v && n <= |f| - m
    ensures r[..n] == f[..n]
  {
    if n > 0 {
      PeriodPrefix(f, r, m, v, n - 1);
      var i := n - 1;
      assert r[i] == (r + v)[i] == (f[..m] + r)[i];
      if i >= m {
        assert r[i - m] == r[..n - 1][i - m] == f[..n - 1][i - m] == f[i - m];
        assert f[m..][i - m] == f[..|f| - m][i - m];
      }
      assert r[..n] == r[..n - 1] + [r[i]] && f[..n] == f[..n - 1] + [f[i]];
    }
  }

  /**
    The growing replacement is right for every receiver exactly when find is unbordered and no
    proper suffix of find begins replace.
   */
  lemma GrowingRightIffClean(f: seq<byte>, r: seq<byte>)
    requires f != [] && |r| > |f| && NUL !in f
    ensures Clean(f, r) <==>
      forall s :: NUL !in s ==> ReplaceBack(s, f, r, |s| - 1) == ReplaceAll(s, f, r)
  {
    hide Clean, ReplaceAll, ReplaceBack;
    if Clean(f, r) {
      forall s
        ensures ReplaceBack(s, f, r, |s| - 1) == ReplaceAll(s, f, r)
      {
        CleanScansAgree(s, f, r);
      }
    } else {
      var s := UncleanWitness(f, r);
    }
  }

  lemma UncleanWitness(f: seq<byte>, r: seq<byte>) returns (s: seq<byte>)
    requires f != [] && |r| > |f| && !Clean(f, r)
    ensures (forall c :: c in s ==> c in f)
    ensures ReplaceBack(s, f, r, |s| - 1) != ReplaceAll(s, f, r)
  {
    hide ReplaceAll, ReplaceBack, BorderAt, ClashAt;
    var m :| 1 <= m < |f| && (BorderAt(f, m) || ClashAt(f, r, m));
    if l :| 1 <= l < |f| && ClashAt(f, r, l) {
      ClashOverruns(f, r, l);
      s := Overlap(f, l);
    } else {
      BorderDisagrees(f, r, m);
      s := Overlap(f, m);
    }
  }

  // ----- when the result of the scan from the right is too long for the buffer that was counted for it

  /** A found occurrence adds its growth at once. */
  lemma FoundGrows(s: seq<byte>, f: seq<byte>, r: seq<byte>)
    requires f != [] && |r| > |f| && Find(s, f) != -1
    ensures |ReplaceAll(s, f, r)| >= |s| + |r| - |f|
  {
    hide Find, OccursAt, ReplaceAll;
    var k := Find(s, f);
    ReplaceAllUnfold(s, f, r, k);
    ReplaceAllGrows(s[k + |f|..], f, r);
  }

  /** Whatever occurrence is replaced last, the greedy replacement makes up for it. */
  lemma {:induction false} ReplaceAllAtLeast(s: seq<byte>, f: seq<byte>, r: seq<byte>, k: int)
    requires f != [] && |r| > |f| && OccursAt(f, s, k)
    ensures 0 <= k && k + |f| <= |s|
    ensures |ReplaceAll(s, f, r)| >= |ReplaceAll(s[..k], f, r)| + |r| + |s| - k - |f|
    decreases |s|
  {
    hide OccursAt, ReplaceAll, Find;
    FoundIs(s, f, k);
    var first := Find(s, f);
    var at := first + |f|;
    if at <= k {
      ReplaceAllUnfold(s, f, r, first);
      OccursShift(f, s, at, k - at);
      ReplaceAllAtLeast(s[at..], f, r, k - at);
      FindInPrefix(s, k, f);
      ReplaceAllUnfold(s[..k], f, r, first);
      assert s[at..][..k - at] == s[..k][at..];
    } else {
      NothingBefore(s, f, k);
      ReplaceAllNone(s[..k], f, r);
      FoundGrows(s, f, r);
    }
  }

  lemma NothingBefore(s: seq<byte>, f: seq<byte>, k: nat)
    requires f != [] && k <= |s| && Find(s, f) != -1 && Find(s, f) + |f| > k
    ensures Find(s[..k], f) == -1
  {
    hide OccursAt;
    var j := Find(s[..k], f);
    if j != -1 {
      FoundIs(s[..k], f, j);
      assert s == s[..k] + s[k..];
      OccursInPrefix(f, s[..k], s[k..], j);
    }
  }

  /** Without a clash the scan from the right makes no more replacements than the greedy one. */
  lemma {:induction false} ClashFreeFits(s: seq<byte>, f: seq<byte>, r: seq<byte>)
    requires f != [] && ClashFree(f, r) && |r| > |f|
    ensures |ReplaceBack(s, f, r, |s| - 1)| <= |ReplaceAll(s, f, r)|
    decreases |s|
  {
    hide OccursAt, ClashFree, ReplaceAll, ReplaceBack, Find, LastAt;
    var k := LastAt(s, f, |s| - 1);
    if k != -1 {
      ReplaceBackUnfold(s, f, r, |s| - 1, k);
      var u := r + s[k + |f|..];
      assert Splice(s, k, f, r) == s[..k] + u;
      ReplaceBackLocal(s[..k], u, f, r, k - 1);
      ClashFreeFits(s[..k], f, r);
      ReplaceAllAtLeast(s, f, r, k);
      assert |s[..k]| - 1 == k - 1;
    } else {
      ReplaceBackNone(s, f, r, |s| - 1);
      ReplaceAllGrows(s, f, r);
    }
  }

  /**
    The scan from the right never makes a text longer than the one that was counted exactly when no proper
    suffix of find begins replace. Borders of find do not matter here.
   */
  lemma FitsIffClashFree(f: seq<byte>, r: seq<byte>)
    requires f != [] && |r| > |f| && NUL !in f
    ensures ClashFree(f, r) <==>
      forall s :: NUL !in s ==> |ReplaceBack(s, f, r, |s| - 1)| <= |ReplaceAll(s, f, r)|
  {
    hide ClashAt, ReplaceAll, ReplaceBack;
    if ClashFree(f, r) {
      forall s
        ensures |ReplaceBack(s, f, r, |s| - 1)| <= |ReplaceAll(s, f, r)|
      {
        ClashFreeFits(s, f, r);
      }
    } else {
      var m :| 1 <= m < |f| && ClashAt(f, r, m);
      ClashOverruns(f, r, m);
      assert NUL !in Overlap(f, m);
    }
  }

  /** "ab" in "aab" by "bab": "abab" is counted for, but the scan from the right makes "babab". */
  lemma OverrunCounterexample()
    ensures var s, f, r := [97, 97, 98], [97, 98], [98, 97, 98];
      ReplaceAll(s, f, r) == [97, 98, 97, 98] && ReplaceBack(s, f, r, 2) == [98, 97, 98, 97, 98]
  {
    var s: seq<byte>, f: seq<byte>, r: seq<byte> := [97, 97, 98], [97, 98], [98, 97, 98];
    var t: seq<byte> := [97, 98, 97, 98];
    assert s[0..2][1] == 97 && !OccursAt(f, s, 0) && OccursAt(f, s, 1) && !OccursAt(f, s, 2);
    FindUnique(s, f, 1);
    assert s[3..] == [] && Find([], f) == -1;
    assert LastAt(s, f, 2) == 1 && Splice(s, 1, f, r) == t;
    assert OccursAt(f, t, 0);
    assert Splice(t, 0, f, r) == [98, 97, 98, 97, 98];
  }

  /** "aa" in "aaa" by "bbb": left to right "bbba", but the scan from the right gives "abbb". */
  lemma GrowingCounterexample()
    ensures var s, f, r := [97, 97, 97], [97, 97], [98, 98, 98];
      ReplaceAll(s, f, r) == [98, 98, 98, 97] && ReplaceBack(s, f, r, 2) == [97, 98, 98, 98]
  {
    var s: seq<byte>, f: seq<byte>, r: seq<byte> := [97, 97, 97], [97, 97], [98, 98, 98];
    assert OccursAt(f, s, 0) && OccursAt(f, s, 1);
    assert Find(s, f) == 0;
    assert s[2..] == [97] && Find([97], f) == -1;
    assert !OccursAt(f, s, 2) && LastAt(s, f, 2) == 1;
    assert Splice(s, 1, f, r) == [97, 98, 98, 98];
    var t: seq<byte> := [97, 98, 98, 98];
    assert t[0..2][1] == 98;
    assert !OccursAt(f, t, 0);
  }
}
