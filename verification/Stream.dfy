/** `Stream`: a byte source that times out once its input is used up, and its multi-target search. */
module Stream {
  import opened Machine
  import opened Borders
  import opened IntegerText
  import opened Occurrences

  /** One entry of the search table; only the first len bytes of str belong to the target. */
  datatype MultiTarget = MultiTarget(str: seq<byte>, len: nat, index: nat) {
    ghost predicate Sized() {
      len <= |str|
    }

    ghost function Pattern(): seq<byte>
      requires Sized()
    {
      str[..len]
    }

    /** The entry is consistent with everything searched so far. */
    ghost predicate Ready(seen: seq<byte>) {
      Sized() && (len > 0 ==> Tracks(Pattern(), index, seen))
    }

    /** Same target, whatever the index. */
    ghost predicate SameTarget(other: MultiTarget) {
      str == other.str && len == other.len
    }
  }

  ghost predicate AllSized(ts: seq<MultiTarget>) {
    forall i :: 0 <= i < |ts| ==> ts[i].Sized()
  }

  ghost predicate AllReady(ts: seq<MultiTarget>, seen: seq<byte>) {
    forall i :: 0 <= i < |ts| ==> ts[i].Ready(seen)
  }

  /** The same targets in the same order, whatever the indices. */
  ghost predicate AllSame(ts: seq<MultiTarget>, us: seq<MultiTarget>) {
    |ts| == |us| && forall i :: 0 <= i < |ts| ==> ts[i].SameTarget(us[i])
  }

  ghost function Patterns(ts: seq<MultiTarget>): (pats: seq<seq<byte>>)
    requires AllSized(ts)
    ensures |pats| == |ts|
  {
    seq(|ts|, i requires 0 <= i < |ts| => ts[i].Pattern())
  }

  /** No target ends here. */
  ghost predicate Quiet(pats: seq<seq<byte>>, s: seq<byte>) {
    forall i :: 0 <= i < |pats| ==> !EndsWith(s, pats[i])
  }

  /**
    What a search over input, continuing after `seen`, must report: n bytes are taken, the
    shortest prefix that ends with a target, and r is the lowest-numbered target ending there;
    or r is -1, everything is taken and no target ended anywhere.
   */
  ghost predicate Outcome(pats: seq<seq<byte>>, seen: seq<byte>, input: seq<byte>, n: nat, r: int) {
    && n <= |input|
    && (forall m :: 0 <= m < n ==> Quiet(pats, seen + input[..m]))
    && if r == -1 then n == |input| && Quiet(pats, seen + input)
       else && 0 <= r < |pats| && EndsWith(seen + input[..n], pats[r])
            && forall i :: 0 <= i < r ==> !EndsWith(seen + input[..n], pats[i])
  }

  /** There is only one right report. */
  lemma OutcomeUnique(pats: seq<seq<byte>>, seen: seq<byte>, input: seq<byte>, n: nat, r: int, n': nat, r': int)
    requires Outcome(pats, seen, input, n, r) && Outcome(pats, seen, input, n', r')
    ensures n == n' && r == r'
  {
    hide EndsWith;
    assert input[..|input|] == input;
    assert r != -1 ==> !Quiet(pats, seen + input[..n]);
    assert r' != -1 ==> !Quiet(pats, seen + input[..n']);
  }

  /** A search that timed out can be resumed: the second call finds what one call would have found. */
  lemma OutcomeResumes(pats: seq<seq<byte>>, seen: seq<byte>, a: seq<byte>, b: seq<byte>, n: nat, r: int)
    requires Outcome(pats, seen, a, |a|, -1) && Quiet(pats, seen + a)
    ensures Outcome(pats, seen + a, b, n, r) <==> Outcome(pats, seen, a + b, |a| + n, r)
  {
    assert seen + a + b == seen + (a + b);
    assert forall m :: 0 <= m <= |b| ==> seen + a + b[..m] == seen + (a + b)[..|a| + m];
    if Outcome(pats, seen + a, b, n, r) {
      forall m | 0 <= m < |a| + n
        ensures Quiet(pats, seen + (a + b)[..m])
      {
        if m < |a| {
          assert (a + b)[..m] == a[..m];
        } else {
          assert Quiet(pats, seen + a + b[..m - |a|]);
        }
      }
    }
    if Outcome(pats, seen, a + b, |a| + n, r) {
      forall m | 0 <= m < n
        ensures Quiet(pats, seen + a + b[..m])
      {
        assert Quiet(pats, seen + (a + b)[..|a| + m]);
      }
    }
  }

  /** The table a search leaves behind when target r completes with the byte c. */
  ghost predicate Stopped(ts: seq<MultiTarget>, before: seq<byte>, c: byte, r: nat) {
    && r < |ts| && ts[r].index == ts[r].len
    && (forall i :: 0 <= i < r ==> ts[i].Ready(before + [c]))
    && (forall i :: r < i < |ts| ==> ts[i].Ready(before))
  }

  lemma SamePatterns(ts: seq<MultiTarget>, us: seq<MultiTarget>)
    requires AllSame(ts, us) && AllSized(us)
    ensures AllSized(ts) && Patterns(ts) == Patterns(us)
  {
  }

  lemma ReadyIsQuiet(ts: seq<MultiTarget>, s: seq<byte>)
    requires AllReady(ts, s) && forall i :: 0 <= i < |ts| ==> ts[i].len > 0
    ensures Quiet(Patterns(ts), s)
  {
    hide EndsWith, Tracks;
    forall i | 0 <= i < |ts|
      ensures !EndsWith(s, Patterns(ts)[i])
    {
      assert ts[i].Ready(s);
      Unfinished(ts[i].Pattern(), ts[i].index, s);
    }
  }

  /** A zero-length target is reported at once. */
  lemma EmptyTarget(ts: seq<MultiTarget>, s: seq<byte>, input: seq<byte>, k: nat)
    requires AllReady(ts, s) && k < |ts| && ts[k].len == 0
    requires forall i :: 0 <= i < k ==> ts[i].len > 0
    ensures Outcome(Patterns(ts), s, input, 0, k)
  {
    assert s + input[..0] == s;
    forall i | 0 <= i < k
      ensures !EndsWith(s, Patterns(ts)[i])
    {
      assert ts[i].Ready(s);
      Unfinished(ts[i].Pattern(), ts[i].index, s);
    }
  }

  lemma OccursEnds(p: seq<byte>, s: seq<byte>, k: nat)
    requires k + |p| <= |s|
    ensures OccursAt(p, s, k) <==> EndsWith(s[..k + |p|], p)
  {
    assert s[..k + |p|][k..] == s[k..k + |p|];
  }

  /** A fresh search times out exactly when no target occurs anywhere in the input. */
  lemma TimeoutIffAbsent(pats: seq<seq<byte>>, input: seq<byte>, n: nat, r: int)
    requires Outcome(pats, [], input, n, r)
    ensures r == -1 <==> forall i, k :: 0 <= i < |pats| && 0 <= k ==> !OccursAt(pats[i], input, k)
  {
    hide EndsWith, OccursAt;
    assert input[..|input|] == input;
    if r == -1 {
      forall i, k | 0 <= i < |pats| && 0 <= k
        ensures !OccursAt(pats[i], input, k)
      {
        var m := k + |pats[i]|;
        if m <= |input| {
          OccursEnds(pats[i], input, k);
          assert Quiet(pats, [] + input[..m]);
          assert [] + input[..m] == input[..m];
        } else {
          OccursShort(pats[i], input, k);
        }
      }
    } else {
      assert [] + input[..n] == input[..n];
      EndsWithin(input[..n], pats[r]);
      OccursEnds(pats[r], input, n - |pats[r]|);
    }
  }

  lemma OccursShort(p: seq<byte>, s: seq<byte>, k: nat)
    requires k + |p| > |s|
    ensures !OccursAt(p, s, k)
  {
  }

  lemma EndsWithin(s: seq<byte>, p: seq<byte>)
    requires EndsWith(s, p)
    ensures |p| <= |s|
  {
  }

  /** The first end of the target is no later than the first end of the terminator, if that exists. */
  ghost predicate TargetFirst(target: seq<byte>, terminator: Option<seq<byte>>, input: seq<byte>, n: nat) {
    && n <= |input|
    && EndsWith(input[..n], target)
    && (forall m :: 0 <= m < n ==> !EndsWith(input[..m], target))
    && (terminator.Some? ==> forall m :: 0 <= m < n ==> !EndsWith(input[..m], terminator.value))
  }

  /** The first end of the terminator comes before any end of the target. */
  ghost predicate TerminatorFirst(target: seq<byte>, terminator: Option<seq<byte>>, input: seq<byte>, n: nat) {
    && terminator.Some? && n <= |input|
    && EndsWith(input[..n], terminator.value)
    && (forall m :: 0 <= m < n ==> !EndsWith(input[..m], terminator.value))
    && forall m :: 0 <= m <= n ==> !EndsWith(input[..m], target)
  }

  /** Neither of the two ends anywhere in the input. */
  ghost predicate NeitherEnds(target: seq<byte>, terminator: Option<seq<byte>>, input: seq<byte>) {
    forall m :: 0 <= m <= |input| ==>
      !EndsWith(input[..m], target) && (terminator.Some? ==> !EndsWith(input[..m], terminator.value))
  }

  class ByteStream {
    /** Bytes that will still arrive; after them every read times out. */
    var pending: seq<byte>

    constructor (input: seq<byte>)
      ensures pending == input
    {
      pending := input;
    }

    method TimedRead() returns (c: int)
      modifies this
      ensures old(pending) == [] ==> c == -1 && pending == []
      ensures old(pending) != [] ==> c == old(pending)[0] && pending == old(pending)[1..]
    {
      if pending == [] { return -1; }
      c := pending[0];
      pending := pending[1..];
    }

    method TimedPeek() returns (c: int)
      ensures c == if pending == [] then -1 else pending[0]
    {
      c := if pending == [] then -1 else pending[0];
    }

    /** Does pat[..index] agree with the stretch diff further on? */
    static method Compare(str: seq<byte>, index: nat, diff: nat) returns (same: bool)
      requires index + diff <= |str|
      ensures same <==> Overlaps(str, index, diff)
    {
      var i := 0;
      while i < index && str[i] == str[i + diff]
        invariant i <= index
        invariant forall x :: 0 <= x < i ==> str[x] == str[x + diff]
      {
        i := i + 1;
      }
      return i == index;
    }

    /** The walk back after a mismatch: the next longest border that c extends. */
    static method WalkBack(t: MultiTarget, c: byte, ghost seen: seq<byte>) returns (index: nat)
      requires t.len > 0 && t.Ready(seen) && t.str[t.index] != c
      ensures Tracks(t.Pattern(), index, seen + [c])
      ensures index <= t.index
    {
      ghost var pat := t.Pattern();
      index := t.index;
      StepMismatch(pat, index, seen, c);
      if index == 0 {
        StepEmpty(pat, seen + [c]);
        return;
      }
      hide EndsWith, Dead;
      var origIndex := index;
      while true
        invariant 1 <= index <= origIndex == t.index
        invariant Dead(pat, index, seen + [c])
        decreases index
      {
        index := index - 1;
        if c == t.str[index] {
          var same := true;
          if index > 0 {
            var diff := origIndex - index;
            same := Compare(t.str, index, diff);
            assert same <==> Overlaps(pat, index, diff);
          }
          if same {
            StepLands(pat, origIndex, seen, c, index);
            index := index + 1;
            return;
          }
        }
        StepSkips(pat, origIndex, seen, c, index);
        if index == 0 {
          StepEmpty(pat, seen + [c]);
          return;
        }
      }
    }

    /**
      One byte offered to one target. The result says whether the target is now complete; otherwise its
      index again is the longest proper prefix the stream ends with.
     */
    static method Offer(t: MultiTarget, c: byte, ghost seen: seq<byte>) returns (t': MultiTarget, done: bool)
      requires t.len > 0 && t.Ready(seen)
      ensures t'.SameTarget(t)
      ensures done <==> EndsWith(seen + [c], t.Pattern())
      ensures if done then t'.index == t'.len else t'.Ready(seen + [c])
    {
      ghost var pat := t.Pattern();
      assert pat[..|pat|] == pat;
      if c == t.str[t.index] {
        StepMatch(pat, t.index, seen, c);
        t' := t.(index := t.index + 1);
        return t', t'.index == t'.len;
      }
      var index := WalkBack(t, c, seen);
      return t.(index := index), false;
    }

    /**
      findMulti. `seen` is whatever was searched before with the same table; for a new search it is
      empty and every index is 0.
     */
    method FindMulti(targets: array<MultiTarget>, ghost seen: seq<byte>) returns (r: int)
      requires AllReady(targets[..], seen)
      modifies this, targets
      ensures |pending| <= |old(pending)|
      ensures pending == old(pending)[|old(pending)| - |pending|..]
      ensures AllSame(targets[..], old(targets[..]))
      ensures Outcome(Patterns(old(targets[..])), seen, old(pending), |old(pending)| - |pending|, r)
      ensures r == -1 ==> AllReady(targets[..], seen + old(pending))
      ensures r >= 0 ==> var n := |old(pending)| - |pending|;
        if n == 0 then targets[..] == old(targets[..])
        else Stopped(targets[..], seen + old(pending)[..n - 1], old(pending)[n - 1], r)
    {
      hide EndsWith, Tracks;
      ghost var pats := Patterns(targets[..]);
      ghost var input := pending;
      var k := 0;
      while k < targets.Length
        invariant 0 <= k <= targets.Length
        invariant forall i :: 0 <= i < k ==> targets[i].len > 0
        invariant targets[..] == old(targets[..]) && unchanged(this)
      {
        if targets[k].len <= 0 {
          EmptyTarget(targets[..], seen, input, k);
          return k;
        }
        k := k + 1;
      }
      ghost var n := 0;
      assert seen + input[..n] == seen;
      while true
        invariant n + |pending| == |input| && pending == input[n..]
        invariant AllSame(targets[..], old(targets[..]))
        invariant forall i :: 0 <= i < targets.Length ==> targets[i].len > 0
        invariant AllReady(targets[..], seen + input[..n])
        invariant forall m :: 0 <= m < n ==> Quiet(pats, seen + input[..m])
        decreases |pending|
      {
        SamePatterns(targets[..], old(targets[..]));
        ReadyIsQuiet(targets[..], seen + input[..n]);
        var c := TimedRead();
        if c < 0 {
          assert input[..n] == input;
          return -1;
        }
        assert seen + input[..n] + [c] == seen + input[..n + 1];
        r := OfferAll(targets, c, seen + input[..n]);
        n := n + 1;
        if r >= 0 {
          assert Stopped(targets[..], seen + input[..n - 1], c, r);
          return;
        }
      }
    }

    /** The inner loop: the byte is offered to the targets in order until one is complete. */
    static method OfferAll(targets: array<MultiTarget>, c: byte, ghost seen: seq<byte>) returns (r: int)
      requires AllReady(targets[..], seen)
      requires forall i :: 0 <= i < targets.Length ==> targets[i].len > 0
      modifies targets
      ensures -1 <= r < targets.Length
      ensures AllSame(targets[..], old(targets[..]))
      ensures var pats := Patterns(old(targets[..])); var last := if r < 0 then targets.Length else r;
        && (forall i :: 0 <= i < last ==> targets[i].Ready(seen + [c]) && !EndsWith(seen + [c], pats[i]))
        && (r >= 0 ==> EndsWith(seen + [c], pats[r]) && targets[r].index == targets[r].len)
        && (forall i :: last < i < targets.Length ==> targets[i] == old(targets[i]))
    {
      hide EndsWith, Tracks;
      ghost var pats := Patterns(targets[..]);
      var k := 0;
      while k < targets.Length
        invariant 0 <= k <= targets.Length
        invariant AllSame(targets[..], old(targets[..]))
        invariant forall i :: 0 <= i < k ==> targets[i].Ready(seen + [c]) && !EndsWith(seen + [c], pats[i])
        invariant forall i :: k <= i < targets.Length ==> targets[i] == old(targets[i])
      {
        assert targets[k].Ready(seen) && targets[k].Pattern() == pats[k];
        var t, done := Offer(targets[k], c, seen);
        targets[k] := t;
        if done { return k; }
        k := k + 1;
      }
      return -1;
    }

    /** read: takes the byte the last peek showed. */
    method Read()
      modifies this
      ensures pending == if old(pending) == [] then [] else old(pending)[1..]
    {
      if pending != [] {
        pending := pending[1..];
      }
    }

    method PeekNextDigit(lookahead: LookaheadMode, detectDecimal: bool) returns (c: int)
      modifies this
      ensures |pending| <= |old(pending)| && pending == old(pending)[|old(pending)| - |pending|..]
      ensures LooksPast(old(pending), lookahead, detectDecimal, |old(pending)| - |pending|)
      ensures c == if pending == [] || !IsStop(pending[0], detectDecimal) then -1 else pending[0]
    {
      ghost var k := 0;
      while true
        invariant k + |pending| == |old(pending)| && pending == old(pending)[k..]
        invariant forall i :: 0 <= i < k ==> !Starts(old(pending)[i], detectDecimal) && Skips(lookahead, old(pending)[i])
        decreases |pending|
      {
        c := TimedPeek();
        if c < 0 || c == MINUS || IsDigit(c) || (detectDecimal && c == POINT) { return; }
        match lookahead {
          case SkipNone => return -1;
          case SkipWhitespace =>
            if !(c == 32 || c == 9 || c == 13 || c == 10) { return -1; }
          case SkipAll =>
        }
        Read();
        k := k + 1;
      }
    }

    /** The loop of parseInt, entered with the first byte of a number next. */
    method ReadNumber(first: byte, ignored: byte) returns (r: Parsed, ghost m: nat)
      requires pending != [] && first == pending[0] && Starts(first, false)
      modifies this
      ensures |pending| <= |old(pending)|
      ensures RunAt(old(pending), ignored, r, m)
      ensures m <= |old(pending)| && (r.Parsed? ==> pending == old(pending)[m..])
    {
      hide Number;
      ghost var s := pending;
      var isNegative := false;
      var value: int := 0;
      var c: int := first;
      m := 0;
      NumberOfNothing(ignored);
      assert s[..0] == [];
      while true
        invariant m + |pending| == |s| && pending == s[m..] && pending != [] && c == pending[0]
        invariant 0 <= value == Number(s[..m], ignored) <= PARSE_LIMIT
        invariant forall i :: 1 <= i < m ==> IsDigit(s[i]) || s[i] == ignored
        invariant m == 0 ==> !isNegative
        invariant m > 0 ==> IsDigit(c) || c == ignored
        invariant m > 0 ==> (isNegative <==> s[0] == MINUS && ignored != MINUS)
        decreases |pending|
      {
        NumberStep(s[..m], ignored, c);
        assert s[..m] + [c] == s[..m + 1];
        if c == ignored {
        } else if c == MINUS {
          isNegative := true;
        } else if IsDigit(c) {
          if value * 10 + c > INT_MAX {
            OverflowIsUndefined(s, ignored, m + 1);
            m :| RunAt(s, ignored, Undefined, m);
            return Undefined, m;
          }
          value := value * 10 + c - 48;
        }
        Read();
        m := m + 1;
        c := TimedPeek();
        if !(IsDigit(c) || c == ignored) { break; }
      }
      if isNegative {
        value := -value;
      }
      r := Parsed(value);
    }

    /** parseInt; as soon as a signed expression overflows nothing more is promised. */
    method ParseInt(lookahead: LookaheadMode, ignored: byte) returns (r: Parsed)
      modifies this
      ensures |pending| <= |old(pending)|
      ensures r.Parsed? ==> pending == old(pending)[|old(pending)| - |pending|..]
      ensures Parses(old(pending), lookahead, ignored, r, |old(pending)| - |pending|)
    {
      hide Number, RunAt, LooksPast;
      ghost var input := pending;
      var c := PeekNextDigit(lookahead, false);
      ghost var k := |input| - |pending|;
      if c < 0 {
        assert ParsesAt(input, ignored, Parsed(0), k, k);
        return Parsed(0);
      }
      ghost var m;
      assert pending[0] == input[k];
      r, m := ReadNumber(c, ignored);
      assert r.Parsed? ==> |pending| == |input| - k - m;
      assert ParsesAt(input, ignored, r, |input| - |pending|, k);
    }

    /** findUntil; `find` is the same without a terminator. */
    method FindUntil(target: seq<byte>, terminator: Option<seq<byte>>) returns (found: bool)
      modifies this
      ensures |pending| <= |old(pending)|
      ensures pending == old(pending)[|old(pending)| - |pending|..]
      ensures found <==> exists n :: TargetFirst(target, terminator, old(pending), n)
      ensures found ==> TargetFirst(target, terminator, old(pending), |old(pending)| - |pending|)
      ensures !found ==>
        || TerminatorFirst(target, terminator, old(pending), |old(pending)| - |pending|)
        || (pending == [] && NeitherEnds(target, terminator, old(pending)))
    {
      hide EndsWith, Tracks, Outcome, Stopped, TargetFirst, TerminatorFirst, NeitherEnds;
      var t: array<MultiTarget>;
      if terminator.None? {
        t := new MultiTarget[1](_ => MultiTarget(target, |target|, 0));
      } else {
        t := new MultiTarget[2](i => if i == 0 then MultiTarget(target, |target|, 0)
                                     else MultiTarget(terminator.value, |terminator.value|, 0));
      }
      FreshTable(target, terminator, t[..]);
      var r := FindMulti(t, []);
      found := r == 0;
      UntilOutcome(target, terminator, old(pending), |old(pending)| - |pending|, r);
    }
  }

  ghost function UntilPatterns(target: seq<byte>, terminator: Option<seq<byte>>): seq<seq<byte>> {
    if terminator.None? then [target] else [target, terminator.value]
  }

  lemma FreshTable(target: seq<byte>, terminator: Option<seq<byte>>, ts: seq<MultiTarget>)
    requires ts == if terminator.None? then [MultiTarget(target, |target|, 0)]
                   else [MultiTarget(target, |target|, 0), MultiTarget(terminator.value, |terminator.value|, 0)]
    ensures AllReady(ts, []) && Patterns(ts) == UntilPatterns(target, terminator)
  {
    hide Tracks;
    forall i | 0 <= i < |ts|
      ensures ts[i].Ready([]) && ts[i].Pattern() == ts[i].str
    {
      assert ts[i].str[..ts[i].len] == ts[i].str;
      if ts[i].len > 0 { TracksFresh(ts[i].str); }
    }
  }

  lemma UntilOutcome(target: seq<byte>, terminator: Option<seq<byte>>, input: seq<byte>, n: nat, r: int)
    requires Outcome(UntilPatterns(target, terminator), [], input, n, r)
    ensures r == 0 <==> exists k :: TargetFirst(target, terminator, input, k)
    ensures r == 0 ==> TargetFirst(target, terminator, input, n)
    ensures r == 1 ==> TerminatorFirst(target, terminator, input, n)
    ensures r == -1 ==> n == |input| && NeitherEnds(target, terminator, input)
    ensures r in {-1, 0, 1}
  {
    hide EndsWith;
    var pats := UntilPatterns(target, terminator);
    assert [] + input == input == input[..|input|];
    forall m | 0 <= m <= |input|
      ensures [] + input[..m] == input[..m]
    {
    }
    forall m | 0 <= m < n
      ensures !EndsWith(input[..m], target)
      ensures terminator.Some? ==> !EndsWith(input[..m], terminator.value)
    {
      assert Quiet(pats, [] + input[..m]);
      assert !EndsWith(input[..m], pats[0]);
      assert terminator.Some? ==> !EndsWith(input[..m], pats[1]);
    }
    if r != 0 {
      assert !EndsWith(input[..n], pats[0]);
      assert r == 1 ==> terminator.Some? && EndsWith(input[..n], terminator.value);
      assert r == -1 && terminator.Some? ==> !EndsWith(input[..n], pats[1]);
      forall k: nat
        ensures !TargetFirst(target, terminator, input, k)
      {
        assert k == n ==> !EndsWith(input[..k], target);
      }
    } else {
      assert TargetFirst(target, terminator, input, n);
    }
  }
}
