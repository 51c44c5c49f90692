/** Whole runs of `String` operations against an abstract machine on texts. */
module StringRuns {
  import opened Machine
  import opened Replacement
  import opened Spaces
  import opened WString

  /** Invalid is a string without a buffer. */
  datatype State = Invalid | Text(text: seq<byte>)

  /** Operations on one string; numbers refer to other strings that the run only reads. */
  datatype Op =
    | Reserve(size: nat)
    | AssignText(cstr: Option<seq<byte>>)
    | Assign(rhs: nat)
    | ConcatText(cstr: Option<seq<byte>>)
    | ConcatString(rhs: nat)
    | ConcatChar(c: byte)
    | Remove(index: word, count: word)
    | RemoveFrom(index: word)
    | Trim
    | ReplaceChar(from: byte, to: byte)
    | Replace(find: nat, replace: nat)

  function Shown(s: State): seq<byte> {
    if s.Invalid? then [] else s.text
  }

  /** What a caller has to see to: no NUL is put in, sums do not wrap, growing replacements do not clash. */
  predicate Allowed(op: Op, others: seq<State>) {
    match op
    case AssignText(t) => t.Some? ==> NulFree(t.value)
    case ConcatText(t) => t.Some? ==> NulFree(t.value)
    case Assign(i) => i < |others|
    case ConcatString(i) => i < |others|
    case ConcatChar(c) => c != NUL
    case Remove(index, count) => index + count < WORD_LIMIT
    case ReplaceChar(_, to) => to != NUL
    case Replace(i, j) =>
      i < |others| && j < |others|
      && (|Shown(others[j])| > |Shown(others[i])| ==> ClashFree(Shown(others[i]), Shown(others[j])))
    case _ => true
  }

  /** What one operation does to the text; failed says that memory was asked for in vain. */
  ghost predicate Step(op: Op, others: seq<State>, s: State, failed: bool, s': State)
    requires Allowed(op, others)
  {
    match op
    case Reserve(_) => s' == if failed then s else Text(Shown(s))
    case AssignText(t) => s' == if failed || t.None? then Invalid else Text(t.value)
    case Assign(i) => s' == if failed then Invalid else others[i]
    case ConcatText(t) => s' == if failed || t.None? then s else Appended(s, t.value)
    case ConcatString(i) => s' == if failed || others[i].Invalid? then s else Appended(s, others[i].text)
    case ConcatChar(c) => s' == if failed then s else Appended(s, [c])
    case Remove(index, count) => !failed && s' == if s.Invalid? then s else Text(Cut(s.text, index, count))
    case RemoveFrom(index) => !failed && s' == if s.Invalid? then s else Text(s.text[..Min(index, |s.text|)])
    case Trim => !failed && if s.Invalid? then s' == s else s'.Text? && Trimmed(s.text, s'.text)
    case ReplaceChar(from, to) => !failed && s' == if s.Invalid? then s else Text(Substituted(s.text, from, to))
    case Replace(i, j) =>
      var f, r := Shown(others[i]), Shown(others[j]);
      s' == (if failed || s.Invalid? || f == [] then s else Text(Rewritten(s.text, f, r)))
      && (failed ==> f != [] && |r| > |f|)
  }

  /** The scan from the right if the text grows, else the one from the left. */
  function Rewritten(s: seq<byte>, f: seq<byte>, r: seq<byte>): seq<byte>
    requires f != []
  {
    if |r| > |f| then ReplaceBack(s, f, r, |s| - 1) else ReplaceAll(s, f, r)
  }

  /** For all texts it is the greedy replacement exactly if the text does not grow or find is clean. */
  lemma RewrittenIsGreedy(f: seq<byte>, r: seq<byte>)
    requires f != [] && NulFree(f)
    ensures |r| <= |f| || Clean(f, r) <==> forall s :: NulFree(s) ==> Rewritten(s, f, r) == ReplaceAll(s, f, r)
  {
    hide Clean, ReplaceAll, ReplaceBack;
    if |r| > |f| {
      GrowingRightIffClean(f, r);
      if forall s :: NulFree(s) ==> Rewritten(s, f, r) == ReplaceAll(s, f, r) {
        forall s | NUL !in s
          ensures ReplaceBack(s, f, r, |s| - 1) == ReplaceAll(s, f, r)
        {
          assert NulFree(s);
        }
      }
    }
  }

  /** Appending nothing does not even validate an invalid string. */
  function Appended(s: State, t: seq<byte>): State {
    if t == [] then s else Text(Shown(s) + t)
  }

  /** The operations lead from s to s' through the states in between, failing where failures says so. */
  ghost predicate Run(ops: seq<Op>, others: seq<State>, states: seq<State>, failures: seq<bool>, s: State, s': State) {
    && |states| == |ops| + 1 && |failures| == |ops| && states[0] == s && states[|ops|] == s'
    && (forall k :: 0 <= k < |ops| ==> Allowed(ops[k], others))
    && forall k :: 0 <= k < |ops| ==> Step(ops[k], others, states[k], failures[k], states[k + 1])
  }

  /** Given where memory was refused, an operation has only one result. */
  lemma StepDetermined(op: Op, others: seq<State>, s: State, failed: bool, a: State, b: State)
    requires Allowed(op, others) && Step(op, others, s, failed, a) && Step(op, others, s, failed, b)
    ensures a == b
  {
    if op.Trim? && s.Text? {
      TrimmedUnique(s.text, a.text, b.text);
    }
  }

  /** And so has a whole run. */
  lemma {:induction false} RunDetermined(ops: seq<Op>, others: seq<State>, failures: seq<bool>, s: State,
                                         a: seq<State>, lastA: State, b: seq<State>, lastB: State, n: nat)
    requires n <= |ops| && Run(ops, others, a, failures, s, lastA) && Run(ops, others, b, failures, s, lastB)
    ensures a[n] == b[n]
  {
    if n > 0 {
      RunDetermined(ops, others, failures, s, a, lastA, b, lastB, n - 1);
      StepDetermined(ops[n - 1], others, a[n - 1], failures[n - 1], a[n], b[n]);
    }
  }

  ghost function View(s: String): State
    requires s.Valid()
    reads s, s.buffer
  {
    if s.buffer == null then Invalid else Text(s.Contents())
  }

  /** The other strings are in order, hold these states, and share no memory with s. */
  ghost predicate Holds(env: seq<String>, others: seq<State>, s: String)
    reads s, set k | 0 <= k < |env| :: env[k]
    reads set k | 0 <= k < |env| && env[k].buffer != null :: env[k].buffer
  {
    |env| == |others| && forall k :: 0 <= k < |env| ==> env[k].Valid() && View(env[k]) == others[k] && s.Apart(env[k])
  }

  method Perform(s: String, op: Op, env: seq<String>, ghost others: seq<State>)
    requires s.Valid() && Holds(env, others, s) && Allowed(op, others)
    modifies s, s.buffer
    ensures s.Valid() && s.OwnBuffer()
    ensures Step(op, others, old(View(s)), s.refused > old(s.refused), View(s))
    ensures old(s.refused) <= s.refused <= old(s.refused) + 1
  {
    hide Step, Holds, Allowed;
    if op.Assign? || op.ConcatString? || op.Replace? {
      PerformWith(s, op, env, others);
    } else {
      PerformAlone(s, op, others);
    }
  }

  /** Operations that another string takes part in. */
  method PerformWith(s: String, op: Op, env: seq<String>, ghost others: seq<State>)
    requires s.Valid() && Holds(env, others, s) && Allowed(op, others)
    requires op.Assign? || op.ConcatString? || op.Replace?
    modifies s, s.buffer
    ensures s.Valid() && s.OwnBuffer()
    ensures Step(op, others, old(View(s)), s.refused > old(s.refused), View(s))
    ensures old(s.refused) <= s.refused <= old(s.refused) + 1
  {
    match op
    case Assign(i) => s.Assign(env[i]);
    case ConcatString(i) => var _ := s.ConcatString(env[i]);
    case Replace(i, j) => var _ := s.Replace(env[i], env[j]);
  }

  /** The others. */
  method PerformAlone(s: String, op: Op, ghost others: seq<State>)
    requires s.Valid() && Allowed(op, others) && !op.Assign? && !op.ConcatString? && !op.Replace?
    modifies s, s.buffer
    ensures s.Valid() && s.OwnBuffer()
    ensures Step(op, others, old(View(s)), s.refused > old(s.refused), View(s))
    ensures old(s.refused) <= s.refused <= old(s.refused) + 1
  {
    match op
    case Reserve(size) => var _ := s.Reserve(size);
    case AssignText(t) => s.AssignText(t);
    case ConcatText(t) => var _ := s.Concat(t);
    case ConcatChar(c) => var _ := s.ConcatChar(c);
    case Remove(index, count) => var _ := s.Remove(index, count);
    case RemoveFrom(index) => s.RemoveFrom(index);
    case Trim => s.Trim();
    case ReplaceChar(from, to) => s.ReplaceChar(from, to);
  }

  /**
    Every run keeps the representation, and what it does to the text is a run of the abstract machine, which
    fails exactly where memory was refused.
   */
  method PerformAll(s: String, ops: seq<Op>, env: seq<String>, ghost others: seq<State>)
    returns (ghost states: seq<State>, ghost failures: seq<bool>)
    requires s.Valid() && Holds(env, others, s) && forall k :: 0 <= k < |ops| ==> Allowed(ops[k], others)
    modifies s, s.buffer
    ensures s.Valid() && Holds(env, others, s)
    ensures Run(ops, others, states, failures, old(View(s)), View(s))
    ensures s.refused == old(s.refused) + Failures(failures)
  {
    hide Step, Failures;
    states, failures := [View(s)], [];
    assert Failures([]) == 0 by { NoFailures(); }
    for k := 0 to |ops|
      invariant s.Valid() && s.OwnBuffer() && Holds(env, others, s)
      invariant |states| == k + 1 && |failures| == k && states[0] == old(View(s)) && states[k] == View(s)
      invariant forall i :: 0 <= i < k ==> Step(ops[i], others, states[i], failures[i], states[i + 1])
      invariant s.refused == old(s.refused) + Failures(failures)
    {
      ghost var before := s.refused;
      Perform(s, ops[k], env, others);
      states := states + [View(s)];
      FailuresSnoc(failures, s.refused > before);
      failures := failures + [s.refused > before];
    }
  }

  lemma NoFailures()
    ensures Failures([]) == 0
  {
  }

  lemma FailuresSnoc(failures: seq<bool>, failed: bool)
    ensures Failures(failures + [failed]) == Failures(failures) + if failed then 1 else 0
  {
    assert (failures + [failed])[..|failures|] == failures;
  }

  /** How often memory was refused. */
  function Failures(failures: seq<bool>): nat {
    if failures == [] then 0
    else Failures(failures[..|failures| - 1]) + if failures[|failures| - 1] then 1 else 0
  }
}
