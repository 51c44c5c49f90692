/** `String`: a heap buffer with a capacity, edited in place. */
module WString {
  import opened Machine
  import opened Occurrences
  import opened Replacement
  import opened Spaces

  /** No heap block is larger than this, so that an `int` can index it. */
  const MAX_BLOCK := INT_MAX

  /** How an edit ends: the second as soon as it would leave its heap block. */
  datatype Outcome = Done | OutOfBounds

  /** `realloc`: may fail; otherwise keeps the common prefix. */
  method Realloc(block: array?<byte>, size: nat) returns (r: array?<byte>)
    ensures r != null ==> fresh(r) && r.Length == size <= MAX_BLOCK
    ensures r != null && block != null ==>
      forall i :: 0 <= i < size && i < block.Length ==> r[i] == block[i]
  {
    if size > MAX_BLOCK { return null; }
    if * { return null; }
    r := new byte[size];
    if block != null {
      forall i | 0 <= i < size && i < block.Length {
        r[i] := block[i];
      }
    }
  }

  /** Forward byte-by-byte copy inside one buffer (memcpy or strcpy to a lower address). */
  method CopyDown(a: array<byte>, dst: nat, src: nat, n: nat)
    requires dst <= src && src + n <= a.Length
    modifies a
    ensures a[..] == Patch(old(a[..]), dst, old(a[src..src + n]))
  {
    hide Patch;
    ghost var before := a[..];
    PatchNothing(before, dst);
    assert before[src..src] == [];
    for i := 0 to n
      invariant a[..] == Patch(before, dst, before[src..src + i])
    {
      PatchAround(before, dst, before[src..src + i]);
      assert a[src + i] == a[..][dst + i..][src - dst] == before[dst + i..][src - dst] == before[src + i];
      PatchSnoc(before, dst, before[src..src + i], before[src + i]);
      assert before[src..src + i] + [before[src + i]] == before[src..src + i + 1];
      a[dst + i] := a[src + i];
    }
  }

  /** memmove to a higher address. */
  method MoveUp(a: array<byte>, dst: nat, src: nat, n: nat)
    requires src <= dst && dst + n <= a.Length
    modifies a
    ensures a[..] == Patch(old(a[..]), dst, old(a[src..src + n]))
  {
    forall k | 0 <= k < n {
      a[dst + k] := a[src + k];
    }
  }

  /** memcpy or strcpy from outside the buffer. */
  method CopyIn(a: array<byte>, dst: nat, t: seq<byte>)
    requires dst + |t| <= a.Length
    modifies a
    ensures a[..] == Patch(old(a[..]), dst, t)
  {
    forall k | 0 <= k < |t| {
      a[dst + k] := t[k];
    }
  }

  predicate NulFree(t: seq<byte>) {
    NUL !in t
  }

  class String {
    var buffer: array?<byte>
    var capacity: nat
    var len: nat
    /** How many times this string asked for memory and got none. */
    ghost var refused: nat

    ghost predicate Valid()
      reads this, buffer
    {
      if buffer == null then len == 0 && capacity == 0
      else
        && buffer.Length == capacity + 1 <= MAX_BLOCK
        && len <= capacity
        && buffer[len] == NUL
        && NulFree(buffer[..len])
    }

    ghost function Contents(): seq<byte>
      reads this, buffer
      requires Valid()
    {
      if buffer == null then [] else buffer[..len]
    }

    /** No memory is shared with the other string. */
    ghost predicate Apart(other: String)
      reads this, other
    {
      this != other && (buffer != null ==> buffer != other.buffer)
    }

    /** The buffer is the old one or a new one. */
    twostate predicate OwnBuffer()
      reads this
    {
      buffer == old(buffer) || buffer == null || fresh(buffer)
    }

    /** Nothing at all changed. */
    twostate predicate Same()
      reads this, buffer
    {
      && buffer == old(buffer) && capacity == old(capacity) && len == old(len)
      && (buffer != null ==> buffer[..] == old(buffer[..]))
    }

    constructor Init()
      ensures Valid() && buffer == null && Contents() == [] && refused == 0
    {
      buffer := null;
      capacity := 0;
      len := 0;
      refused := 0;
    }

    /** String(cstr): a copy of the text, or an invalid string. */
    constructor FromText(cstr: Option<seq<byte>>)
      requires cstr.Some? ==> NulFree(cstr.value)
      ensures Valid() && (buffer != null ==> fresh(buffer) && cstr.Some? && Contents() == cstr.value)
      ensures refused == if cstr.Some? && buffer == null then 1 else 0
    {
      buffer := null;
      capacity := 0;
      len := 0;
      refused := 0;
      new;
      if cstr.Some? { Copy(cstr.value); }
    }

    method Invalidate()
      modifies this
      ensures Valid() && buffer == null && Contents() == [] && refused == old(refused)
    {
      buffer := null;
      capacity := 0;
      len := 0;
    }

    method ChangeBuffer(maxStrLen: nat) returns (ok: bool)
      modifies this
      ensures len == old(len) && refused == old(refused) + (if ok then 0 else 1)
      ensures !ok ==> buffer == old(buffer) && capacity == old(capacity)
      ensures ok ==> && buffer != null && fresh(buffer)
                     && buffer.Length == maxStrLen + 1 <= MAX_BLOCK && capacity == maxStrLen
      ensures ok && old(buffer) != null ==>
        forall i :: 0 <= i < buffer.Length && i < old(buffer).Length ==> buffer[i] == old(buffer[..])[i]
    {
      var newbuffer := Realloc(buffer, maxStrLen + 1);
      if newbuffer != null {
        buffer := newbuffer;
        capacity := maxStrLen;
        return true;
      }
      refused := refused + 1;
      return false;
    }

    /** reserve: the text is kept; on failure nothing changes at all. */
    method Reserve(size: nat) returns (ok: bool)
      requires Valid()
      modifies this, buffer
      ensures Valid() && Contents() == old(Contents()) && len == old(len)
      ensures OwnBuffer()
      ensures ok ==> buffer != null && capacity >= size
      ensures !ok ==> Same()
      ensures refused == old(refused) + (if ok then 0 else 1)
      ensures old(buffer) != null && old(capacity) >= size ==> ok && Same()
    {
      if buffer != null && capacity >= size { return true; }
      var done := ChangeBuffer(size);
      if done {
        if len == 0 { buffer[0] := NUL; }
        if old(buffer) != null {
          assert buffer[..len] == old(buffer[..len]);
        }
        return true;
      }
      return false;
    }

    /** copy: assigns the text, or leaves an invalid empty string when memory runs out. */
    method Copy(cstr: seq<byte>)
      requires Valid() && NulFree(cstr)
      modifies this, buffer
      ensures Valid() && OwnBuffer()
      ensures if buffer == null then Contents() == [] else Contents() == cstr
      ensures refused == old(refused) + (if buffer == null then 1 else 0)
      ensures old(buffer) != null && old(capacity) >= |cstr| ==> buffer == old(buffer)
    {
      var ok := Reserve(|cstr|);
      if !ok {
        Invalidate();
        return;
      }
      len := |cstr|;
      CopyIn(buffer, 0, cstr + [NUL]);
      assert buffer[..len] == cstr;
    }

    /** operator= on another String. */
    method Assign(rhs: String)
      requires Valid() && rhs.Valid() && (rhs == this || Apart(rhs))
      modifies this, buffer
      ensures Valid() && OwnBuffer()
      ensures rhs == this ==> Same()
      ensures rhs != this ==> rhs.Valid() && rhs.Contents() == old(rhs.Contents())
      ensures buffer != null ==> Contents() == old(rhs.Contents())
      ensures old(rhs.buffer) == null ==> buffer == null
      ensures buffer == null ==> Contents() == []
      ensures refused == old(refused) + (if buffer == null && old(rhs.buffer) != null then 1 else 0)
    {
      if rhs == this { return; }
      if rhs.buffer != null {
        Copy(rhs.buffer[..rhs.len]);
      } else {
        Invalidate();
      }
    }

    /** operator= on a C string, which may be a null pointer. */
    method AssignText(cstr: Option<seq<byte>>)
      requires Valid() && (cstr.Some? ==> NulFree(cstr.value))
      modifies this, buffer
      ensures Valid() && OwnBuffer()
      ensures buffer != null ==> cstr.Some? && Contents() == cstr.value
      ensures refused == old(refused) + (if buffer == null && cstr.Some? then 1 else 0)
    {
      match cstr
      case Some(t) => Copy(t);
      case None => Invalidate();
    }

    /** concat(cstr, length): appends, or reports failure and leaves everything as it was. */
    method Concat(cstr: Option<seq<byte>>) returns (ok: bool)
      requires Valid() && (cstr.Some? ==> NulFree(cstr.value))
      modifies this, buffer
      ensures Valid() && OwnBuffer()
      ensures !ok || (cstr.Some? && cstr.value == []) ==> Same()
      ensures ok ==> cstr.Some? && Contents() == old(Contents()) + cstr.value
      ensures ok && cstr.value != [] ==> buffer != null
      ensures refused == old(refused) + (if cstr.Some? && !ok then 1 else 0)
      ensures cstr.Some? && (cstr.value == [] || (old(buffer) != null && old(capacity) >= old(len) + |cstr.value|)) ==> ok
    {
      if cstr.None? { return false; }
      var t := cstr.value;
      if |t| == 0 {
        assert Contents() == old(Contents()) + t;
        return true;
      }
      var newlen := len + |t|;
      var done := Reserve(newlen);
      if !done { return false; }
      ghost var before := buffer[..len];
      CopyIn(buffer, len, t + [NUL]);
      len := newlen;
      assert buffer[..len] == before + t;
      return true;
    }

    method ConcatString(s: String) returns (ok: bool)
      requires Valid() && s.Valid() && Apart(s)
      modifies this, buffer
      ensures Valid() && OwnBuffer()
      ensures !ok || s.len == 0 ==> Same()
      ensures ok ==> s.buffer != null && Contents() == old(Contents()) + s.Contents()
      ensures ok && s.len > 0 ==> buffer != null
      ensures refused == old(refused) + (if s.buffer != null && !ok then 1 else 0)
      ensures s.Valid() && s.Contents() == old(s.Contents())
    {
      ok := Concat(if s.buffer == null then None else Some(s.buffer[..s.len]));
    }

    /** concat(char) counts a NUL character as one, which is exactly what breaks the representation. */
    method ConcatChar(c: byte) returns (ok: bool)
      requires Valid()
      modifies this, buffer
      ensures OwnBuffer()
      ensures !ok ==> Same()
      ensures ok ==> (Valid() <==> c != NUL)
      ensures refused == old(refused) + (if ok then 0 else 1)
      ensures ok && c != NUL ==> Contents() == old(Contents()) + [c]
    {
      if c != NUL {
        ok := Concat(Some([c]));
        return;
      }
      var newlen := len + 1;
      ok := Reserve(newlen);
      if !ok { return; }
      buffer[len] := NUL;
      len := newlen;
      assert buffer[..len][len - 1] == NUL;
    }

    // ----- searching

    /** lastIndexOf(s2, from): overlapping occurrences count; an empty s2 is never found. */
    method LastIndexOf(s2: String, fromIndex: nat) returns (found: int)
      requires Valid() && s2.Valid()
      ensures found == if s2.len == 0 then -1 else LastAt(Contents(), s2.Contents(), Min(fromIndex, len - 1))
    {
      var text, t := if buffer == null then [] else buffer[..len], if s2.buffer == null then [] else s2.buffer[..s2.len];
      found := LastFrom(text, t, fromIndex);
    }

    static method LastFrom(text: seq<byte>, t: seq<byte>, fromIndex: nat) returns (found: int)
      ensures found == if t == [] then -1 else LastAt(text, t, Min(fromIndex, |text| - 1))
    {
      if |t| == 0 { return -1; }
      if |text| == 0 || |t| > |text| {
        LastAtTooLong(text, t, Min(fromIndex, |text| - 1));
        return -1;
      }
      found := LastIn(text, t, fromIndex);
    }

    static method LastIn(text: seq<byte>, t: seq<byte>, fromIndex: nat) returns (found: int)
      requires 1 <= |t| <= |text|
      ensures found == LastAt(text, t, Min(fromIndex, |text| - 1))
    {
      hide OccursAt, Find, LastAt;
      var from := if fromIndex >= |text| then |text| - 1 else fromIndex;
      found := -1;
      var p := 0;
      while p <= from
        invariant 0 <= p <= |text|
        invariant -1 <= found < p && (found == -1 || (found <= from && OccursAt(t, text, found)))
        invariant forall j :: found < j < p && j <= from ==> !OccursAt(t, text, j)
        decreases |text| - p
      {
        var q := Find(text[p..], t);
        forall j | p <= j
          ensures OccursAt(t, text[p..], j - p) <==> OccursAt(t, text, j)
        {
          OccursShift(t, text, p, j - p);
        }
        if q == -1 {
          p := from + 1;
          break;
        }
        FoundIs(text[p..], t, q);
        p := p + q;
        if p <= from { found := p; }
        p := p + 1;
      }
      LastAtUnique(text, t, from, found);
    }

    // ----- editing

    /**
      substring(left, right): bounds may be swapped and are clamped. What is copied is the C string at the left
      bound, and the NUL lent at the right bound is what ends it.
     */
    method Substring(left: nat, right: nat) returns (out: String)
      requires Valid() && (buffer != null || Min(left, right) > len)
      modifies buffer
      ensures Valid() && Same()
      ensures fresh(out) && out.Valid() && (out.buffer != null ==> fresh(out.buffer))
      ensures out.buffer != null ==> out.Contents() == Slice(Contents(), left, right)
      ensures out.buffer == null ==> out.refused > 0
    {
      hide NulFree, Slice, AllSpace, UpToNul;
      NothingNulFree();
      SliceCases(buffer, len, left, right);
      var lo, hi := if left > right then right else left, if left > right then left else right;
      out := new String.FromText(Some([]));
      if lo > len { return; }
      if hi > len { hi := len; }
      var temp := buffer[hi];
      ghost var before := buffer[..];
      buffer[hi] := NUL;
      assert buffer[..] == before[hi := NUL];
      LentNul(before, lo, hi, len);
      out.AssignText(Some(UpToNul(buffer[lo..])));
      assert buffer[..] == before[hi := NUL];
      buffer[hi] := temp;
      assert buffer[..] == before[hi := NUL][hi := temp] == before;
    }

    /** remove(index, count); a sum that wraps passes the test against len and then points outside the block. */
    method Remove(index: word, count: word) returns (out: Outcome)
      requires Valid()
      modifies this, buffer
      ensures Valid() && buffer == old(buffer) && capacity == old(capacity) && refused == old(refused)
      ensures out == OutOfBounds <==> index < old(len) && index + count >= WORD_LIMIT
      ensures out == Done ==> Contents() == Cut(old(Contents()), index, count)
      ensures out == OutOfBounds ==> Same()
    {
      if index >= len { return Done; }
      if count <= 0 { return Done; }
      var n := count;
      if ToWord(index + n) > len { n := len - index; }
      if index + n > len { return OutOfBounds; }
      out := Done;
      ghost var text := Contents();
      CloseGap(index, n, len);
      assert old(buffer[index + n..len]) == text[index + n..] && old(buffer[..index]) == text[..index];
    }

    /** Moves what follows the n bytes at index down over them; size is the end of the text. */
    method CloseGap(index: nat, n: nat, size: nat)
      requires buffer != null && buffer.Length == capacity + 1 <= MAX_BLOCK
      requires index + n <= size <= capacity && NulFree(buffer[..size])
      modifies this`len, buffer
      ensures Valid() && Contents() == old(buffer[..index] + buffer[index + n..size])
    {
      hide Patch, NulFree;
      ghost var before := buffer[..];
      len := size - n;
      if n > 0 {
        CopyDown(buffer, index, index + n, len - index);
      } else {
        PatchWithItself(before, index, size - index);
      }
      assert buffer[..] == Patch(before, index, before[index + n..size]);
      buffer[len] := NUL;
      assert before[..size] == old(buffer[..size]);
      ShiftedDown(before, index, n, size);
      ghost var after := Patch(before, index, before[index + n..size])[len := NUL];
      assert buffer[..] == after;
      assert buffer[..len] == after[..len] && buffer[len] == after[len];
    }

    method RemoveFrom(index: word)
      requires Valid()
      modifies this, buffer
      ensures Valid() && buffer == old(buffer) && capacity == old(capacity) && refused == old(refused)
      ensures Contents() == if index < old(len) then old(Contents())[..index] else old(Contents())
    {
      if index >= len { return; }
      var count := len - index;
      var _ := Remove(index, count);
    }

    /** trim: strips all white space at both ends. */
    method Trim()
      requires Valid()
      modifies this, buffer
      ensures Valid() && buffer == old(buffer) && capacity == old(capacity) && refused == old(refused)
      ensures Trimmed(old(Contents()), Contents())
    {
      if buffer == null || len == 0 {
        TrimmedEnds(Contents(), 0, 0);
        return;
      }
      ghost var text := Contents();
      var begin, end := Ends(buffer, len);
      assert buffer[..begin] == text[..begin] && buffer[end..len] == text[end..];
      assert NulFree(buffer[..end]) by {
        assert forall c :: c in text[..end] ==> c in text;
        assert buffer[..end] == text[..end];
      }
      CloseGap(0, begin, end);
      assert Contents() == text[begin..end];
      TrimmedEnds(text, begin, end);
    }

    // ----- replacing

    /** replace(find, replace) for one character; introducing a NUL is what breaks the representation. */
    method ReplaceChar(find: byte, replace: byte)
      requires Valid()
      modifies buffer
      ensures Valid() <==> replace != NUL || find !in old(Contents())
      ensures buffer != null ==> buffer[..len] == Substituted(old(Contents()), find, replace) && buffer[len] == NUL
      ensures Valid() ==> Contents() == Substituted(old(Contents()), find, replace)
    {
      if buffer == null { return; }
      ghost var text := Contents();
      var p := 0;
      while buffer[p] != NUL
        invariant 0 <= p <= len
        invariant forall i :: 0 <= i < p ==> buffer[i] == if text[i] == find then replace else text[i]
        invariant forall i :: p <= i < len ==> buffer[i] == text[i] != NUL
        invariant buffer[len] == NUL
        decreases len - p
      {
        if buffer[p] == find { buffer[p] := replace; }
        p := p + 1;
      }
      assert buffer[..len] == Substituted(text, find, replace);
      SubstitutedNulFree(text, find, replace);
    }

    /** replace(find, replace); find and replace are other strings, possibly the same one twice. */
    method Replace(find: String, replace: String) returns (out: Outcome)
      requires Valid() && find.Valid() && replace.Valid() && Apart(find) && Apart(replace)
      modifies this, buffer
      ensures find.Valid() && replace.Valid()
      ensures find.Contents() == old(find.Contents()) && replace.Contents() == old(replace.Contents())
      ensures out == Done ==> Valid() && OwnBuffer() && (buffer == null <==> old(buffer) == null)
      ensures old(find.len) == 0 ==> out == Done && Same()
      ensures old(find.len) > 0 ==>
        Replaced(old(Contents()), old(find.Contents()), old(replace.Contents()), out, old(capacity), old(refused))
      ensures old(find.len) == 0 ==> refused == old(refused)
    {
      if len == 0 || find.len == 0 {
        EmptyReplaced(find, replace);
        return Done;
      }
      var f, r := find.buffer[..find.len], if replace.buffer == null then [] else replace.buffer[..replace.len];
      var diff := replace.len - find.len;
      if diff == 0 {
        ReplaceSame(f, r);
        out := Done;
      } else if diff < 0 {
        ReplaceShorter(f, r);
        out := Done;
      } else {
        out := ReplaceLonger(f, r, diff);
      }
    }

    lemma EmptyReplaced(find: String, replace: String)
      requires Valid() && find.Valid() && replace.Valid() && (len == 0 || find.len == 0)
      ensures find.len > 0 ==> ReplaceAll(Contents(), find.Contents(), replace.Contents()) == Contents()
    {
      if find.len > 0 {
        ReplaceAllNone(Contents(), find.Contents(), replace.Contents());
      }
    }

    /**
      What is left when the call returns. A replacement that does not grow is always the intended one. A
      growing one leaves the text if there was no memory for the intended result. Otherwise the block has room
      for the intended result, and the scan from the right goes out of bounds exactly when its own result is
      longer; it never does so if no suffix of find begins replace, and if in addition find is unbordered its
      result is the intended one.
     */
    ghost predicate Replaced(text: seq<byte>, f: seq<byte>, r: seq<byte>, out: Outcome, room: nat, refusals: nat)
      requires f != []
      requires out == Done ==> Valid()
      reads this, buffer
    {
      var intended := ReplaceAll(text, f, r);
      if |r| <= |f| then
        out == Done && refused == refusals && capacity == room && Contents() == intended
      else if refused != refusals then
        out == Done && refused == refusals + 1 && |intended| > room && capacity == room && Contents() == text
      else
        var actual := ReplaceBack(text, f, r, |text| - 1);
        && (out == OutOfBounds <==> |actual| > Max(room, |intended|))
        && (out == Done ==> Contents() == actual && capacity == Max(room, |intended|))
        && (ClashFree(f, r) ==> out == Done)
        && (Clean(f, r) ==> actual == intended)
    }

    method ReplaceSame(f: seq<byte>, r: seq<byte>)
      requires Valid() && len > 0 && |f| == |r| > 0 && NulFree(r)
      modifies buffer
      ensures Valid() && Contents() == ReplaceAll(old(Contents()), f, r)
    {
      hide Find, OccursAt, ReplaceAll, Patch, NulFree, Progress;
      ghost var text := Contents();
      var readFrom := 0;
      ProgressStart(text, f, r);
      assert buffer[..0] == [];
      while true
        invariant 0 <= readFrom <= len == |text| && buffer[len] == NUL
        invariant buffer[readFrom..len] == text[readFrom..]
        invariant Progress(buffer[..readFrom], text, readFrom, f, r)
        decreases len - readFrom
      {
        var k := Find(buffer[readFrom..len], f);
        if k == -1 { break; }
        ProgressStep(buffer[..readFrom], text, readFrom, f, r, k);
        ghost var before := buffer[..];
        var foundAt := readFrom + k;
        SubSlice(before, readFrom, len, k, k + |r|);
        SubSlice(text, readFrom, len, k, k + |r|);
        CopyIn(buffer, foundAt, r);
        PatchWithItself(before, readFrom, k);
        ForwardRound(before, readFrom, readFrom, k, r, foundAt + |r|);
        SameTail(before, buffer[..], foundAt + |r|, len);
        assert buffer[..foundAt + |r|] == buffer[..][..foundAt + |r|];
        readFrom := foundAt + |r|;
      }
      ProgressEnd(buffer[..readFrom], text, readFrom, f, r);
      assert buffer[..len] == buffer[..readFrom] + buffer[readFrom..len];
      ReplaceAllNulFree(text, f, r);
    }

    method ReplaceShorter(f: seq<byte>, r: seq<byte>)
      requires Valid() && len > 0 && |f| > |r| && NulFree(r)
      modifies this`len, buffer
      ensures Valid() && Contents() == ReplaceAll(old(Contents()), f, r)
    {
      hide Find, OccursAt, ReplaceAll, Patch, NulFree, Progress;
      ghost var text := Contents();
      var end := len;
      var readFrom, writeTo := ShorteningPass(f, r);
      ProgressEnd(buffer[..writeTo], text, readFrom, f, r);
      ReplaceAllNulFree(text, f, r);
      ghost var before := buffer[..];
      CopyDown(buffer, writeTo, readFrom, end + 1 - readFrom);
      TerminatedDown(before, writeTo, readFrom, end);
      assert buffer[..len] == buffer[..][..len] && buffer[len] == buffer[..][len];
    }

    /** The loop: the write position never passes the read position, and nothing unread is touched. */
    method ShorteningPass(f: seq<byte>, r: seq<byte>) returns (readFrom: nat, writeTo: nat)
      requires Valid() && len > 0 && |f| > |r|
      modifies this`len, buffer
      ensures writeTo <= readFrom <= old(len) <= capacity && len == old(len) - (readFrom - writeTo)
      ensures buffer[readFrom..old(len)] == old(Contents())[readFrom..] && buffer[old(len)] == NUL
      ensures Progress(buffer[..writeTo], old(Contents()), readFrom, f, r)
      ensures Find(old(Contents())[readFrom..], f) == -1
    {
      hide Find, OccursAt, ReplaceAll, NulFree, Progress;
      ghost var text := Contents();
      var end := len;
      readFrom, writeTo := 0, 0;
      ProgressStart(text, f, r);
      assert buffer[..0] == [];
      while true
        invariant writeTo <= readFrom <= end == |text| && buffer[end] == NUL
        invariant len == end - (readFrom - writeTo)
        invariant buffer[readFrom..end] == text[readFrom..]
        invariant Progress(buffer[..writeTo], text, readFrom, f, r)
        decreases end - readFrom
      {
        var k := Find(buffer[readFrom..end], f);
        if k == -1 { break; }
        ProgressStep(buffer[..writeTo], text, readFrom, f, r, k);
        var foundAt := readFrom + k;
        SubSlice(buffer[..], readFrom, end, k, k + |f|);
        SubSlice(text, readFrom, end, k, k + |f|);
        assert buffer[readFrom..foundAt] == text[readFrom..foundAt];
        assert buffer[foundAt + |f|..end] == text[foundAt + |f|..];
        WriteRound(writeTo, readFrom, k, r, foundAt + |f|, end);
        writeTo := writeTo + k + |r|;
        readFrom := foundAt + |f|;
        len := len - (|f| - |r|);
      }
    }

    /** Writes k unchanged bytes and r at w; what starts at next is not touched. */
    method WriteRound(w: nat, at: nat, k: nat, r: seq<byte>, next: nat, ghost n: nat)
      requires buffer != null && w <= at && at + k <= next <= n < buffer.Length && w + k + |r| <= next
      modifies buffer
      ensures buffer[..w + k + |r|] == old(buffer[..w]) + old(buffer[at..at + k]) + r
      ensures buffer[next..n] == old(buffer[next..n]) && buffer[n] == old(buffer[n])
    {
      hide Patch;
      ghost var before := buffer[..];
      CopyDown(buffer, w, at, k);
      CopyIn(buffer, w + k, r);
      ForwardRound(before, w, at, k, r, next);
      SameTail(before, buffer[..], next, n);
      assert buffer[..][..w + k + |r|] == buffer[..w + k + |r|];
      assert before[..w] == old(buffer[..w]) && before[at..at + k] == old(buffer[at..at + k]);
    }

    method ReplaceLonger(f: seq<byte>, r: seq<byte>, diff: nat) returns (out: Outcome)
      requires Valid() && len > 0 && f != [] && diff == |r| - |f| > 0 && NulFree(r)
      modifies this, buffer
      ensures out == Done ==> Valid() && OwnBuffer() && buffer != null
      ensures Replaced(old(Contents()), f, r, out, old(capacity), old(refused))
    {
      hide Find, OccursAt, LastAt, ReplaceAll, ReplaceBack, Patch, Unbordered, ClashFree, NulFree;
      ghost var text, room := Contents(), capacity;
      var size := CountedSize(buffer[..len], f, r);
      ReplaceAllGrows(text, f, r);
      if ClashFree(f, r) { ClashFreeFits(text, f, r); }
      if Clean(f, r) { CleanScansAgree(text, f, r); }
      if size == len {
        ReplaceAllNone(text, f, r);
        NothingToReplace(text, f, r);
        return Done;
      }
      if size > capacity {
        var ok := ChangeBuffer(size);
        if !ok { return Done; }
        assert buffer[..len] == text;
      }
      out := ScanBack(f, r, diff, size);
    }

    /** The forward counting scan gives the length of the intended result. */
    static method CountedSize(text: seq<byte>, f: seq<byte>, r: seq<byte>) returns (size: nat)
      requires f != [] && |r| >= |f|
      ensures size == |ReplaceAll(text, f, r)|
    {
      hide Find, OccursAt, ReplaceAll, Progress;
      size := |text|;
      var readFrom := 0;
      ghost var done: seq<byte> := [];
      ProgressStart(text, f, r);
      while true
        invariant Progress(done, text, readFrom, f, r) && readFrom <= |text|
        invariant size == |done| + |text| - readFrom
        decreases |text| - readFrom
      {
        var k := Find(text[readFrom..], f);
        if k == -1 { break; }
        ProgressStep(done, text, readFrom, f, r, k);
        done := done + text[readFrom..readFrom + k] + r;
        readFrom := readFrom + k + |f|;
        size := size + (|r| - |f|);
      }
      ProgressEnd(done, text, readFrom, f, r);
    }

    /** The rewriting scan, from the last occurrence to the first. */
    method ScanBack(f: seq<byte>, r: seq<byte>, diff: nat, ghost size: nat) returns (out: Outcome)
      requires Valid() && len > 0 && f != [] && diff == |r| - |f| > 0 && NulFree(r)
      requires size <= capacity
      modifies this`len, buffer
      ensures out == Done ==> Valid() && Contents() == ReplaceBack(old(Contents()), f, r, old(len) - 1)
      ensures out == OutOfBounds <==> |ReplaceBack(old(Contents()), f, r, old(len) - 1)| > capacity
    {
      hide Find, OccursAt, LastAt, ReplaceBack, Patch, NulFree;
      ghost var text := Contents();
      var index := len - 1;
      while index >= 0
        invariant -1 <= index < len
        invariant Valid() && len == |Contents()|
        invariant ReplaceBack(Contents(), f, r, index) == ReplaceBack(text, f, r, |text| - 1)
        decreases index
      {
        ghost var now, from := Contents(), index;
        index := LastFrom(buffer[..len], f, index);
        if index < 0 {
          ReplaceBackNone(now, f, r, from);
          return Done;
        }
        ReplaceBackUnfold(now, f, r, from, index);
        ReplaceBackGrows(Splice(now, index, f, r), f, r, index - 1);
        if len + diff > capacity {
          return OutOfBounds;
        }
        RewriteAt(index, f, r, diff);
        index := index - 1;
      }
      ReplaceBackNone(Contents(), f, r, -1);
      return Done;
    }

    /** One rewriting step, with room for the longer text. */
    method RewriteAt(index: nat, f: seq<byte>, r: seq<byte>, diff: nat)
      requires Valid() && buffer != null && diff == |r| - |f| > 0 && NulFree(r)
      requires index + |f| <= len && len + diff <= capacity
      modifies this`len, buffer
      ensures Valid() && len == old(len) + diff
      ensures Contents() == Splice(old(Contents()), index, f, r)
    {
      hide Patch, NulFree;
      ghost var before, text := buffer[..], Contents();
      var readFrom := index + |f|;
      MoveUp(buffer, readFrom + diff, readFrom, len - readFrom);
      ghost var n := len;
      len := len + diff;
      assert buffer[..] == Patch(before, index + |r|, before[readFrom..n]);
      buffer[len] := NUL;
      assert buffer[..] == Patch(before, index + |r|, before[readFrom..n])[len := NUL];
      CopyIn(buffer, index, r);
      SplicedUp(before, index, f, r, n);
      assert before[..n] == text;
      assert buffer[..len] == buffer[..][..len] && buffer[len] == buffer[..][len];
      SplicedNulFree(text, index, f, r);
    }

    /** The two scans of trim, over a text terminated by NUL. */
    static method Ends(buffer: array<byte>, len: nat) returns (begin: nat, end: nat)
      requires 0 < len < buffer.Length && buffer[len] == NUL
      ensures begin <= end <= len
      ensures AllSpace(buffer[..begin]) && AllSpace(buffer[end..len])
      ensures begin < end ==> !IsSpace(buffer[begin]) && !IsSpace(buffer[end - 1])
    {
      begin := 0;
      while IsSpace(buffer[begin])
        invariant 0 <= begin <= len
        invariant forall i :: 0 <= i < begin ==> IsSpace(buffer[i])
        decreases len - begin
      {
        begin := begin + 1;
      }
      var last := len - 1;
      while IsSpace(buffer[last]) && last >= begin
        invariant 0 <= last < len && begin <= last + 1
        invariant forall i :: last < i < len ==> IsSpace(buffer[i])
        decreases last
      {
        last := last - 1;
      }
      end := last + 1;
    }
  }

  /** Moving the tail of b[..size] down by n over position index leaves the text without those n bytes. */
  lemma ShiftedDown(b: seq<byte>, index: nat, n: nat, size: nat)
    requires index + n <= size < |b| && NulFree(b[..size])
    ensures var b' := Patch(b, index, b[index + n..size])[size - n := NUL];
      && b'[..size - n] == b[..index] + b[index + n..size]
      && b'[size - n] == NUL
      && NulFree(b'[..size - n])
  {
    var b' := Patch(b, index, b[index + n..size])[size - n := NUL];
    assert b'[..size - n] == b[..index] + b[index + n..size];
    assert forall c :: c in b[..index] ==> c in b[..size];
    assert forall c :: c in b[index + n..size] ==> c in b[..size];
  }

  lemma PatchWithItself(b: seq<byte>, at: nat, n: nat)
    requires at + n <= |b|
    ensures Patch(b, at, b[at..at + n]) == b
  {
  }

  function Substituted(text: seq<byte>, find: byte, replace: byte): (r: seq<byte>) {
    seq(|text|, i requires 0 <= i < |text| => if text[i] == find then replace else text[i])
  }

  lemma SubstitutedNulFree(text: seq<byte>, find: byte, replace: byte)
    requires NulFree(text)
    ensures NulFree(Substituted(text, find, replace)) <==> replace != NUL || find !in text
  {
    var t := Substituted(text, find, replace);
    if find in text {
      var i :| 0 <= i < |text| && text[i] == find;
      assert t[i] == replace;
    }
  }

  /** One round of the forward scans: text[at..at + k] and r are written at w, k bytes before the match. */
  lemma ForwardRound(b: seq<byte>, w: nat, at: nat, k: nat, r: seq<byte>, next: nat)
    requires w <= at && at + k <= next <= |b| && w + k + |r| <= next
    ensures var b' := Patch(Patch(b, w, b[at..at + k]), w + k, r);
      && b'[..w + k + |r|] == b[..w] + b[at..at + k] + r
      && b'[next..] == b[next..]
  {
    PatchPatch(b, w, b[at..at + k], r);
    var b' := Patch(b, w, b[at..at + k] + r);
    assert b'[..w + k + |r|] == b[..w] + b[at..at + k] + r;
    assert b'[next..] == b[next..];
  }

  lemma SubSlice(s: seq<byte>, from: nat, to: nat, i: nat, j: nat)
    requires from + i <= to <= |s| && from + j <= to
    ensures s[from..to][..i] == s[from..from + i]
    ensures s[from..to][j..] == s[from + j..to]
    ensures to == |s| ==> s[from..][..i] == s[from..from + i] && s[from..][j..] == s[from + j..]
  {
  }

  /** memmove, termination and memcpy of one rewriting step. */
  lemma SplicedUp(b: seq<byte>, k: nat, f: seq<byte>, r: seq<byte>, n: nat)
    requires |r| > |f| && k + |f| <= n && n + |r| - |f| < |b|
    ensures var m := n + |r| - |f|; var tail := k + |f|;
      var b' := Patch(Patch(b, k + |r|, b[tail..n])[m := NUL], k, r);
      b'[..m] == Splice(b[..n], k, f, r) && b'[m] == NUL
  {
    var m := n + |r| - |f|;
    var b' := Patch(Patch(b, k + |r|, b[k + |f|..n])[m := NUL], k, r);
    assert b'[..m] == b[..k] + r + b[k + |f|..n];
    assert b[..n][..k] == b[..k] && b[..n][k + |f|..] == b[k + |f|..n];
  }

  lemma SameTail(b: seq<byte>, b': seq<byte>, next: nat, n: nat)
    requires |b| == |b'| && next <= n < |b| && b'[next..] == b[next..]
    ensures b'[next..n] == b[next..n] && b'[n] == b[n]
  {
    assert b'[next..][..n - next] == b[next..][..n - next];
    assert b'[next..][n - next] == b[next..][n - next];
  }

  lemma TerminatedDown(b: seq<byte>, w: nat, at: nat, n: nat)
    requires w <= at <= n < |b| && b[n] == NUL
    ensures var b' := Patch(b, w, b[at..n + 1]); var size := w + n - at;
      b'[..size] == b[..w] + b[at..n] && b'[size] == NUL
  {
  }

  lemma ReplaceAllNulFree(text: seq<byte>, f: seq<byte>, r: seq<byte>)
    requires f != [] && NulFree(text) && NulFree(r)
    ensures NulFree(ReplaceAll(text, f, r))
  {
    ReplaceAllChars(text, f, r);
  }

  lemma SliceCases(b: array?<byte>, len: nat, left: nat, right: nat)
    requires b == null ==> len == 0
    requires b != null ==> len <= b.Length
    ensures var lo, hi := Min(left, right), Min(Max(left, right), len);
      && (lo > len ==> Slice(if b == null then [] else b[..len], left, right) == [])
      && (b != null && lo <= len ==> lo <= hi && Slice(b[..len], left, right) == b[lo..hi])
  {
    if b != null && Min(left, right) <= len {
      var lo, hi := Min(left, right), Min(Max(left, right), len);
      assert b[..len][lo..hi] == b[lo..hi];
    }
  }

  lemma NothingNulFree()
    ensures NulFree([])
  {
  }

  /** A NUL written at hi makes the text up to hi the C string at lo. */
  lemma LentNul(s: seq<byte>, lo: nat, hi: nat, n: nat)
    requires lo <= hi <= n < |s| && NulFree(s[..n])
    ensures UpToNul(s[hi := NUL][lo..]) == s[lo..hi] && NulFree(s[lo..hi])
  {
    var t := s[hi := NUL][lo..];
    assert forall c :: c in s[lo..hi] ==> c in s[..n];
    assert t[..hi - lo] == s[lo..hi];
    UpToNulAt(t, hi - lo);
  }

  lemma SplicedNulFree(text: seq<byte>, k: nat, f: seq<byte>, r: seq<byte>)
    requires k + |f| <= |text| && NulFree(text) && NulFree(r)
    ensures NulFree(Splice(text, k, f, r))
  {
  }

  lemma NothingToReplace(text: seq<byte>, f: seq<byte>, r: seq<byte>)
    requires Find(text, f) == -1
    ensures ReplaceBack(text, f, r, |text| - 1) == text
  {
    var k := LastAt(text, f, |text| - 1);
    ReplaceBackNone(text, f, r, |text| - 1);
  }

  lemma LastAtTooLong(text: seq<byte>, t: seq<byte>, from: int)
    requires |t| > |text| || text == []
    requires t != []
    ensures LastAt(text, t, from) == -1
  {
  }

  /** The part between two bounds, in either order, cut off at the end of the text. */
  function Slice(text: seq<byte>, left: nat, right: nat): seq<byte> {
    var lo, hi := Min(left, right), Min(Max(left, right), |text|);
    if lo > |text| then [] else text[lo..hi]
  }

  /** The text without the count characters at index, as far as it has them. */
  function Cut(text: seq<byte>, index: nat, count: nat): seq<byte> {
    if index >= |text| then text else text[..index] + text[Min(index + count, |text|)..]
  }

  /** Removing the middle of three parts leaves the other two; a count that is too large removes to the end. */
  lemma CutRemovesMiddle(a: seq<byte>, b: seq<byte>, c: seq<byte>, n: nat)
    ensures Cut(a + b + c, |a|, |b|) == a + c
    ensures n >= |b| ==> Cut(a + b, |a|, n) == a
    ensures Cut(a, |a| + n, |b|) == a
  {
    var s := a + b + c;
    assert s[..|a|] == a && s[|a| + |b|..] == c;
    assert (a + b)[..|a|] == a;
    if |a| == |s| {
      assert b == [] && c == [] && a + c == s;
    }
    if b == [] {
      assert a + b == a;
    }
  }

  /** The slice of the middle of three parts, with its bounds in either order, is the middle. */
  lemma SliceIsMiddle(a: seq<byte>, b: seq<byte>, c: seq<byte>, n: nat)
    ensures Slice(a + b + c, |a|, |a| + |b|) == b && Slice(a + b + c, |a| + |b|, |a|) == b
    ensures n >= |a| + |b| ==> Slice(a + b, |a|, n) == b && Slice(a + b, n, |a|) == b
    ensures n > |a| ==> Slice(a, n, n + |b|) == []
  {
    assert (a + b + c)[|a|..|a| + |b|] == b && (a + b)[|a|..] == b;
    assert (a + b)[|a|..|a| + |b|] == b;
  }

  /** Position by position: find becomes replace, everything else stays. */
  lemma SubstitutedAt(text: seq<byte>, find: byte, replace: byte, i: nat)
    requires i < |text|
    ensures |Substituted(text, find, replace)| == |text|
    ensures text[i] == find ==> Substituted(text, find, replace)[i] == replace
    ensures text[i] != find ==> Substituted(text, find, replace)[i] == text[i]
  {
  }

  /** The new length as remove computes it, in unsigned 32-bit arithmetic. */
  function RemovedLength(len: word, index: word, count: word): word {
    if index >= len || count == 0 then len
    else ToWord(len - (if ToWord(index + count) > len then len - index else count))
  }

  /** It is the right one exactly when index + count does not wrap. */
  lemma RemoveWraps(text: seq<byte>, index: word, count: word)
    requires index < |text| < WORD_LIMIT && count > 0
    ensures RemovedLength(|text|, index, count) == |Cut(text, index, count)| <==> index + count < WORD_LIMIT
  {
    var sum := index + count;
    if sum >= WORD_LIMIT {
      assert ToWord(sum) == sum - WORD_LIMIT < index;
      assert RemovedLength(|text|, index, count) == ToWord(|text| - count);
    } else {
      assert ToWord(sum) == sum;
    }
  }
}
