/**
 CollapsePath: the in-place right-to-left scan that removes `.`, `..` and empty
 segments with a counter and memmove, against the forward stack of linux_real_path.
 */
module CollapsePath {
  import opened Common
  import opened CString

  const DOT: Byte := 46

  type Segment = seq<Byte>

  predicate IsParent(seg: Segment) {
    seg == [DOT, DOT]
  }

  predicate IsFiller(seg: Segment) {
    seg == [] || seg == [DOT]
  }

  // ----- the scan on strings -----

  /** The scan on the unread prefix `s`. `tail` is the string at LastSegment; `final` says nothing has
      been read yet, so no separator follows the segment about to be read. None is -EINVAL. */
  function Collapsed(s: seq<Byte>, sep: Byte, pending: nat, tail: seq<Byte>, final: bool): Option<seq<Byte>>
    decreases |s|
  {
    var i := LastIndex(s, sep);
    if i < 0 then
      if pending > 0 then None else Some(if final then s else s + [sep] + tail)
    else
      var seg := s[i + 1..];
      if IsParent(seg) then Collapsed(s[..i], sep, pending + 1, tail, false)
      else if pending > 0 then Collapsed(s[..i], sep, pending - 1, tail, false)
      else if IsFiller(seg) then Collapsed(s[..i], sep, 0, tail, false)
      else Collapsed(s[..i], sep, 0, if final then seg else seg + [sep] + tail, false)
  }

  function Collapse(s: seq<Byte>, sep: Byte): Option<seq<Byte>> {
    Collapsed(s, sep, 0, [], true)
  }

  /** What the buffer looks like between two turns of the loop. */
  ghost predicate InStep(a: seq<Byte>, s: seq<Byte>, sep: Byte, remaining: nat, last: nat, pending: nat,
                         tail: seq<Byte>) {
    && |s| < |a| && remaining <= |s| && last <= |s|
    && a[..remaining] == s[..remaining]
    && HoldsAt(a, last, tail) && last + |tail| <= |s|
    && (remaining == |s| ==> last == |s| && tail == [] && pending == 0)
    && (remaining < |s| ==> remaining < last && a[remaining] == sep)
    && (remaining < |s| && pending == 0 ==> last == remaining + 1)
  }

  /** The separator before the segment about to be read. */
  ghost predicate NextAt(s: seq<Byte>, sep: Byte, remaining: nat, next: nat) {
    remaining <= |s| && next == LastIndex(s[..remaining], sep)
  }

  lemma StepParent(a: seq<Byte>, s: seq<Byte>, sep: Byte, remaining: nat, last: nat, pending: nat, tail: seq<Byte>,
                   next: nat)
    requires InStep(a, s, sep, remaining, last, pending, tail) && NextAt(s, sep, remaining, next)
    ensures InStep(a, s, sep, next, last, pending + 1, tail)
  {
    assert s[..remaining][next] == sep && a[..remaining][next] == a[next];
    assert a[..next] == a[..remaining][..next] && s[..next] == s[..remaining][..next];
  }

  lemma StepKeep(a: seq<Byte>, s: seq<Byte>, sep: Byte, remaining: nat, last: nat, tail: seq<Byte>, next: nat)
    requires sep != NUL && NUL !in s
    requires InStep(a, s, sep, remaining, last, 0, tail) && NextAt(s, sep, remaining, next)
    ensures var seg := s[..remaining][next + 1..];
            InStep(a, s, sep, next, next + 1, 0, if remaining == |s| then seg else seg + [sep] + tail)
  {
    StepParent(a, s, sep, remaining, last, 0, tail, next);
    var seg := s[..remaining][next + 1..];
    assert a[next + 1..remaining] == a[..remaining][next + 1..] == seg;
    if remaining < |s| {
      var end := last + |tail|;
      assert a[next + 1..end] == a[next + 1..remaining] + [a[remaining]] + a[last..end];
    } else {
      assert a[last] == NUL;
    }
  }

  lemma StepRemove(a: seq<Byte>, s: seq<Byte>, sep: Byte, remaining: nat, last: nat, pending: nat, tail: seq<Byte>,
                   next: nat, pending': nat)
    requires InStep(a, s, sep, remaining, last, pending, tail) && NextAt(s, sep, remaining, next)
    ensures next + 1 + (|s| - last + 1) <= |s| + 1
    ensures var a' := Moved(a, next + 1, last, |s| - last + 1);
            InStep(a', s, sep, next, next + 1, pending', tail) && a'[|s| + 1..] == a[|s| + 1..]
  {
    StepParent(a, s, sep, remaining, last, pending, tail, next);
    var a' := Moved(a, next + 1, last, |s| - last + 1);
    MovedHolds(a, next + 1, last, |s| - last + 1, tail);
    FrontKept(a, a', next);
  }

  lemma FrontKept(a: seq<Byte>, a': seq<Byte>, next: nat)
    requires next + 1 <= |a| == |a'| && a'[..next + 1] == a[..next + 1]
    ensures a'[..next] == a[..next] && a'[next] == a[next]
  {
    assert a'[..next] == a'[..next + 1][..next] && a[..next] == a[..next + 1][..next];
    assert a'[..next + 1][next] == a[..next + 1][next];
  }

  lemma StepEnd(a: seq<Byte>, s: seq<Byte>, sep: Byte, remaining: nat, last: nat, tail: seq<Byte>)
    requires sep != NUL && NUL !in s && HoldsAt(a, last, tail)
    requires InStep(a, s, sep, remaining, last, 0, tail)
    ensures HoldsAt(a, 0, if remaining == |s| then s else s[..remaining] + [sep] + tail)
  {
    if remaining < |s| {
      var end := last + |tail|;
      assert a[0..end] == a[..remaining] + [a[remaining]] + a[last..end];
    } else {
      assert a[0..|s|] == a[..remaining] == s;
    }
  }

  /** One turn of the scan, without the buffer. */
  lemma CollapsedTurn(s: seq<Byte>, sep: Byte, remaining: nat, pending: nat, tail: seq<Byte>, next: nat)
    requires NextAt(s, sep, remaining, next)
    ensures next < remaining && s[..remaining][..next] == s[..next]
    ensures var seg := s[..remaining][next + 1..];
            var final := remaining == |s|;
            Collapsed(s[..remaining], sep, pending, tail, final) ==
              if IsParent(seg) then Collapsed(s[..next], sep, pending + 1, tail, false)
              else if pending > 0 then Collapsed(s[..next], sep, pending - 1, tail, false)
              else if IsFiller(seg) then Collapsed(s[..next], sep, 0, tail, false)
              else Collapsed(s[..next], sep, 0, if final then seg else seg + [sep] + tail, false)
  {
    assert s[..remaining][..next] == s[..next];
  }

  /** The segment as the buffer shows it. */
  lemma SegmentInBuffer(a: seq<Byte>, s: seq<Byte>, remaining: nat, next: nat)
    requires next < remaining <= |s| && remaining <= |a| && a[..remaining] == s[..remaining]
    ensures var seg := s[..remaining][next + 1..];
            && |seg| == remaining - (next + 1)
            && (IsParent(seg) <==> |seg| == 2 && a[next + 1] == DOT && a[next + 2] == DOT)
            && (IsFiller(seg) <==> |seg| == 0 || (|seg| == 1 && a[next + 1] == DOT))
  {
    var seg := s[..remaining][next + 1..];
    assert forall i :: 0 <= i < |seg| ==> seg[i] == a[..remaining][next + 1 + i] == a[next + 1 + i];
  }

  /** Where the loop stands: the buffer, and what the rest of the scan will make of it. */
  ghost predicate Scanning(a: seq<Byte>, s: seq<Byte>, sep: Byte, remaining: nat, last: nat, pending: nat,
                           tail: seq<Byte>) {
    && InStep(a, s, sep, remaining, last, pending, tail)
    && Collapsed(s[..remaining], sep, pending, tail, remaining == |s|) == Collapse(s, sep)
  }

  lemma TurnStarts(a: seq<Byte>, s: seq<Byte>, sep: Byte, remaining: nat, last: nat, pending: nat, tail: seq<Byte>,
                   next: nat)
    requires Scanning(a, s, sep, remaining, last, pending, tail) && next == LastIndex(a[..remaining], sep)
    ensures NextAt(s, sep, remaining, next) && next < remaining <= |s| < |a| && last <= |s|
    ensures next + 1 <= last
  {
  }

  lemma TurnParent(a: seq<Byte>, s: seq<Byte>, sep: Byte, remaining: nat, last: nat, pending: nat, tail: seq<Byte>,
                   next: nat)
    requires Scanning(a, s, sep, remaining, last, pending, tail) && NextAt(s, sep, remaining, next)
    requires IsParent(s[..remaining][next + 1..])
    ensures Scanning(a, s, sep, next, last, pending + 1, tail)
  {
    CollapsedTurn(s, sep, remaining, pending, tail, next);
    StepParent(a, s, sep, remaining, last, pending, tail, next);
  }

  lemma TurnRemove(a: seq<Byte>, a': seq<Byte>, s: seq<Byte>, sep: Byte, remaining: nat, last: nat, pending: nat,
                   tail: seq<Byte>, next: nat)
    requires Scanning(a, s, sep, remaining, last, pending, tail) && NextAt(s, sep, remaining, next) && next + 1 <= last
    requires var seg := s[..remaining][next + 1..]; !IsParent(seg) && (pending > 0 || IsFiller(seg))
    requires a' == Moved(a, next + 1, last, |s| - last + 1)
    ensures Scanning(a', s, sep, next, next + 1, if pending > 0 then pending - 1 else 0, tail)
    ensures a'[|s| + 1..] == a[|s| + 1..]
  {
    CollapsedTurn(s, sep, remaining, pending, tail, next);
    StepRemove(a, s, sep, remaining, last, pending, tail, next, if pending > 0 then pending - 1 else 0);
  }

  lemma TurnKeep(a: seq<Byte>, s: seq<Byte>, sep: Byte, remaining: nat, last: nat, tail: seq<Byte>, next: nat)
    requires sep != NUL && NUL !in s
    requires Scanning(a, s, sep, remaining, last, 0, tail) && NextAt(s, sep, remaining, next)
    requires var seg := s[..remaining][next + 1..]; !IsParent(seg) && !IsFiller(seg)
    ensures var seg := s[..remaining][next + 1..];
            Scanning(a, s, sep, next, next + 1, 0, if remaining == |s| then seg else seg + [sep] + tail)
  {
    CollapsedTurn(s, sep, remaining, 0, tail, next);
    StepKeep(a, s, sep, remaining, last, tail, next);
  }

  method CollapsePath(path: array<Byte>, sep: Byte, ghost s: seq<Byte>) returns (result: int)
    requires sep != NUL && HoldsAt(path[..], 0, s)
    modifies path
    ensures result == if Collapse(s, sep).Some? then 0 else -22
    ensures result == 0 ==> HoldsAt(path[..], 0, Collapse(s, sep).value)
    ensures path[..][|s| + 1..] == old(path[..])[|s| + 1..]
  {
    var pathLength := StrlenIs(path, s);
    var last: nat, pending: nat, remaining: nat := pathLength, 0, pathLength;
    ghost var tail: seq<Byte> := [];
    assert s[..|s|] == s && path[..][..|s|] == path[..][0..|s|];
    while remaining > 0
      invariant Scanning(path[..], s, sep, remaining, last, pending, tail)
      invariant path[..][|s| + 1..] == old(path[..])[|s| + 1..]
    {
      assert path[..remaining] == path[..][..remaining];
      var next := Memrchr(path, sep, remaining);
      if next < 0 {
        break;
      }
      last, pending, tail := TreatSegment(path, sep, s, pathLength, remaining, last, pending, tail, next);
      remaining := next;
    }
    if pending == 0 {
      StepEnd(path[..], s, sep, remaining, last, tail);
    }
    result := if pending == 0 then 0 else -22;
  }

  /** The tests of lines 202 and 212 on the segment between `next` and `remaining`. */
  method Classify(path: array<Byte>, ghost s: seq<Byte>, remaining: nat, next: nat) returns (parent: bool, filler: bool)
    requires next < remaining <= |s| && remaining <= path.Length && path[..][..remaining] == s[..remaining]
    ensures parent == IsParent(s[..remaining][next + 1..])
    ensures filler == IsFiller(s[..remaining][next + 1..])
  {
    SegmentInBuffer(path[..], s, remaining, next);
    var segment := next + 1;
    var segmentLength := remaining - segment;
    parent := segmentLength == 2 && path[segment] == DOT && path[segment + 1] == DOT;
    filler := segmentLength == 0 || (segmentLength == 1 && path[segment] == DOT);
  }

  /** Line 219: close the gap over the segment. */
  method RemoveSegment(path: array<Byte>, sep: Byte, ghost s: seq<Byte>, pathLength: nat,
                       ghost remaining: nat, last: nat,
                       ghost pending: nat, ghost tail: seq<Byte>, next: nat)
    requires pathLength == |s| && Scanning(path[..], s, sep, remaining, last, pending, tail)
    requires NextAt(s, sep, remaining, next) && next + 1 <= last
    requires var seg := s[..remaining][next + 1..]; !IsParent(seg) && (pending > 0 || IsFiller(seg))
    modifies path
    ensures Scanning(path[..], s, sep, next, next + 1, if pending > 0 then pending - 1 else 0, tail)
    ensures path[..][|s| + 1..] == old(path[..])[|s| + 1..]
  {
    ghost var a := path[..];
    Memmove(path, next + 1, last, pathLength - last + 1);
    TurnRemove(a, path[..], s, sep, remaining, last, pending, tail, next);
  }

  /** Lines 210-224: drop or keep a segment that is not `..`. */
  method TreatName(path: array<Byte>, sep: Byte, ghost s: seq<Byte>, pathLength: nat, ghost remaining: nat, last: nat,
                   pending: nat, ghost tail: seq<Byte>, next: nat, filler: bool)
    returns (last': nat, pending': nat, ghost tail': seq<Byte>)
    requires sep != NUL && NUL !in s && pathLength == |s|
    requires Scanning(path[..], s, sep, remaining, last, pending, tail)
    requires NextAt(s, sep, remaining, next) && next + 1 <= last
    requires var seg := s[..remaining][next + 1..]; !IsParent(seg) && filler == IsFiller(seg)
    modifies path
    ensures Scanning(path[..], s, sep, next, last', pending', tail')
    ensures path[..][|s| + 1..] == old(path[..])[|s| + 1..]
  {
    pending', tail' := pending, tail;
    if pending == 0 && filler {
      pending' := pending + 1;
    }
    if pending' > 0 {
      RemoveSegment(path, sep, s, pathLength, remaining, last, pending, tail, next);
      pending' := pending' - 1;
    } else {
      TurnKeep(path[..], s, sep, remaining, last, tail, next);
      ghost var seg := s[..remaining][next + 1..];
      tail' := if remaining == |s| then seg else seg + [sep] + tail;
    }
    last' := next + 1;
  }

  /** Lines 199-224: count, drop or keep the segment between `next` and `remaining`. */
  method TreatSegment(path: array<Byte>, sep: Byte, ghost s: seq<Byte>, pathLength: nat, remaining: nat, last: nat,
                      pending: nat, ghost tail: seq<Byte>, next: nat)
    returns (last': nat, pending': nat, ghost tail': seq<Byte>)
    requires sep != NUL && NUL !in s && pathLength == |s|
    requires Scanning(path[..], s, sep, remaining, last, pending, tail)
    requires next == LastIndex(path[..][..remaining], sep)
    modifies path
    ensures Scanning(path[..], s, sep, next, last', pending', tail')
    ensures next < remaining && path[..][|s| + 1..] == old(path[..])[|s| + 1..]
  {
    TurnStarts(path[..], s, sep, remaining, last, pending, tail, next);
    var parent, filler := Classify(path, s, remaining, next);
    if parent {
      TurnParent(path[..], s, sep, remaining, last, pending, tail, next);
      last', pending', tail' := last, pending + 1, tail;
    } else {
      last', pending', tail' := TreatName(path, sep, s, pathLength, remaining, last, pending, tail, next, filler);
    }
  }

  method StrlenIs(a: array<Byte>, ghost s: seq<Byte>) returns (n: nat)
    requires HoldsAt(a[..], 0, s)
    ensures n == |s|
  {
    assert a[..][|s|] == NUL;
    n := Strlen(a, 0);
  }
}
