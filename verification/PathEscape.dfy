/**
 Escaping Linux paths for Windows and back: the NTFS escape into the range
 starting at U+F000, separator canonicalisation in place, and the in-place unescape.
 */
module PathEscape {
  import opened Common
  import opened CString
  import opened EscapeBits

  const SLASH: Byte := 0x2F      // PATH_SEP
  const BACKSLASH: Byte := 0x5C  // PATH_SEP_NT
  const LEAD: Byte := 0xEF       // UtilEscapeCharBase[0]

  /** The illegal entries of EscapeNtfsLegalAnsiCharacterArray; bytes above 0x7F are never escaped. */
  predicate NeedsEscape(c: Byte) {
    c < 0x20 || c in {0x22, 0x2A, 0x3A, 0x3C, 0x3E, 0x3F, 0x5C, 0x7C}
  }

  function SecondByte(c: Byte): Byte
    requires c < 0x80
  {
    if c < 64 then 0x80 else 0x81
  }

  function ThirdByte(c: Byte): Byte
    requires c < 0x80
  {
    if c < 64 then 0x80 + c else 0x40 + c
  }

  /** The three bytes of an escaped character. The two top bits of `c` go into the second. */
  function EscapeSequence(c: Byte): (r: seq<Byte>)
    requires NeedsEscape(c)
    ensures |r| == 3
  {
    [LEAD, SecondByte(c), ThirdByte(c)]
  }

  function EscapeByte(c: Byte): (r: seq<Byte>)
    ensures 1 <= |r| <= 3
  {
    if c == SLASH then [BACKSLASH] else if NeedsEscape(c) then EscapeSequence(c) else [c]
  }

  /** EscapePathForNt. */
  function Escape(s: seq<Byte>): (r: seq<Byte>)
    ensures |r| >= |s|
  {
    if s == [] then [] else EscapeByte(s[0]) + Escape(s[1..])
  }

  predicate IsSeparator(c: Byte) {
    c == SLASH || c == BACKSLASH
  }

  /** One character of UtilCanonicalisePathSeparator after `done`: a separator right behind another
      is kept only in front, where the two mark a UNC path. */
  function CanonicalPut(done: seq<Byte>, c: Byte, sep: Byte): (r: seq<Byte>)
    ensures |done| <= |r| <= |done| + 1
  {
    if !IsSeparator(c) then done + [c]
    else if |done| > 1 && done[|done| - 1] == sep then done
    else done + [sep]
  }

  function Canonical(done: seq<Byte>, s: seq<Byte>, sep: Byte): (r: seq<Byte>)
    ensures |done| <= |r| <= |done| + |s|
    decreases |s|
  {
    if s == [] then done else Canonical(CanonicalPut(done, s[0], sep), s[1..], sep)
  }

  /** The character a sequence stands for: two bits of its second byte and six of its third. */
  function Decoded(second: Byte, third: Byte): Byte {
    second % 4 * 64 + third % 64
  }

  /** The bytes at the front would be taken for an escape sequence. */
  predicate Decodes(s: seq<Byte>) {
    |s| >= 3 && s[0] == LEAD && s[1] >= 0x80 && s[2] >= 0x80 && NeedsEscape(Decoded(s[1], s[2]))
  }

  /** UnescapePathInplace. */
  function Unescape(s: seq<Byte>): (r: seq<Byte>)
    ensures |r| <= |s|
  {
    if s == [] then []
    else if Decodes(s) then [Decoded(s[1], s[2])] + Unescape(s[3..])
    else [s[0]] + Unescape(s[1..])
  }

  // ----- the loops -----

  method EscapePathForNtLength(path: array<Byte>, from: nat, ghost s: seq<Byte>) returns (length: nat)
    requires HoldsAt(path[..], from, s)
    ensures length == |Escape(s)|
  {
    length := 0;
    var i := 0;
    StringBytes(path[..], from, s);
    while path[from + i] != NUL
      invariant i <= |s| && length + |Escape(s[i..])| == |Escape(s)|
      decreases |s| - i
    {
      assert s[i..][1..] == s[i + 1..];
      length := length + if !NeedsEscape(path[from + i]) then 1 else 3;
      i := i + 1;
    }
  }

  lemma StringBytes(a: seq<Byte>, from: nat, s: seq<Byte>)
    requires HoldsAt(a, from, s)
    ensures forall i :: from <= i < from + |s| ==> a[i] == s[i - from] && a[i] != NUL
    ensures a[from + |s|] == NUL
  {
    assert forall i :: from <= i < from + |s| ==> a[i] == a[from..from + |s|][i - from];
  }

  /** A buffer with `done` written over what was at `from`. */
  ghost function Overlaid(before: seq<Byte>, from: nat, done: seq<Byte>): (r: seq<Byte>)
    requires from + |done| <= |before|
    ensures |r| == |before|
  {
    before[..from] + done + before[from + |done|..]
  }

  lemma OverlaidReads(before: seq<Byte>, from: nat, done: seq<Byte>, i: nat)
    requires from + |done| <= |before| && i < |before|
    ensures Overlaid(before, from, done)[i] ==
              if from <= i < from + |done| then done[i - from] else before[i]
  {
  }

  method Put(buffer: array<Byte>, index: nat, v: Byte, ghost before: seq<Byte>, ghost from: nat, ghost done: seq<Byte>)
    requires index == from + |done| < |before| && buffer[..] == Overlaid(before, from, done)
    modifies buffer
    ensures buffer[..] == Overlaid(before, from, done + [v])
  {
    buffer[index] := v;
    assert Overlaid(before, from, done)[index := v] == Overlaid(before, from, done + [v]);
  }

  /** The body of the loop: one character, escaped if it must be. */
  method InsertEscaped(escaped: array<Byte>, insertion: nat, c: Byte,
                       ghost before: seq<Byte>, ghost at: nat, ghost done: seq<Byte>) returns (next: nat)
    requires insertion == at + |done| && insertion + |EscapeByte(c)| <= |before|
    requires escaped[..] == Overlaid(before, at, done)
    modifies escaped
    ensures next == insertion + |EscapeByte(c)|
    ensures escaped[..] == Overlaid(before, at, done + EscapeByte(c))
  {
    if c == SLASH {
      Put(escaped, insertion, BACKSLASH, before, at, done);
      next := insertion + 1;
    } else if !NeedsEscape(c) {
      Put(escaped, insertion, c, before, at, done);
      next := insertion + 1;
    } else {
      var second := EncodeSecond(c);
      var third := EncodeThird(c);
      Put(escaped, insertion, LEAD, before, at, done);
      Put(escaped, insertion + 1, second, before, at, done + [LEAD]);
      Put(escaped, insertion + 2, third, before, at, done + [LEAD] + [SecondByte(c)]);
      assert done + [LEAD] + [SecondByte(c)] + [ThirdByte(c)] == done + EscapeSequence(c);
      next := insertion + 3;
    }
  }

  lemma EscapeStep(s: seq<Byte>, i: nat)
    requires i < |s|
    ensures Escape(s[i..]) == EscapeByte(s[i]) + Escape(s[i + 1..])
  {
    assert s[i..][0] == s[i] && s[i..][1..] == s[i + 1..];
  }

  lemma EscapeTurn(s: seq<Byte>, i: nat, done: seq<Byte>)
    requires i < |s| && done + Escape(s[i..]) == Escape(s)
    ensures done + EscapeByte(s[i]) + Escape(s[i + 1..]) == Escape(s)
    ensures |done| + |EscapeByte(s[i])| <= |Escape(s)|
  {
    EscapeStep(s, i);
    Associate(done, EscapeByte(s[i]), Escape(s[i + 1..]));
  }

  method EscapePathForNt(path: array<Byte>, from: nat, escaped: array<Byte>, at: nat, ghost s: seq<Byte>)
    requires HoldsAt(path[..], from, s) && path != escaped
    requires at + |Escape(s)| <= escaped.Length
    modifies escaped
    ensures escaped[..] == Overlaid(old(escaped[..]), at, Escape(s))
  {
    var i, insertion := 0, at;
    StringBytes(path[..], from, s);
    ghost var before := escaped[..];
    ghost var done: seq<Byte> := [];
    while path[from + i] != NUL
      invariant i <= |s| && insertion == at + |done| <= |before|
      invariant done + Escape(s[i..]) == Escape(s)
      invariant escaped[..] == Overlaid(before, at, done)
      decreases |s| - i
    {
      EscapeTurn(s, i, done);
      insertion := InsertEscaped(escaped, insertion, path[from + i], before, at, done);
      done := done + EscapeByte(s[i]);
      i := i + 1;
    }
    assert s[i..] == [] && done == Escape(s);
  }

  lemma CanonicalStep(done: seq<Byte>, s: seq<Byte>, i: nat, sep: Byte)
    requires i < |s|
    ensures Canonical(done, s[i..], sep) == Canonical(CanonicalPut(done, s[i], sep), s[i + 1..], sep)
  {
    assert s[i..][0] == s[i] && s[i..][1..] == s[i + 1..];
  }

  /** The body of the loop over the source characters. */
  method CopySeparated(path: array<Byte>, from: nat, dest: nat, c: Byte, sep: Byte,
                       ghost before: seq<Byte>, ghost done: seq<Byte>) returns (next: nat)
    requires dest == |done| && from + dest < |before| && path[..] == Overlaid(before, from, done)
    modifies path
    ensures next == |CanonicalPut(done, c, sep)|
    ensures path[..] == Overlaid(before, from, CanonicalPut(done, c, sep))
  {
    if c == SLASH || c == BACKSLASH {
      if dest > 0 {
        OverlaidReads(before, from, done, from + dest - 1);
        assert path[from + dest - 1] == path[..][from + dest - 1];
      }
      if dest > 1 && path[from + dest - 1] == sep {
        return dest;
      }
      Put(path, from + dest, sep, before, from, done);
    } else {
      Put(path, from + dest, c, before, from, done);
    }
    next := dest + 1;
  }

  lemma PutHasNoNul(done: seq<Byte>, s: seq<Byte>, i: nat, sep: Byte)
    requires NUL !in done && NUL !in s && i < |s| && IsSeparator(sep)
    ensures NUL !in CanonicalPut(done, s[i], sep)
  {
  }

  method Terminate(path: array<Byte>, from: nat, dest: nat, ghost before: seq<Byte>, ghost done: seq<Byte>)
    requires dest == |done| && from + dest < |before| && path[..] == Overlaid(before, from, done) && NUL !in done
    modifies path
    ensures path[..] == Overlaid(before, from, done + [NUL]) && HoldsAt(path[..], from, done)
  {
    Put(path, from + dest, NUL, before, from, done);
    HoldsOverlaid(before, from, done);
  }

  method CanonicalisePathSeparator(path: array<Byte>, from: nat, sep: Byte, ghost s: seq<Byte>) returns (size: nat)
    requires HoldsAt(path[..], from, s) && IsSeparator(sep)
    modifies path
    ensures size == |Canonical([], s, sep)|
    ensures HoldsAt(path[..], from, Canonical([], s, sep))
    ensures path[..] == Overlaid(old(path[..]), from, Canonical([], s, sep) + [NUL])
  {
    ghost var before := path[..];
    var pathLength := StrlenFrom(path, from, s);
    var dest, source := 0, 0;
    ghost var done: seq<Byte> := [];
    while source < pathLength
      invariant dest == |done| <= source <= |s|
      invariant path[..] == Overlaid(before, from, done)
      invariant NUL !in done
      invariant Canonical(done, s[source..], sep) == Canonical([], s, sep)
    {
      SourceByte(before, from, done, s, source);
      assert path[from + source] == path[..][from + source] == s[source];
      CanonicalStep(done, s, source, sep);
      PutHasNoNul(done, s, source, sep);
      dest := CopySeparated(path, from, dest, path[from + source], sep, before, done);
      done := CanonicalPut(done, s[source], sep);
      source := source + 1;
    }
    assert s[source..] == [];
    Terminate(path, from, dest, before, done);
    return dest;
  }

  /** The source is read ahead of what has been written. */
  lemma SourceByte(before: seq<Byte>, from: nat, done: seq<Byte>, s: seq<Byte>, source: nat)
    requires HoldsAt(before, from, s) && |done| <= source < |s|
    ensures Overlaid(before, from, done)[from + source] == s[source]
  {
    OverlaidReads(before, from, done, from + source);
    assert before[from..from + |s|][source] == s[source];
  }

  lemma HoldsOverlaid(before: seq<Byte>, from: nat, s: seq<Byte>)
    requires from + |s| < |before| && NUL !in s
    ensures HoldsAt(Overlaid(before, from, s + [NUL]), from, s)
  {
    var r := Overlaid(before, from, s + [NUL]);
    assert r[from..from + |s|] == s;
  }

  method StrlenFrom(a: array<Byte>, from: nat, ghost s: seq<Byte>) returns (n: nat)
    requires HoldsAt(a[..], from, s)
    ensures n == |s|
  {
    StringBytes(a[..], from, s);
    n := Strlen(a, from);
  }

  /** Lines 331-336: put the character back and close the gap. */
  method ReplaceSequence(path: array<Byte>, current: nat, unescaped: Byte, ghost rest: seq<Byte>)
    requires HoldsAt(path[..], current, rest) && |rest| >= 3
    modifies path
    ensures HoldsAt(path[..], current + 1, rest[3..])
    ensures path[..current] == old(path[..current]) && path[current] == unescaped
  {
    StringBytes(path[..], current, rest);
    assert HoldsAt(path[..], current + 3, rest[3..]) by {
      assert path[..][current + 3..current + |rest|] == rest[3..];
    }
    path[current] := unescaped;
    assert HoldsAt(path[..], current + 3, rest[3..]) by {
      assert path[..][current + 3..current + |rest|] == rest[3..];
    }
    var n := StrlenFrom(path, current + 3, rest[3..]);
    ghost var a := path[..];
    Memmove(path, current + 1, current + 3, n + 1);
    MovedReads(a, current + 1, current + 3, n + 1, n);
    assert path[..current] == path[..][..current + 1][..current] && a[..current + 1][..current] == a[..current];
    assert path[current] == path[..][..current + 1][current];
  }

  /** Lines 328-337: one turn of the loop. */
  method UnescapeAt(path: array<Byte>, current: nat, ghost rest: seq<Byte>)
    requires HoldsAt(path[..], current, rest) && rest != []
    modifies path
    ensures path[..current] == old(path[..current])
    ensures path[current] == if Decodes(rest) then Decoded(rest[1], rest[2]) else rest[0]
    ensures HoldsAt(path[..], current + 1, rest[if Decodes(rest) then 3 else 1..])
  {
    StringBytes(path[..], current, rest);
    if path[current] == LEAD {
      var second := HasHighBit(path[current + 1]);
      if second {
        var third := HasHighBit(path[current + 2]);
        if third {
          var unescaped := Decode(path[current + 1], path[current + 2]);
          if NeedsEscape(unescaped) {
            ReplaceSequence(path, current, unescaped, rest);
            return;
          }
        }
      }
    }
    assert path[..][current + 1..current + |rest|] == rest[1..];
  }

  lemma UnescapeTurn(done: seq<Byte>, rest: seq<Byte>, step: nat, c: Byte)
    requires rest != [] && step == (if Decodes(rest) then 3 else 1)
    requires c == if Decodes(rest) then Decoded(rest[1], rest[2]) else rest[0]
    ensures done + Unescape(rest) == done + [c] + Unescape(rest[step..])
  {
    Associate(done, [c], Unescape(rest[step..]));
  }

  method UnescapePathInplace(path: array<Byte>, ghost s: seq<Byte>)
    requires HoldsAt(path[..], 0, s)
    modifies path
    ensures |Unescape(s)| < path.Length
    ensures path[..|Unescape(s)|] == Unescape(s) && path[|Unescape(s)|] == NUL
  {
    var current := 0;
    ghost var done: seq<Byte>, rest := [], s;
    while path[current] != NUL
      invariant current == |done| && current + |rest| < path.Length
      invariant path[..current] == done && HoldsAt(path[..], current, rest)
      invariant done + Unescape(rest) == Unescape(s)
      decreases |rest|
    {
      StringBytes(path[..], current, rest);
      ghost var step := if Decodes(rest) then 3 else 1;
      ghost var c := if Decodes(rest) then Decoded(rest[1], rest[2]) else rest[0];
      UnescapeAt(path, current, rest);
      assert path[..current + 1] == done + [c];
      UnescapeTurn(done, rest, step, c);
      done, rest := done + [c], rest[step..];
      current := current + 1;
    }
  }
}
