/**
 Lines of /proc/self/mountinfo: the in-place octal unescape and the field parser,
 against a printer for the form described in proc(5).
 */
module MountInfo {
  import opened Common
  import opened CString

  const SPACE: Byte := 32
  const NEWLINE: Byte := 10
  const HYPHEN: Byte := 45
  const PLUS: Byte := 43
  const DEVICE_SEP: Byte := 58
  const ESCAPE_CHAR: Byte := 92
  const DIGIT0: Byte := 48

  // ----- octal escapes -----

  predicate IsOctal(c: Byte) {
    DIGIT0 <= c <= DIGIT0 + 7
  }

  /** One more octal digit shifted into eight bits. */
  function ShiftedIn(value: Byte, digit: Byte): Byte {
    (value * 8 + (digit - DIGIT0)) % 256
  }

  function OctalValue(a: Byte, b: Byte, c: Byte): Byte {
    ShiftedIn(ShiftedIn(ShiftedIn(0, a), b), c)
  }

  /** A backslash followed by three octal digits. */
  predicate StartsEscape(s: seq<Byte>) {
    |s| >= 4 && s[0] == ESCAPE_CHAR && IsOctal(s[1]) && IsOctal(s[2]) && IsOctal(s[3])
  }

  function Unescaped(s: seq<Byte>): (r: seq<Byte>)
    ensures |r| <= |s|
  {
    if s == [] then []
    else if StartsEscape(s) then [OctalValue(s[1], s[2], s[3])] + Unescaped(s[4..])
    else [s[0]] + Unescaped(s[1..])
  }

  /** MountFieldUnescapeOctal: reads no further than the first character that is not octal. */
  method FieldUnescapeOctal(a: array<Byte>, from: nat) returns (found: bool, value: Byte)
    requires Terminated(a[..], from)
    ensures found <==> from + 3 <= a.Length && forall i :: from <= i < from + 3 ==> IsOctal(a[i])
    ensures found ==> value == OctalValue(a[from], a[from + 1], a[from + 2])
  {
    ghost var k :| from <= k < a.Length && a[..][k] == NUL;
    value := 0;
    for i := 0 to 3
      invariant forall j :: from <= j < from + i ==> j < a.Length && IsOctal(a[j])
      invariant i == 1 ==> value == ShiftedIn(0, a[from])
      invariant i == 2 ==> value == ShiftedIn(ShiftedIn(0, a[from]), a[from + 1])
      invariant i == 3 ==> value == OctalValue(a[from], a[from + 1], a[from + 2])
      invariant i == 0 ==> value == 0
    {
      assert from + i <= k;
      var character := a[from + i];
      if character < DIGIT0 || character > DIGIT0 + 7 {
        return false, 0;
      }
      value := ShiftedIn(value, character);
    }
    found := true;
  }

  /** What the loop has done: `done` in front, the rest of the field untouched behind the read index. */
  ghost predicate Unescaping(a: seq<Byte>, s: seq<Byte>, index: nat, done: seq<Byte>) {
    && |s| < |a| && index <= |s| && |done| <= index
    && a[..|done|] == done
    && a[index..|s|] == s[index..] && a[|s|] == NUL && NUL !in s
    && done + Unescaped(s[index..]) == Unescaped(s)
  }

  lemma UnescapingReads(a: seq<Byte>, s: seq<Byte>, index: nat, done: seq<Byte>)
    requires Unescaping(a, s, index, done)
    ensures forall i :: index <= i < |s| ==> a[i] == s[i] && a[i] != NUL
    ensures Terminated(a, index)
  {
    assert forall i :: index <= i < |s| ==> a[i] == a[index..|s|][i - index] == s[index..][i - index];
    assert a[|s|] == NUL;
  }

  lemma UnescapingStep(a: seq<Byte>, s: seq<Byte>, index: nat, done: seq<Byte>, step: nat, c: Byte)
    requires Unescaping(a, s, index, done) && index < |s|
    requires StartsEscape(s[index..]) ==> step == 4 && c == OctalValue(s[index + 1], s[index + 2], s[index + 3])
    requires !StartsEscape(s[index..]) ==> step == 1 && c == s[index]
    ensures index + step <= |s| && Unescaping(a[|done| := c], s, index + step, done + [c])
  {
    var a', t := a[|done| := c], s[index..];
    assert t[step..] == s[index + step..];
    assert a'[..|done| + 1] == done + [c];
    assert a'[index + step..|s|] == a[index..|s|][step..] == s[index + step..];
    Associate(done, [c], Unescaped(s[index + step..]));
  }

  /** The next character of the field and how many bytes it takes up. */
  method ReadEscaped(field: array<Byte>, index: nat, ghost s: seq<Byte>, ghost done: seq<Byte>)
    returns (escape: bool, c: Byte)
    requires Unescaping(field[..], s, index, done) && index < |s|
    ensures escape <==> StartsEscape(s[index..])
    ensures escape ==> c == OctalValue(s[index + 1], s[index + 2], s[index + 3])
    ensures !escape ==> c == s[index] == field[index]
  {
    UnescapingReads(field[..], s, index, done);
    escape, c := false, field[index];
    if field[index] == ESCAPE_CHAR {
      var found, value := FieldUnescapeOctal(field, index + 1);
      if found {
        assert index + 4 <= |s| by {
          assert !IsOctal(NUL);
        }
        escape, c := true, value;
      }
    }
  }

  /** One turn of the loop. */
  method UnescapeNext(field: array<Byte>, index: nat, insertion: nat, ghost s: seq<Byte>, ghost done: seq<Byte>)
    returns (next: nat, ghost c: Byte)
    requires insertion == |done| && Unescaping(field[..], s, index, done) && index < |s|
    modifies field
    ensures index < next <= |s| && Unescaping(field[..], s, next, done + [c])
  {
    ghost var a := field[..];
    var escape, value := ReadEscaped(field, index, s, done);
    c := value;
    UnescapingStep(a, s, index, done, if escape then 4 else 1, c);
    next := index + 1;
    if escape {
      field[insertion] := value;
      next := next + 3;
    } else if insertion < index {
      field[insertion] := field[index];
    }
    assert field[..] == a[|done| := c];
  }

  method MountFieldUnescape(field: array<Byte>, ghost s: seq<Byte>)
    requires HoldsAt(field[..], 0, s)
    modifies field
    ensures |Unescaped(s)| < field.Length
    ensures field[..|Unescaped(s)|] == Unescaped(s) && field[|Unescaped(s)|] == NUL
  {
    var index, insertion := 0, 0;
    ghost var done: seq<Byte>, c := [], 0;
    assert s[0..] == s && [] + Unescaped(s) == Unescaped(s) && field[..][0..|s|] == s;
    assert Unescaping(field[..], s, 0, []);
    while field[index] != NUL
      invariant index < field.Length && insertion == |done| && Unescaping(field[..], s, index, done)
      decreases |s| - index
    {
      assert index < |s|;
      index, c := UnescapeNext(field, index, insertion, s, done);
      done := done + [c];
      insertion := insertion + 1;
    }
    UnescapingReads(field[..], s, index, done);
    assert s[index..] == [];
    field[insertion] := NUL;
    assert field[..insertion] == field[..][..insertion] == done;
  }

  // ----- what counts as an escape -----

  /** A backslash and three digits from 0 to 7, at `i`. */
  ghost predicate EscapeAt(s: seq<Byte>, i: int) {
    0 <= i && i + 3 < |s| && s[i] == 0x5C
    && 0x30 <= s[i + 1] <= 0x37 && 0x30 <= s[i + 2] <= 0x37 && 0x30 <= s[i + 3] <= 0x37
  }

  /** A field changes, and gets shorter, exactly when it holds such an escape. */
  lemma {:induction false} UnescapedIff(s: seq<Byte>)
    ensures (exists i :: EscapeAt(s, i)) ==> |Unescaped(s)| < |s|
    ensures !(exists i :: EscapeAt(s, i)) ==> Unescaped(s) == s
  {
    if s != [] {
      if EscapeAt(s, 0) {
        assert StartsEscape(s);
      } else {
        assert !StartsEscape(s);
        UnescapedIff(s[1..]);
        if exists i :: EscapeAt(s, i) {
          var i :| EscapeAt(s, i);
          assert i > 0 && EscapeAt(s[1..], i - 1);
        } else {
          forall i
            ensures !EscapeAt(s[1..], i)
          {
            assert !EscapeAt(s, i + 1);
          }
        }
      }
    }
  }

  /** An escape stands for the byte of its octal value, in eight bits. */
  lemma UnescapedEscape(a: Byte, b: Byte, c: Byte, rest: seq<Byte>)
    requires a < 8 && b < 8 && c < 8
    ensures Unescaped([0x5C, 0x30 + a, 0x30 + b, 0x30 + c] + rest) == [(64 * a + 8 * b + c) % 256] + Unescaped(rest)
  {
    var s := [0x5C, 0x30 + a, 0x30 + b, 0x30 + c] + rest;
    OctalValueIs(a, b, c);
    assert s[4..] == rest && StartsEscape(s) && s[1] == 0x30 + a && s[2] == 0x30 + b && s[3] == 0x30 + c;
  }

  lemma OctalValueIs(a: Byte, b: Byte, c: Byte)
    requires a < 8 && b < 8 && c < 8
    ensures OctalValue(0x30 + a, 0x30 + b, 0x30 + c) == (64 * a + 8 * b + c) % 256
  {
    assert ShiftedIn(ShiftedIn(0, 0x30 + a), 0x30 + b) == 8 * a + b;
  }
}
