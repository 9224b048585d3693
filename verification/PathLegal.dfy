/** What escaping and canonicalising leave in a path, byte by byte and without reference to the table. */
module PathLegal {
  import opened Common
  import opened CString
  import opened PathEscape
  import opened PathRoundTrip

  // ----- escaping -----

  /** What one byte becomes: the slash is turned, a byte that no NTFS name may hold becomes three bytes of the
      private range at U+F000, every other byte stays. */
  lemma EscapeOfByte(c: Byte)
    ensures c == 0x2F ==> Escape([c]) == [0x5C]
    ensures c < 0x20 || c in {0x22, 0x2A, 0x3A, 0x3C, 0x3E, 0x3F, 0x5C, 0x7C} ==>
              Escape([c]) == [0xEF, 0x80 + c / 64, 0x80 + c % 64]
    ensures c >= 0x20 && c != 0x2F && c !in {0x22, 0x2A, 0x3A, 0x3C, 0x3E, 0x3F, 0x5C, 0x7C} ==> Escape([c]) == [c]
  {
    assert [c][1..] == [] && Escape([]) == [];
    assert Escape([c]) == EscapeByte(c) + [];
  }

  lemma {:induction false} EscapeConcat(a: seq<Byte>, b: seq<Byte>)
    ensures Escape(a + b) == Escape(a) + Escape(b)
    decreases |a|
  {
    if a == [] {
      assert a + b == b;
    } else {
      EscapeConcat(a[1..], b);
      assert (a + b)[1..] == a[1..] + b;
      Associate(EscapeByte(a[0]), Escape(a[1..]), Escape(b));
    }
  }

  ghost predicate LegalInNtfs(s: seq<Byte>) {
    forall i :: 0 <= i < |s| ==> s[i] >= 0x20 && s[i] !in {0x22, 0x2A, 0x2F, 0x3A, 0x3C, 0x3E, 0x3F, 0x7C}
  }

  /** For every path: the escaped path holds none of the bytes that NTFS refuses, and no slash. */
  lemma {:induction false} EscapeIsLegal(s: seq<Byte>)
    ensures LegalInNtfs(Escape(s))
  {
    if s != [] {
      EscapeIsLegal(s[1..]);
      assert LegalInNtfs(EscapeByte(s[0]));
    }
  }

  /** `/a*b` becomes `\a`, the three bytes for the asterisk, and `b`. */
  lemma AsteriskIsEscaped()
    ensures Escape([0x2F, 0x61, 0x2A, 0x62]) == [0x5C, 0x61, 0xEF, 0x80, 0xAA, 0x62]
  {
    var s: seq<Byte> := [0x2F, 0x61, 0x2A, 0x62];
    EscapeStep(s, 0);
    EscapeStep(s, 1);
    EscapeStep(s, 2);
    EscapeStep(s, 3);
    assert s[0..] == s && s[4..] == [];
  }

  // ----- canonicalising -----

  predicate Separates(c: Byte) {
    c == 0x2F || c == 0x5C
  }

  /** The bytes that separate nothing, in order. */
  function Names(s: seq<Byte>): seq<Byte> {
    if s == [] then [] else Names(s[..|s| - 1]) + if Separates(s[|s| - 1]) then [] else [s[|s| - 1]]
  }

  /** Every separator is the given one, and behind the first two bytes no two stand together. */
  ghost predicate Uniform(s: seq<Byte>, sep: Byte) {
    && (forall i :: 0 <= i < |s| && Separates(s[i]) ==> s[i] == sep)
    && (forall i :: 2 <= i < |s| ==> !(Separates(s[i]) && Separates(s[i - 1])))
  }

  lemma PutShape(done: seq<Byte>, c: Byte, sep: Byte)
    requires Separates(sep) && Uniform(done, sep)
    ensures Uniform(CanonicalPut(done, c, sep), sep)
    ensures Names(CanonicalPut(done, c, sep)) == Names(done) + if Separates(c) then [] else [c]
  {
    assert (done + [c])[..|done|] == done && (done + [sep])[..|done|] == done;
  }

  lemma {:induction false} NamesSnoc(s: seq<Byte>, i: nat)
    requires i < |s|
    ensures Names(s[..i + 1]) == Names(s[..i]) + if Separates(s[i]) then [] else [s[i]]
  {
    assert s[..i + 1][..i] == s[..i];
  }

  lemma {:induction false} CanonicalFrom(done: seq<Byte>, s: seq<Byte>, i: nat, sep: Byte)
    requires Separates(sep) && Uniform(done, sep) && i <= |s| && Names(done) == Names(s[..i])
    ensures var r := Canonical(done, s[i..], sep); Uniform(r, sep) && Names(r) == Names(s)
    decreases |s| - i
  {
    if i < |s| {
      PutShape(done, s[i], sep);
      NamesSnoc(s, i);
      CanonicalStep(done, s, i, sep);
      CanonicalFrom(CanonicalPut(done, s[i], sep), s, i + 1, sep);
    } else {
      assert s[..i] == s;
    }
  }

  /** For every path: canonicalised, it has only the one separator, none twice behind the second byte, and the
      same other bytes in the same order. */
  lemma CanonicalShape(s: seq<Byte>, sep: Byte)
    requires Separates(sep)
    ensures var r := Canonical([], s, sep); Uniform(r, sep) && Names(r) == Names(s)
  {
    assert s[..0] == [] && s[0..] == s;
    CanonicalFrom([], s, 0, sep);
  }

  /** What has that form already is left as it is. */
  lemma CanonicalIsIdle(s: seq<Byte>, sep: Byte)
    requires Separates(sep) && Uniform(s, sep)
    ensures Canonical([], s, sep) == s
  {
    CanonicalUniform(s, 0, sep);
    assert s[..0] == [] && s[0..] == s;
  }

  lemma {:induction false} CanonicalUniform(s: seq<Byte>, i: nat, sep: Byte)
    requires Separates(sep) && Uniform(s, sep) && i <= |s|
    ensures Canonical(s[..i], s[i..], sep) == s
    decreases |s| - i
  {
    if i < |s| {
      CanonicalStep(s[..i], s, i, sep);
      assert s[..i] + [s[i]] == s[..i + 1];
      CanonicalUniform(s, i + 1, sep);
    } else {
      assert s[..i] == s;
    }
  }
}
