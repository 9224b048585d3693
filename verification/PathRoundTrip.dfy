/**
 What the escaping pipeline preserves: a closed form for going to \\wsl.localhost
 and back, exactly when that is the identity, and when the two ways of building a
 translated suffix agree.
 */
module PathRoundTrip {
  import opened Common
  import opened CString
  import opened PathEscape

  // ----- lengths -----

  ghost predicate NothingToEscape(s: seq<Byte>) {
    forall i :: 0 <= i < |s| ==> !NeedsEscape(s[i])
  }

  /** The length test of UtilWinPathTranslate: equal lengths mean nothing needs escaping. */
  lemma {:induction false} EscapeKeepsLengthIff(s: seq<Byte>)
    ensures |Escape(s)| == |s| <==> NothingToEscape(s)
  {
    if s != [] {
      EscapeKeepsLengthIff(s[1..]);
      assert forall i :: 0 < i < |s| ==> s[i] == s[1..][i - 1];
    }
  }

  // ----- repeated slashes -----

  /** The path without slashes that repeat the one before, from the third byte on. */
  function Squeezed(done: seq<Byte>, s: seq<Byte>): (r: seq<Byte>)
    ensures |r| <= |done| + |s|
    decreases |s|
  {
    if s == [] then done
    else if s[0] == SLASH && |done| > 1 && done[|done| - 1] == SLASH then Squeezed(done, s[1..])
    else Squeezed(done + [s[0]], s[1..])
  }

  ghost predicate RepeatsSlash(s: seq<Byte>) {
    exists i :: 2 <= i < |s| && s[i - 1] == SLASH && s[i] == SLASH
  }

  /** Squeezing changes a path exactly when it repeats a slash, and then shortens it. */
  lemma {:induction false} SqueezedIff(done: seq<Byte>, s: seq<Byte>)
    requires !RepeatsSlash(done)
    ensures RepeatsSlash(done + s) ==> |Squeezed(done, s)| < |done| + |s|
    ensures !RepeatsSlash(done + s) ==> Squeezed(done, s) == done + s
    decreases |s|
  {
    if s == [] {
      assert done + s == done;
    } else {
      var done' := done + [s[0]];
      assert done + s == done' + s[1..];
      if s[0] == SLASH && |done| > 1 && done[|done| - 1] == SLASH {
        var i := |done|;
        assert (done + s)[i - 1] == SLASH && (done + s)[i] == SLASH;
      } else {
        forall i | 2 <= i < |done'|
          ensures !(done'[i - 1] == SLASH && done'[i] == SLASH)
        {
          if i < |done| {
            assert done'[i] == done[i] && done'[i - 1] == done[i - 1];
          }
        }
        SqueezedIff(done', s[1..]);
      }
    }
  }

  // ----- there and back -----

  function SlashEscapeByte(c: Byte): (r: seq<Byte>)
    ensures 1 <= |r| <= 3
  {
    if NeedsEscape(c) then EscapeSequence(c) else [c]
  }

  /** Escaping with the slashes left alone: what canonicalisation makes of an escaped path. */
  function SlashEscape(s: seq<Byte>): (r: seq<Byte>)
    ensures |r| >= |s|
  {
    if s == [] then [] else SlashEscape(s[..|s| - 1]) + SlashEscapeByte(s[|s| - 1])
  }

  lemma SlashEscapeSnoc(s: seq<Byte>, c: Byte)
    ensures SlashEscape(s + [c]) == SlashEscape(s) + SlashEscapeByte(c)
  {
    assert (s + [c])[..|s|] == s;
  }

  /** Its last byte is a slash exactly when the path's is, and it is that short only when the path is. */
  lemma SlashEscapeEnd(s: seq<Byte>)
    requires s != []
    ensures SlashEscape(s)[|SlashEscape(s)| - 1] == SLASH <==> s[|s| - 1] == SLASH
    ensures s[|s| - 1] == SLASH && |s| == 1 ==> |SlashEscape(s)| == 1
  {
    if |s| == 1 {
      assert s[..0] == [];
    }
  }

  lemma CanonicalPlain(done: seq<Byte>, out: seq<Byte>, rest: seq<Byte>, sep: Byte)
    requires |out| == 3 && forall i :: 0 <= i < 3 ==> !IsSeparator(out[i])
    ensures Canonical(done, out + rest, sep) == Canonical(done + out, rest, sep)
  {
    var s := out + rest;
    CanonicalStep(done, s, 0, sep);
    CanonicalStep(done + [out[0]], s, 1, sep);
    CanonicalStep(done + [out[0]] + [out[1]], s, 2, sep);
    assert s[0..] == s && s[3..] == rest;
    assert done + [out[0]] + [out[1]] + [out[2]] == done + out;
  }

  lemma PutOfSlashEscape(done: seq<Byte>, c: Byte)
    requires !NeedsEscape(c)
    ensures CanonicalPut(SlashEscape(done), EscapeByte(c)[0], SLASH) ==
              if c == SLASH && |done| > 1 && done[|done| - 1] == SLASH then SlashEscape(done)
              else SlashEscape(done + [c])
  {
    assert SlashEscape(done + [c]) == SlashEscape(done) + [c] by { SlashEscapeSnoc(done, c); }
    if done != [] {
      SlashEscapeEnd(done);
    }
    PutBehind(SlashEscape(done), done, c);
  }

  /** What putting a character does depends only on the end and the length. */
  lemma PutBehind(e: seq<Byte>, done: seq<Byte>, c: Byte)
    requires !NeedsEscape(c) && |e| >= |done| && (done == [] ==> e == [])
    requires done != [] ==> (e[|e| - 1] == SLASH <==> done[|done| - 1] == SLASH)
    requires |done| == 1 && done[0] == SLASH ==> |e| == 1
    ensures CanonicalPut(e, EscapeByte(c)[0], SLASH) ==
              if c == SLASH && |done| > 1 && done[|done| - 1] == SLASH then e else e + [c]
  {
  }

  /** Canonicalising an escaped path is escaping the squeezed path. */
  lemma {:induction false} CanonicalOfEscape(done: seq<Byte>, s: seq<Byte>)
    ensures Canonical(SlashEscape(done), Escape(s), SLASH) == SlashEscape(Squeezed(done, s))
    decreases |s|
  {
    if s != [] {
      var c, out, rest := s[0], EscapeByte(s[0]), Escape(s[1..]);
      if NeedsEscape(c) {
        SlashEscapeSnoc(done, c);
        CanonicalPlain(SlashEscape(done), out, rest, SLASH);
        CanonicalOfEscape(done + [c], s[1..]);
      } else {
        var e := out + rest;
        assert e[0] == out[0] && e[1..] == rest;
        PutOfSlashEscape(done, c);
        if c == SLASH && |done| > 1 && done[|done| - 1] == SLASH {
          CanonicalOfEscape(done, s[1..]);
        } else {
          CanonicalOfEscape(done + [c], s[1..]);
        }
      }
    }
  }

  /** An escape sequence decodes to the character it stands for. */
  lemma SequenceDecodes(c: Byte, rest: seq<Byte>)
    requires NeedsEscape(c)
    ensures var e := EscapeSequence(c) + rest;
            Decodes(e) && Decoded(e[1], e[2]) == c && e[3..] == rest
  {
    SequenceArithmetic(c);
  }

  lemma SequenceArithmetic(c: Byte)
    requires c < 0x80
    ensures Decoded(SecondByte(c), ThirdByte(c)) == c
  {
  }

  /** A lead byte in second or third place decodes to nothing that needs escaping. */
  lemma LeadElsewhere(x: Byte)
    ensures !NeedsEscape(Decoded(LEAD, x)) && !NeedsEscape(Decoded(x, LEAD))
  {
  }

  /** Forward form of SlashEscape. */
  lemma {:induction false} SlashEscapeCons(c: Byte, s: seq<Byte>)
    ensures SlashEscape([c] + s) == SlashEscapeByte(c) + SlashEscape(s)
    decreases |s|
  {
    var all := [c] + s;
    if s == [] {
      assert all == [c] && all[..0] == [];
    } else {
      var init, x := s[..|s| - 1], s[|s| - 1];
      SlashEscapeCons(c, init);
      assert all[..|all| - 1] == [c] + init;
      Associate(SlashEscapeByte(c), SlashEscape(init), SlashEscapeByte(x));
    }
  }

  lemma SlashEscapeHead(s: seq<Byte>)
    requires s != []
    ensures SlashEscape(s) == SlashEscapeByte(s[0]) + SlashEscape(s[1..])
    ensures NeedsEscape(s[0]) ==> SlashEscape(s)[0] == LEAD
    ensures !NeedsEscape(s[0]) ==> SlashEscape(s)[0] == s[0] && SlashEscape(s)[1..] == SlashEscape(s[1..])
  {
    assert s == [s[0]] + s[1..];
    SlashEscapeCons(s[0], s[1..]);
  }

  /** The first three bytes are plain: escaping leaves them as they are. */
  ghost predicate PlainFront(s: seq<Byte>) {
    |s| >= 3 && !NeedsEscape(s[0]) && !NeedsEscape(s[1]) && !NeedsEscape(s[2])
  }

  lemma PlainFrontKept(s: seq<Byte>)
    requires PlainFront(s)
    ensures var e := SlashEscape(s);
            |e| >= 3 && e[0] == s[0] && e[1] == s[1] && e[2] == s[2] && e[3..] == SlashEscape(s[3..])
  {
    var e, t, u := SlashEscape(s), s[1..], s[2..];
    SlashEscapeHead(s);
    SlashEscapeHead(t);
    SlashEscapeHead(u);
    assert t[1..] == u && u[1..] == s[3..];
    assert e[1..] == SlashEscape(t) && e[2..] == e[1..][1..] == SlashEscape(u) && e[3..] == e[2..][1..];
  }

  lemma EscapedSecond(s: seq<Byte>)
    requires |s| >= 2 && !NeedsEscape(s[0]) && NeedsEscape(s[1])
    ensures SlashEscape(s)[1] == LEAD
  {
    SlashEscapeHead(s);
    SlashEscapeHead(s[1..]);
    assert SlashEscape(s)[1] == SlashEscape(s)[1..][0];
  }

  lemma EscapedThird(s: seq<Byte>)
    requires |s| >= 3 && !NeedsEscape(s[0]) && !NeedsEscape(s[1]) && NeedsEscape(s[2])
    ensures SlashEscape(s)[2] == LEAD
  {
    SlashEscapeHead(s);
    EscapedSecond(s[1..]);
    assert SlashEscape(s)[2] == SlashEscape(s)[1..][1];
  }

  lemma PlainPair(s: seq<Byte>)
    requires 1 <= |s| <= 2 && !NeedsEscape(s[0]) && (|s| == 2 ==> !NeedsEscape(s[1]))
    ensures |SlashEscape(s)| == |s|
  {
    SlashEscapeHead(s);
    if |s| == 2 {
      SlashEscapeHead(s[1..]);
      assert SlashEscape(s[1..][1..]) == [];
    } else {
      assert SlashEscape(s[1..]) == [];
    }
  }

  /** An escaped second or third byte puts a lead byte there. */
  lemma MixedFrontIsNotDecoded(s: seq<Byte>)
    requires s != [] && !NeedsEscape(s[0]) && !PlainFront(s)
    ensures !Decodes(s) && !Decodes(SlashEscape(s))
  {
    if |s| >= 2 && NeedsEscape(s[1]) {
      EscapedSecond(s);
      LeadSecond(SlashEscape(s));
    } else if |s| >= 3 {
      EscapedThird(s);
      LeadThird(SlashEscape(s));
    } else {
      PlainPair(s);
    }
  }

  lemma LeadSecond(e: seq<Byte>)
    requires |e| >= 3 ==> e[1] == LEAD
    ensures !Decodes(e)
  {
    if |e| >= 3 {
      LeadElsewhere(e[2]);
    }
  }

  lemma LeadThird(e: seq<Byte>)
    requires |e| >= 3 && e[2] == LEAD
    ensures !Decodes(e)
  {
    LeadElsewhere(e[1]);
  }

  /** Escaping neither creates nor hides a decodable sequence that starts with an unescaped byte. */
  lemma DecodesThroughEscape(s: seq<Byte>)
    requires s != [] && !NeedsEscape(s[0])
    ensures Decodes(SlashEscape(s)) <==> Decodes(s)
    ensures Decodes(s) ==> SlashEscape(s)[1] == s[1] && SlashEscape(s)[2] == s[2]
    ensures Decodes(s) ==> SlashEscape(s)[3..] == SlashEscape(s[3..])
  {
    if PlainFront(s) {
      PlainFrontKept(s);
    } else {
      MixedFrontIsNotDecoded(s);
    }
  }

  /** So unescaping sees through the escape. */
  lemma {:induction false} UnescapeOfEscape(s: seq<Byte>)
    ensures Unescape(SlashEscape(s)) == Unescape(s)
    decreases |s|
  {
    if s != [] {
      var c, t, e := s[0], s[1..], SlashEscape(s);
      SlashEscapeHead(s);
      if NeedsEscape(c) {
        SequenceDecodes(c, SlashEscape(t));
        UnescapeOfEscape(t);
        assert Unescape(e) == [c] + Unescape(SlashEscape(t));
      } else {
        DecodesThroughEscape(s);
        if Decodes(s) {
          UnescapeOfEscape(s[3..]);
        } else {
          UnescapeOfEscape(t);
          assert Unescape(e) == [c] + Unescape(e[1..]);
        }
      }
    }
  }

  /** For every path: escaping, canonicalising and unescaping it amounts to squeezing its slashes and
      decoding the escape sequences it already had. */
  lemma ThereAndBack(s: seq<Byte>)
    ensures Unescape(Canonical([], Escape(s), SLASH)) == Unescape(Squeezed([], s))
  {
    CanonicalOfEscape([], s);
    UnescapeOfEscape(Squeezed([], s));
  }

  // ----- when it is the identity -----

  ghost predicate HoldsSequence(s: seq<Byte>) {
    exists i :: 0 <= i < |s| && Decodes(s[i..])
  }

  lemma {:induction false} UnescapeIff(s: seq<Byte>)
    ensures HoldsSequence(s) ==> |Unescape(s)| < |s|
    ensures !HoldsSequence(s) ==> Unescape(s) == s
    decreases |s|
  {
    if s != [] {
      var t := s[1..];
      assert s[0..] == s;
      forall i | 0 <= i < |t|
        ensures t[i..] == s[i + 1..]
      {
      }
      if !Decodes(s) {
        UnescapeIff(t);
        if HoldsSequence(s) {
          var i :| 0 <= i < |s| && Decodes(s[i..]);
          assert Decodes(t[i - 1..]);
        } else {
          assert forall i :: 0 <= i < |t| ==> !Decodes(t[i..]);
        }
      }
    }
  }

  /** The string a C caller reads: up to the first NUL. */
  function CRead(s: seq<Byte>): (r: seq<Byte>)
    ensures |r| <= |s| && (NUL !in s ==> r == s) && (|r| == |s| ==> r == s)
  {
    if s == [] || s[0] == NUL then [] else [s[0]] + CRead(s[1..])
  }

  /** For every path: Linux to Windows and back gives the path itself, as a C string, if and only if it
      repeats no slash after its second byte and holds no three bytes that already look escaped. */
  lemma RoundTripIff(s: seq<Byte>)
    requires NUL !in s
    ensures CRead(Unescape(Canonical([], Escape(s), SLASH))) == s <==>
            !RepeatsSlash(s) && !HoldsSequence(s)
  {
    ThereAndBack(s);
    SqueezedIff([], s);
    assert [] + s == s;
    UnescapeIff(Squeezed([], s));
    UnescapeIff(s);
  }

  /** Without byte 0xEF there is nothing to mistake for an escape. */
  lemma NoLeadNoSequence(s: seq<Byte>)
    requires LEAD !in s
    ensures !HoldsSequence(s)
  {
    forall i | 0 <= i < |s|
      ensures !Decodes(s[i..])
    {
      assert s[i] in s;
    }
  }

  lemma FullWidthDecodes()
    ensures var t: seq<Byte> := [0xEF, 0xBC, 0x81];
            Decodes(t) && Unescape(t) == [0x01]
  {
    var t: seq<Byte> := [0xEF, 0xBC, 0x81];
    assert t[3..] == [] && Unescape(t[3..]) == [];
  }

  /** U+FF01, a full-width exclamation mark, comes back as the control character 0x01. */
  lemma FullWidthExclamationIsLost()
    ensures var s: seq<Byte> := [SLASH, 0xEF, 0xBC, 0x81];
            CRead(Unescape(Canonical([], Escape(s), SLASH))) == [SLASH, 0x01]
  {
    var s: seq<Byte>, r: seq<Byte> := [SLASH, 0xEF, 0xBC, 0x81], [SLASH, 0x01];
    assert Squeezed([], s) == s by {
      SqueezedIff([], s);
      assert [] + s == s;
    }
    assert Unescape(s) == r by {
      FullWidthDecodes();
      assert s[1..] == [0xEF, 0xBC, 0x81];
    }
    ThereAndBack(s);
    assert NUL !in r;
  }

  // ----- the two ways of translating a suffix -----

  /** One character put behind an escaped path: a repeated slash disappears. */
  lemma PutOfEscape(done: seq<Byte>, c: Byte)
    requires NothingToEscape(done) && !NeedsEscape(c)
    ensures CanonicalPut(Escape(done), c, BACKSLASH) ==
              if c == SLASH && |done| > 1 && done[|done| - 1] == SLASH then Escape(done) else Escape(done + [c])
  {
    EscapeSnoc(done, c);
    EscapeEnd(done);
    PutBackslash(Escape(done), done, c);
  }

  lemma EscapeEnd(done: seq<Byte>)
    requires NothingToEscape(done)
    ensures |Escape(done)| == |done|
    ensures done != [] ==> (Escape(done)[|done| - 1] == BACKSLASH <==> done[|done| - 1] == SLASH)
  {
    EscapeKeepsLengthIff(done);
    if done != [] {
      EscapePlainAt(done, |done| - 1);
    }
  }

  lemma PutBackslash(e: seq<Byte>, done: seq<Byte>, c: Byte)
    requires !NeedsEscape(c) && |e| == |done|
    requires done != [] ==> (e[|done| - 1] == BACKSLASH <==> done[|done| - 1] == SLASH)
    ensures CanonicalPut(e, c, BACKSLASH) ==
              if c == SLASH && |done| > 1 && done[|done| - 1] == SLASH then e else e + EscapeByte(c)
  {
  }

  lemma {:induction false} EscapePlainAt(s: seq<Byte>, k: nat)
    requires NothingToEscape(s) && k < |s|
    ensures k < |Escape(s)| && Escape(s)[k] == if s[k] == SLASH then BACKSLASH else s[k]
  {
    if k > 0 {
      assert NothingToEscape(s[1..]);
      EscapePlainAt(s[1..], k - 1);
    }
  }

  /** Where nothing needs escaping, canonicalising to backslashes is escaping the squeezed suffix. */
  lemma {:induction false} CanonicalIsEscape(done: seq<Byte>, s: seq<Byte>)
    requires NothingToEscape(done) && NothingToEscape(s)
    ensures Canonical(Escape(done), s, BACKSLASH) == Escape(Squeezed(done, s))
    decreases |s|
  {
    if s != [] {
      var c := s[0];
      PutOfEscape(done, c);
      assert NothingToEscape(done + [c]) && NothingToEscape(s[1..]);
      if c == SLASH && |done| > 1 && done[|done| - 1] == SLASH {
        CanonicalIsEscape(done, s[1..]);
      } else {
        CanonicalIsEscape(done + [c], s[1..]);
      }
    }
  }

  lemma {:induction false} EscapeSnoc(s: seq<Byte>, c: Byte)
    ensures Escape(s + [c]) == Escape(s) + EscapeByte(c)
    decreases |s|
  {
    var t := s + [c];
    assert t[0..] == t;
    EscapeStep(t, 0);
    if s == [] {
      assert t[1..] == [];
    } else {
      EscapeSnoc(s[1..], c);
      assert t[1..] == s[1..] + [c];
      Associate(EscapeByte(s[0]), Escape(s[1..]), EscapeByte(c));
    }
  }

  lemma {:induction false} SqueezedSubset(done: seq<Byte>, s: seq<Byte>)
    requires NothingToEscape(done) && NothingToEscape(s)
    ensures NothingToEscape(Squeezed(done, s))
    decreases |s|
  {
    if s != [] {
      assert NothingToEscape(done + [s[0]]) && NothingToEscape(s[1..]);
      SqueezedSubset(if s[0] == SLASH && |done| > 1 && done[|done| - 1] == SLASH then done else done + [s[0]], s[1..]);
    }
  }

  /** UtilWinPathTranslate copies and canonicalises a suffix whose escaped length is its length, and
      escapes any other. On the former the two ways agree exactly when no slash is repeated. */
  lemma TranslationBranchesAgreeIff(suffix: seq<Byte>)
    requires |Escape(suffix)| == |suffix|
    ensures Canonical([], suffix, BACKSLASH) == Escape(suffix) <==> !RepeatsSlash(suffix)
  {
    EscapeKeepsLengthIff(suffix);
    CanonicalIsEscape([], suffix);
    SqueezedIff([], suffix);
    assert [] + suffix == suffix;
    SqueezedSubset([], suffix);
    EscapeKeepsLengthIff(Squeezed([], suffix));
  }
}
