/** UtilWinPathTranslateInternal: Linux paths as paths under \\wsl.localhost, in both directions. */
module WslShare {
  import opened Common
  import opened CString
  import opened PathEscape
  import opened PathRoundTrip

  function Ascii(s: string): seq<Byte> {
    seq(|s|, i requires 0 <= i < |s| => (s[i] as int) % 256)
  }

  const RDR_PREFIX := Ascii("\\\\wsl.localhost\\")
  const RDR_COMPAT_PREFIX := Ascii("\\\\wsl$\\")

  /** std::tolower in the "C" locale. */
  function Lower(c: Byte): Byte {
    if 65 <= c <= 90 then c + 32 else c
  }

  /** wsl::shared::string::StartsWith. */
  predicate StartsWith(s: seq<Byte>, prefix: seq<Byte>, caseInsensitive: bool) {
    |s| >= |prefix| &&
    forall i :: 0 <= i < |prefix| ==>
      if caseInsensitive then Lower(s[i]) == Lower(prefix[i]) else s[i] == prefix[i]
  }

  function ToShare(distribution: seq<Byte>, s: seq<Byte>): seq<Byte> {
    RDR_PREFIX + distribution + Escape(s)
  }

  /** What is left behind the share name, as a Linux path. */
  function Restored(t: seq<Byte>): seq<Byte> {
    if t == [] then [SLASH] else CRead(Unescape(Canonical([], t, SLASH)))
  }

  function FromShare(distribution: seq<Byte>, w: seq<Byte>): Option<seq<Byte>> {
    var prefix, compat := RDR_PREFIX + distribution, RDR_COMPAT_PREFIX + distribution;
    if StartsWith(w, prefix, true) then Some(Restored(w[|prefix|..]))
    else if StartsWith(w, compat, true) then Some(Restored(w[|compat|..]))
    else None
  }

  method WinPathTranslateInternal(path: array<Byte>, reverse: bool, distribution: seq<Byte>, ghost s: seq<Byte>)
    returns (r: Option<seq<Byte>>)
    requires HoldsAt(path[..], 0, s)
    ensures r == if distribution == [] then None
                 else if reverse then FromShare(distribution, s)
                 else Some(ToShare(distribution, s))
  {
    if distribution == [] {
      return None;
    }
    var prefix := RDR_PREFIX + distribution;
    if !reverse {
      var length := EscapePathForNtLength(path, 0, s);
      var escaped := new Byte[length](_ => NUL);
      EscapePathForNt(path, 0, escaped, 0, s);
      assert escaped[..] == Escape(s);
      return Some(prefix + escaped[..]);
    }
    var n := StrlenFrom(path, 0, s);
    var text := path[..n];
    assert text == path[..][0..|s|] == s;
    var prefixLength := |prefix|;
    if !StartsWith(text, prefix, true) {
      var compat := RDR_COMPAT_PREFIX + distribution;
      if !StartsWith(text, compat, true) {
        return None;
      }
      prefixLength := |compat|;
    }
    if n == prefixLength {
      return Some([SLASH]);
    }
    var t := text[prefixLength..];
    var read := RestoreInPlace(t);
    r := Some(read);
  }

  /** Lines 3117-3124: copy, canonicalise and unescape in place, then read as a C string. */
  method RestoreInPlace(t: seq<Byte>) returns (read: seq<Byte>)
    requires t != [] && NUL !in t
    ensures read == Restored(t)
  {
    var buffer := new Byte[|t| + 1](i => if 0 <= i < |t| then t[i] else NUL);
    assert buffer[..][0..|t|] == t;
    var size := CanonicalisePathSeparator(buffer, 0, SLASH, t);
    ghost var c := Canonical([], t, SLASH);
    UnescapePathInplace(buffer, c);
    ghost var u := Unescape(c);
    assert Terminated(buffer[..], 0) by {
      assert buffer[..][|u|] == NUL;
    }
    var n := Strlen(buffer, 0);
    read := buffer[..n];
    CReadIs(buffer[..], u, n);
  }

  lemma CReadIs(a: seq<Byte>, u: seq<Byte>, n: nat)
    requires |u| < |a| && a[..|u|] == u && a[|u|] == NUL
    requires n < |a| && a[n] == NUL && forall i :: 0 <= i < n ==> a[i] != NUL
    ensures CRead(u) == a[..n]
  {
    assert n <= |u|;
    assert forall i :: 0 <= i < |u| ==> a[i] == a[..|u|][i];
    CReadStops(u, n);
    assert a[..n] == a[..|u|][..n];
  }

  lemma {:induction false} CReadStops(u: seq<Byte>, n: nat)
    requires n <= |u| && (n < |u| ==> u[n] == NUL) && forall i :: 0 <= i < n ==> u[i] != NUL
    ensures CRead(u) == u[..n]
  {
    if n > 0 {
      CReadStops(u[1..], n - 1);
      assert u[..n] == [u[0]] + u[1..][..n - 1];
    }
  }

  /** For every distribution and every non-empty path: going to the share and back gives the path
      itself if and only if it repeats no slash after its second byte and holds no three bytes that
      already look escaped. */
  lemma ShareRoundTripIff(distribution: seq<Byte>, s: seq<Byte>)
    requires s != [] && NUL !in s
    ensures FromShare(distribution, ToShare(distribution, s)) == Some(s) <==>
            !RepeatsSlash(s) && !HoldsSequence(s)
  {
    var prefix, w := RDR_PREFIX + distribution, ToShare(distribution, s);
    assert w[|prefix|..] == Escape(s) && StartsWith(w, prefix, true);
    RoundTripIff(s);
  }

  /** In particular for every absolute path without byte 0xEF and without a repeated slash. */
  lemma ShareRoundTrip(distribution: seq<Byte>, s: seq<Byte>)
    requires s != [] && s[0] == SLASH && NUL !in s && LEAD !in s && !RepeatsSlash(s)
    ensures FromShare(distribution, ToShare(distribution, s)) == Some(s)
  {
    ShareRoundTripIff(distribution, s);
    NoLeadNoSequence(s);
  }

  // ----- the names of the share -----

  /** Letters count as equal in either case. */
  predicate SameLetter(a: Byte, b: Byte) {
    a == b || (65 <= a <= 90 && b == a + 32) || (65 <= b <= 90 && a == b + 32)
  }

  ghost predicate SameLetters(a: seq<Byte>, b: seq<Byte>) {
    |a| == |b| && forall i :: 0 <= i < |a| ==> SameLetter(a[i], b[i])
  }

  lemma LowerIsSameLetter(a: Byte, b: Byte)
    ensures Lower(a) == Lower(b) <==> SameLetter(a, b)
  {
  }

  lemma StartsWithIff(s: seq<Byte>, prefix: seq<Byte>)
    ensures StartsWith(s, prefix, true) <==> |s| >= |prefix| && SameLetters(s[..|prefix|], prefix)
  {
    if |s| >= |prefix| {
      forall i | 0 <= i < |prefix|
        ensures Lower(s[i]) == Lower(prefix[i]) <==> SameLetter(s[..|prefix|][i], prefix[i])
      {
        LowerIsSameLetter(s[i], prefix[i]);
      }
    }
  }

  /** For every distribution and every name: it is one of the share exactly when it starts, up to case, with
      \\wsl.localhost or \\wsl$ and the distribution; what follows is the path. */
  lemma FromShareIff(distribution: seq<Byte>, w: seq<Byte>)
    ensures var a, b := Ascii("\\\\wsl.localhost\\") + distribution, Ascii("\\\\wsl$\\") + distribution;
            FromShare(distribution, w) ==
              if |w| >= |a| && SameLetters(w[..|a|], a) then Some(Restored(w[|a|..]))
              else if |w| >= |b| && SameLetters(w[..|b|], b) then Some(Restored(w[|b|..]))
              else None
  {
    StartsWithIff(w, RDR_PREFIX + distribution);
    StartsWithIff(w, RDR_COMPAT_PREFIX + distribution);
  }

  /** The name of a path on the share starts with \\wsl.localhost and the distribution. */
  lemma ToShareText(distribution: seq<Byte>, s: seq<Byte>)
    ensures ToShare(distribution, s) == Ascii("\\\\wsl.localhost\\") + distribution + Escape(s)
  {
  }

  lemma SameLettersItself(s: seq<Byte>)
    ensures SameLetters(s, s)
  {
  }

  lemma PrefixesDiffer(distribution: seq<Byte>, w: seq<Byte>)
    requires |w| > 5 && w[5] == 0x24
    ensures !(|w| >= |RDR_PREFIX + distribution|
              && SameLetters(w[..|RDR_PREFIX + distribution|], RDR_PREFIX + distribution))
  {
    var a := RDR_PREFIX + distribution;
    assert |RDR_PREFIX| == 16 && RDR_PREFIX[5] == 0x2E && a[5] == 0x2E;
    if |w| >= |a| {
      assert w[..|a|][5] == 0x24;
    }
  }

  /** The old name \\wsl$ leads back to the path under the same condition. */
  lemma CompatRoundTripIff(distribution: seq<Byte>, s: seq<Byte>)
    requires s != [] && NUL !in s
    ensures FromShare(distribution, Ascii("\\\\wsl$\\") + distribution + Escape(s)) == Some(s) <==>
            !RepeatsSlash(s) && !HoldsSequence(s)
  {
    var b := RDR_COMPAT_PREFIX + distribution;
    var w := b + Escape(s);
    assert |RDR_COMPAT_PREFIX| == 7 && RDR_COMPAT_PREFIX[5] == 0x24 && w[5] == 0x24;
    FromShareIff(distribution, w);
    PrefixesDiffer(distribution, w);
    assert w[..|b|] == b && w[|b|..] == Escape(s);
    SameLettersItself(b);
    RoundTripIff(s);
  }
}
