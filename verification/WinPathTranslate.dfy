/**
 UtilWinPathTranslate: a path under a mount, in both directions, and when coming
 back from Windows gives the Linux path one started from.
 */
module WinPathTranslate {
  import opened Common
  import opened CString
  import opened PathEscape
  import opened PathRoundTrip
  import opened WslShare
  import opened DrvfsOptions
  import opened MountLookup

  predicate IsDriveName(s: seq<Byte>) {
    |s| == 2 && s[1] == COLON
  }

  /** The suffix as it is appended to the other name of the mount. */
  function TranslatedSuffix(replacement: seq<Byte>, suffix: seq<Byte>, reverse: bool): seq<Byte> {
    if reverse then Canonical([], suffix, SLASH)
    else if suffix == [] && IsDriveName(replacement) then [BACKSLASH]
    else if |Escape(suffix)| != |suffix| then Escape(suffix)
    else Canonical([], suffix, BACKSLASH)
  }

  function OnMount(replacement: seq<Byte>, suffix: seq<Byte>, reverse: bool): seq<Byte> {
    replacement + TranslatedSuffix(replacement, suffix, reverse)
  }

  /** The root of a drive is named with its backslash, the root of any other mount by its source alone. */
  lemma RootName(source: seq<Byte>)
    ensures |source| == 2 && source[1] == 0x3A ==> OnMount(source, [], false) == source + [0x5C]
    ensures !(|source| == 2 && source[1] == 0x3A) ==> OnMount(source, [], false) == source
  {
    assert Escape([]) == [] && Canonical([], [], BACKSLASH) == [];
    assert source + [] == source;
  }

  /** Lines 2965-3027: build the name in one buffer, escaping or canonicalising its tail in place. */
  method TranslateOnMount(path: array<Byte>, reverse: bool, replacement: seq<Byte>, prefixLength: nat,
                          ghost s: seq<Byte>)
    returns (r: seq<Byte>)
    requires HoldsAt(path[..], 0, s) && prefixLength <= |s|
    ensures r == OnMount(replacement, s[prefixLength..], reverse)
  {
    ghost var suffix := s[prefixLength..];
    SuffixHeld(path[..], s, prefixLength);
    var suffixLength := StrlenFrom(path, prefixLength, suffix);
    var length := suffixLength;
    if !reverse {
      if suffixLength == 0 && |replacement| == 2 && replacement[1] == COLON {
        length := 1;
      } else {
        length := EscapePathForNtLength(path, prefixLength, suffix);
      }
    }
    if length != suffixLength {
      if suffixLength == 0 && length == 1 {
        return replacement + [BACKSLASH];
      }
      var escaped := new Byte[length](_ => NUL);
      EscapePathForNt(path, prefixLength, escaped, 0, suffix);
      assert escaped[..] == Escape(suffix);
      return replacement + escaped[..];
    }
    var text := path[prefixLength..prefixLength + suffixLength];
    assert text == path[..][prefixLength..prefixLength + |suffix|];
    r := CopyCanonical(replacement, text, if reverse then SLASH else BACKSLASH);
  }

  /** Lines 3016-3024: copy the suffix behind the replacement and canonicalise it there. */
  method CopyCanonical(replacement: seq<Byte>, suffix: seq<Byte>, sep: Byte) returns (r: seq<Byte>)
    requires NUL !in suffix && IsSeparator(sep)
    ensures r == replacement + Canonical([], suffix, sep)
  {
    var n := |replacement|;
    var buffer := new Byte[n + |suffix| + 1](i =>
      if 0 <= i < n then replacement[i] else if n <= i < n + |suffix| then suffix[i - n] else NUL);
    ghost var a := buffer[..];
    assert a[..n] == replacement && a[n..n + |suffix|] == suffix;
    var size := CanonicalisePathSeparator(buffer, n, sep, suffix);
    ghost var c := Canonical([], suffix, sep);
    r := buffer[..n + size];
    assert buffer[..][..n] == a[..n] && buffer[..][n..n + size] == c;
    assert r == buffer[..][..n] + buffer[..][n..n + size];
  }

  lemma SuffixHeld(a: seq<Byte>, s: seq<Byte>, k: nat)
    requires HoldsAt(a, 0, s) && k <= |s|
    ensures HoldsAt(a, k, s[k..])
  {
    assert a[k..|s|] == a[0..|s|][k..];
  }

  /** Over the mount the search finds; over the share of the distribution, if there is one, when it finds none. */
  ghost predicate Translates(mounts: seq<MountEntry>, path: seq<Byte>, reverse: bool, distribution: seq<Byte>,
                             r: Option<seq<Byte>>) {
    exists replacement, length: nat ::
      && Found(mounts, |mounts|, path, reverse, replacement, length)
      && if replacement != [] then length <= |path| && r == Some(OnMount(replacement, path[length..], reverse))
         else if distribution == [] then r == None
         else if reverse then r == FromShare(distribution, path)
         else r == Some(ToShare(distribution, path))
  }

  /** A path has at most one translation. */
  lemma TranslationUnique(mounts: seq<MountEntry>, path: seq<Byte>, reverse: bool, distribution: seq<Byte>,
                          a: Option<seq<Byte>>, b: Option<seq<Byte>>)
    requires Translates(mounts, path, reverse, distribution, a) && Translates(mounts, path, reverse, distribution, b)
    ensures a == b
  {
    forall x, xLength: nat, y, yLength: nat
      | Found(mounts, |mounts|, path, reverse, x, xLength) && Found(mounts, |mounts|, path, reverse, y, yLength)
      ensures x == y && (x != [] ==> xLength == yLength)
    {
      FoundUnique(mounts, path, reverse, x, xLength, y, yLength);
    }
  }

  /** UtilWinPathTranslate on a given mount list. */
  method TranslatePath(path: array<Byte>, reverse: bool, mounts: seq<MountEntry>, distribution: seq<Byte>,
                       ghost s: seq<Byte>)
    returns (r: Option<seq<Byte>>)
    requires HoldsAt(path[..], 0, s)
    ensures Translates(mounts, s, reverse, distribution, r)
  {
    var n := StrlenFrom(path, 0, s);
    var text := path[..n];
    assert text == path[..][0..|s|];
    var found, prefixLength := FindMount(mounts, text, reverse);
    if found == [] {
      r := WinPathTranslateInternal(path, reverse, distribution, s);
    } else {
      FoundLength(mounts, s, reverse, found, prefixLength);
      var t := TranslateOnMount(path, reverse, found, prefixLength, s);
      r := Some(t);
    }
  }

  lemma FoundLength(mounts: seq<MountEntry>, s: seq<Byte>, reverse: bool, found: seq<Byte>, length: nat)
    requires Found(mounts, |mounts|, s, reverse, found, length) && found != []
    ensures length <= |s|
  {
  }

  // ----- there and back over a mount -----

  lemma {:induction false} SlashEscapePlain(s: seq<Byte>)
    requires NothingToEscape(s)
    ensures SlashEscape(s) == s
  {
    if s != [] {
      assert NothingToEscape(s[..|s| - 1]);
      SlashEscapePlain(s[..|s| - 1]);
      assert s == s[..|s| - 1] + [s[|s| - 1]];
    }
  }

  lemma {:induction false} SlashEscapeLeavesNothing(s: seq<Byte>)
    ensures NothingToEscape(SlashEscape(s))
  {
    if s != [] {
      SlashEscapeLeavesNothing(s[..|s| - 1]);
      var c := s[|s| - 1];
      assert NothingToEscape(SlashEscapeByte(c));
      SlashEscapeSnoc(s[..|s| - 1], c);
      assert s == s[..|s| - 1] + [c];
    }
  }

  /** A suffix that was escaped is not unescaped on the way back. */
  lemma EscapedSuffixStays(suffix: seq<Byte>)
    requires !NothingToEscape(suffix)
    ensures Canonical([], Escape(suffix), SLASH) != suffix
  {
    CanonicalOfEscape([], suffix);
    SlashEscapeLeavesNothing(Squeezed([], suffix));
  }

  lemma BackOfCopied(suffix: seq<Byte>)
    requires NothingToEscape(suffix)
    ensures Canonical([], Canonical([], suffix, BACKSLASH), SLASH) == Squeezed([], Squeezed([], suffix))
  {
    var q := Squeezed([], suffix);
    SqueezedSubset([], suffix);
    SqueezedSubset([], q);
    assert Canonical([], suffix, BACKSLASH) == Escape(q) by { CanonicalIsEscape([], suffix); }
    assert Canonical([], Escape(q), SLASH) == SlashEscape(Squeezed([], q)) by { CanonicalOfEscape([], q); }
    SlashEscapePlain(Squeezed([], q));
  }

  /** A suffix that was copied comes back unless it repeats a slash. */
  lemma CopiedSuffixComesBackIff(suffix: seq<Byte>)
    requires NothingToEscape(suffix)
    ensures Canonical([], Canonical([], suffix, BACKSLASH), SLASH) == suffix <==> !RepeatsSlash(suffix)
  {
    BackOfCopied(suffix);
    SqueezedIff([], suffix);
    assert [] + suffix == suffix;
  }

  /** For every suffix: over the mount and back it is the same again exactly when nothing in it needs
      escaping, no slash is repeated, and it is not the root of a drive. */
  lemma SuffixComesBackIff(source: seq<Byte>, suffix: seq<Byte>)
    ensures Canonical([], TranslatedSuffix(source, suffix, false), SLASH) == suffix <==>
            NothingToEscape(suffix) && !RepeatsSlash(suffix) && !(suffix == [] && IsDriveName(source))
  {
    EscapeKeepsLengthIff(suffix);
    if suffix == [] && IsDriveName(source) {
      assert |CanonicalPut([], BACKSLASH, SLASH)| == 1;
    } else if NothingToEscape(suffix) {
      CopiedSuffixComesBackIff(suffix);
    } else {
      EscapedSuffixStays(suffix);
    }
  }

  lemma PrefixSplits(path: seq<Byte>, prefix: seq<Byte>)
    requires PathPrefix(path, prefix, false) > 0
    ensures |prefix| <= |path| && path == prefix + path[|prefix|..]
    ensures |path| > |prefix| ==> path[|prefix|] == SLASH
  {
    assert path[..|prefix|] == prefix;
  }

  /** Canonicalising keeps a separator in front. */
  lemma {:induction false} CanonicalKeepsFront(done: seq<Byte>, s: seq<Byte>, sep: Byte)
    ensures done <= Canonical(done, s, sep)
    decreases |s|
  {
    if s != [] {
      CanonicalKeepsFront(CanonicalPut(done, s[0], sep), s[1..], sep);
    }
  }

  lemma TailStarts(s: seq<Byte>, sep: Byte)
    requires s == [] || IsSeparator(s[0])
    ensures var c := Canonical([], s, sep); c == [] <==> s == []
    ensures s != [] ==> Canonical([], s, sep)[0] == sep
  {
    if s != [] {
      assert CanonicalPut([], s[0], sep) == [sep];
      CanonicalKeepsFront([sep], s[1..], sep);
    }
  }

  /** The name of a path on a mount matches that mount again, over its whole source. */
  lemma NameMatchesSource(source: seq<Byte>, suffix: seq<Byte>)
    requires suffix == [] || suffix[0] == SLASH
    ensures var tail := TranslatedSuffix(source, suffix, false);
            && (tail == [] || tail[0] == BACKSLASH)
            && OnMount(source, suffix, false)[|source|..] == tail
            && PathPrefix(OnMount(source, suffix, false), source, true) == |source|
  {
    TailStarts(suffix, BACKSLASH);
    if suffix != [] {
      assert Escape(suffix)[0] == BACKSLASH;
    }
  }

  /** For every path on a mount: the search back can match the mount over its whole source, and what
      that gives is the path itself exactly when nothing behind the mount point needs escaping, no slash
      is repeated there, and it is not the root of a drive, which gains a slash. */
  lemma NameThereAndBackIff(point: seq<Byte>, path: seq<Byte>, source: seq<Byte>)
    requires PathPrefix(path, point, false) > 0
    ensures var suffix := path[|point|..];
            var w := OnMount(source, suffix, false);
            && PathPrefix(w, source, true) == |source|
            && (OnMount(point, w[|source|..], true) == path <==>
                  NothingToEscape(suffix) && !RepeatsSlash(suffix) && !(suffix == [] && IsDriveName(source)))
            && (suffix == [] && IsDriveName(source) ==> OnMount(point, w[|source|..], true) == path + [SLASH])
  {
    PrefixSplits(path, point);
    var suffix := path[|point|..];
    NameMatchesSource(source, suffix);
    SuffixComesBackIff(source, suffix);
    var back := Canonical([], TranslatedSuffix(source, suffix, false), SLASH);
    assert (point + back)[|point|..] == back;
    if suffix == [] && IsDriveName(source) {
      assert CanonicalPut([], BACKSLASH, SLASH) == [SLASH];
    }
  }

  /** Bytes that are no separators are copied. */
  lemma {:induction false} CanonicalRun(done: seq<Byte>, s: seq<Byte>, i: nat)
    requires i <= |s| && forall k :: i <= k < |s| ==> !IsSeparator(s[k])
    ensures Canonical(done, s[i..], SLASH) == done + s[i..]
    decreases |s| - i
  {
    if i < |s| {
      CanonicalStep(done, s, i, SLASH);
      CanonicalRun(done + [s[i]], s, i + 1);
    }
  }

  lemma ColonEscaped()
    ensures Escape([SLASH, 97, COLON, 98]) == [BACKSLASH, 97, 0xEF, 0x80, 0xBA, 98]
  {
    var s: seq<Byte> := [SLASH, 97, COLON, 98];
    EscapeStep(s, 0);
    EscapeStep(s, 1);
    EscapeStep(s, 2);
    EscapeStep(s, 3);
    assert s[0..] == s && s[4..] == [];
  }

  lemma ColonCanonical(tail: seq<Byte>)
    requires tail == [BACKSLASH, 97, 0xEF, 0x80, 0xBA, 98]
    ensures Canonical([], tail, SLASH) == [SLASH, 97, 0xEF, 0x80, 0xBA, 98]
  {
    CanonicalStep([], tail, 0, SLASH);
    assert tail[0..] == tail && CanonicalPut([], BACKSLASH, SLASH) == [SLASH];
    CanonicalRun([SLASH], tail, 1);
    assert [SLASH] + tail[1..] == [SLASH, 97, 0xEF, 0x80, 0xBA, 98];
  }

  lemma BackOverMount(point: seq<Byte>, source: seq<Byte>, suffix: seq<Byte>, tail: seq<Byte>, back: seq<Byte>)
    requires TranslatedSuffix(source, suffix, false) == tail && Canonical([], tail, SLASH) == back
    ensures OnMount(point, OnMount(source, suffix, false)[|source|..], true) == point + back
  {
    BehindName(source, tail, |source|);
    assert tail[0..] == tail;
  }

  /** `/a:b` behind a mount point comes back with the three bytes that stand for the colon. */
  lemma ColonIsNotRestored(point: seq<Byte>, source: seq<Byte>, suffix: seq<Byte>)
    requires suffix == [SLASH, 97, COLON, 98]
    ensures OnMount(point, OnMount(source, suffix, false)[|source|..], true) ==
              point + [SLASH, 97, 0xEF, 0x80, 0xBA, 98]
  {
    ColonEscaped();
    ColonCanonical(Escape(suffix));
    BackOverMount(point, source, suffix, Escape(suffix), [SLASH, 97, 0xEF, 0x80, 0xBA, 98]);
  }

  // ----- the search back -----

  function Separators(s: seq<Byte>): nat {
    if s == [] then 0 else (if IsSeparator(s[0]) then 1 else 0) + Separators(s[1..])
  }

  lemma {:induction false} SeparatorsConcat(a: seq<Byte>, b: seq<Byte>)
    ensures Separators(a + b) == Separators(a) + Separators(b)
  {
    if a == [] {
      assert a + b == b;
    } else {
      SeparatorsConcat(a[1..], b);
      assert (a + b)[1..] == a[1..] + b;
    }
  }

  lemma {:induction false} CanonicalAddsNone(done: seq<Byte>, s: seq<Byte>, sep: Byte)
    requires IsSeparator(sep)
    ensures Separators(Canonical(done, s, sep)) <= Separators(done) + Separators(s)
    decreases |s|
  {
    if s != [] {
      var done' := CanonicalPut(done, s[0], sep);
      CanonicalAddsNone(done', s[1..], sep);
      SeparatorsConcat(done, [s[0]]);
      SeparatorsConcat(done, [sep]);
    }
  }

  lemma {:induction false} NoSeparators(s: seq<Byte>)
    requires forall k :: 0 <= k < |s| ==> !IsSeparator(s[k])
    ensures Separators(s) == 0
  {
    if s != [] {
      NoSeparators(s[1..]);
    }
  }

  lemma {:induction false} EscapeAddsNone(s: seq<Byte>)
    ensures Separators(Escape(s)) <= Separators(s)
  {
    if s != [] {
      var e := EscapeByte(s[0]);
      EscapeAddsNone(s[1..]);
      SeparatorsConcat(e, Escape(s[1..]));
      if NeedsEscape(s[0]) {
        NoSeparators(e);
      } else {
        assert e[1..] == [];
      }
    }
  }

  lemma TranslatedAddsOne(source: seq<Byte>, suffix: seq<Byte>)
    ensures Separators(TranslatedSuffix(source, suffix, false)) <=
              Separators(suffix) + if suffix == [] then 1 else 0
  {
    EscapeAddsNone(suffix);
    CanonicalAddsNone([], suffix, BACKSLASH);
  }

  lemma LaterPartHasFewer(s: seq<Byte>, d: nat)
    requires 0 < d <= |s| && IsSeparator(s[0])
    ensures Separators(s[d..]) < Separators(s)
  {
    SeparatorsConcat(s[..d], s[d..]);
    assert s == s[..d] + s[d..];
  }

  /** A part of the translated suffix that starts later cannot spell out the suffix and a segment before it. */
  lemma LaterTailIsShorter(source: seq<Byte>, suffix: seq<Byte>, d: nat, mid: seq<Byte>, tail: seq<Byte>)
    requires (suffix == [] || suffix[0] == SLASH) && tail == TranslatedSuffix(source, suffix, false)
    requires 0 < d <= |tail| && mid != [] && mid[0] == SLASH
    ensures Canonical([], tail[d..], SLASH) != mid + suffix
  {
    assert tail[0] == BACKSLASH by { NameMatchesSource(source, suffix); }
    TranslatedAddsOne(source, suffix);
    LaterPartHasFewer(tail, d);
    CanonicalAddsNone([], tail[d..], SLASH);
    assert Separators(mid) >= 1;
    SeparatorsConcat(mid, suffix);
  }

  lemma BehindName(source: seq<Byte>, tail: seq<Byte>, n: nat)
    requires |source| <= n <= |source| + |tail|
    ensures (source + tail)[n..] == tail[n - |source|..]
  {
  }

  lemma MiddleSplits(path: seq<Byte>, m: nat, n: nat)
    requires m <= n <= |path|
    ensures path[m..] == path[m..n] + path[n..]
  {
  }

  /** A mount point above the one a name was made for, with a longer match, does not give the path back. */
  lemma HigherPointDiffers(path: seq<Byte>, a: seq<Byte>, b: seq<Byte>, source: seq<Byte>, length: nat, w: seq<Byte>)
    requires PathPrefix(path, a, false) > 0 && PathPrefix(path, b, false) > 0 && |b| < |a|
    requires w == OnMount(source, path[|a|..], false) && |source| < length <= |w|
    ensures b + Canonical([], w[length..], SLASH) != path
  {
    var suffix, mid := path[|a|..], path[|b|..|a|];
    var tail := TranslatedSuffix(source, suffix, false);
    PrefixSplits(path, a);
    PrefixSplits(path, b);
    LaterTailIsShorter(source, suffix, length - |source|, mid, tail);
    BehindName(source, tail, length);
    MiddleSplits(path, |b|, |a|);
    BehindName(b, Canonical([], w[length..], SLASH), |b|);
  }

  /** Two mount points on one path: the shorter covers the longer. */
  lemma ShorterCovers(mounts: seq<MountEntry>, path: seq<Byte>, i: nat, j: nat)
    requires i < |mounts| && j < |mounts| && Covers(mounts[i], path) && Covers(mounts[j], path)
    requires |mounts[i].mountPoint| <= |mounts[j].mountPoint|
    ensures Covers(mounts[i], mounts[j].mountPoint)
  {
    var a, b := mounts[i].mountPoint, mounts[j].mountPoint;
    assert forall k :: 0 <= k < |a| ==> a[k] == path[k] == b[k];
    assert |b| > |a| ==> b[|a|] == path[|a|];
  }

  /** The search from Windows finds a mount, and over that mount the name stands for the path. */
  ghost predicate ReturnsOverMount(mounts: seq<MountEntry>, w: seq<Byte>, path: seq<Byte>) {
    exists replacement, length: nat ::
      && Found(mounts, |mounts|, w, true, replacement, length) && replacement != [] && length <= |w|
      && OnMount(replacement, w[length..], true) == path
  }

  /** A best match that comes earlier in the list and gives the path back has a later mount over it. */
  lemma EarlierIsShadowed(mounts: seq<MountEntry>, path: seq<Byte>, i: nat, j: nat, source: seq<Byte>, length: nat,
                          w: seq<Byte>)
    requires j < i < |mounts| && Covers(mounts[i], path) && Covers(mounts[j], path)
    requires w == OnMount(source, path[|mounts[i].mountPoint|..], false) && |source| < length <= |w|
    requires mounts[j].mountPoint + Canonical([], w[length..], SLASH) == path
    ensures Shadowed(mounts, |mounts|, j)
  {
    if |mounts[i].mountPoint| > |mounts[j].mountPoint| {
      HigherPointDiffers(path, mounts[i].mountPoint, mounts[j].mountPoint, source, length, w);
      assert false;
    }
    ShorterCovers(mounts, path, i, j);
  }

  /** If it does so over some mount, that is the mount the path lies on. */
  lemma ReturnsOverItself(mounts: seq<MountEntry>, path: seq<Byte>, i: nat, j: nat, source: seq<Byte>, w: seq<Byte>)
    requires LastCovering(mounts, |mounts|, path, i) && WindowsSource(mounts[i]) == Some(source)
    requires w == OnMount(source, path[|mounts[i].mountPoint|..], false)
    requires BestMatch(mounts, |mounts|, w, j) && !Shadowed(mounts, |mounts|, j)
    requires MatchLength(mounts[j], w) <= |w| && mounts[j].mountPoint != []
    requires OnMount(mounts[j].mountPoint, w[MatchLength(mounts[j], w)..], true) == path
    ensures i == j
  {
    var length := MatchLength(mounts[j], w);
    assert MatchLengths(mounts, w)[j] == length > 0;
    assert Covers(mounts[j], path) by { TailStarts(w[length..], SLASH); }
    if j < i {
      assert MatchLengths(mounts, w)[i] == |source| by {
        PrefixSplits(path, mounts[i].mountPoint);
        NameMatchesSource(source, path[|mounts[i].mountPoint|..]);
      }
      EarlierIsShadowed(mounts, path, i, j, source, length, w);
      assert false;
    }
  }

  /** For every mount list and every path on a mount that has a Windows name: the path has a name under
      that mount, and the search from Windows leads back to the path if and only if the mount is the
      best match for the name, nothing is mounted over it, nothing behind the mount point needs
      escaping, no slash is repeated there, and the path is not the root of a drive. */
  lemma MountRoundTripIff(mounts: seq<MountEntry>, path: seq<Byte>, i: nat, source: seq<Byte>, distribution: seq<Byte>)
    requires LastCovering(mounts, |mounts|, path, i) && WindowsSource(mounts[i]) == Some(source) && source != []
    ensures var suffix := path[|mounts[i].mountPoint|..];
            var w := OnMount(source, suffix, false);
            && Translates(mounts, path, false, distribution, Some(w))
            && (ReturnsOverMount(mounts, w, path) <==>
                  && BestMatch(mounts, |mounts|, w, i) && !Shadowed(mounts, |mounts|, i)
                  && NothingToEscape(suffix) && !RepeatsSlash(suffix) && !(suffix == [] && IsDriveName(source)))
  {
    var point := mounts[i].mountPoint;
    var suffix := path[|point|..];
    var w := OnMount(source, suffix, false);
    PrefixSplits(path, point);
    assert Found(mounts, |mounts|, path, false, source, |point|);
    NameThereAndBackIff(point, path, source);
    assert MatchLengths(mounts, w)[i] == |source|;
    if BestMatch(mounts, |mounts|, w, i) && !Shadowed(mounts, |mounts|, i) {
      assert Found(mounts, |mounts|, w, true, point, |source|);
      forall replacement, length: nat | Found(mounts, |mounts|, w, true, replacement, length) && replacement != []
        ensures replacement == point && length == |source|
      {
        FoundUnique(mounts, w, true, point, |source|, replacement, length);
      }
    } else if ReturnsOverMount(mounts, w, path) {
      ReturningMount(mounts, path, i, source, w);
      assert false;
    }
  }

  lemma ReturningMount(mounts: seq<MountEntry>, path: seq<Byte>, i: nat, source: seq<Byte>, w: seq<Byte>)
    requires LastCovering(mounts, |mounts|, path, i) && WindowsSource(mounts[i]) == Some(source)
    requires w == OnMount(source, path[|mounts[i].mountPoint|..], false) && ReturnsOverMount(mounts, w, path)
    ensures BestMatch(mounts, |mounts|, w, i) && !Shadowed(mounts, |mounts|, i)
  {
    var replacement, length: nat :|
      Found(mounts, |mounts|, w, true, replacement, length) && replacement != [] && length <= |w|
      && OnMount(replacement, w[length..], true) == path;
    var j :| BestMatch(mounts, |mounts|, w, j) && MatchLengths(mounts, w)[j] == length
             && replacement == mounts[j].mountPoint && !Shadowed(mounts, |mounts|, j);
    ReturnsOverItself(mounts, path, i, j, source, w);
  }

  // ----- the whole trip -----

  ghost predicate NoMountFound(mounts: seq<MountEntry>, path: seq<Byte>, reverse: bool) {
    exists length: nat :: Found(mounts, |mounts|, path, reverse, [], length)
  }

  /** For every name and every distribution: it translates to the path over a mount, or over the share when
      the search finds no mount. */
  lemma TranslationReturnsIff(mounts: seq<MountEntry>, w: seq<Byte>, path: seq<Byte>, distribution: seq<Byte>)
    ensures Translates(mounts, w, true, distribution, Some(path)) <==>
            || ReturnsOverMount(mounts, w, path)
            || (NoMountFound(mounts, w, true) && distribution != [] && FromShare(distribution, w) == Some(path))
  {
    if ReturnsOverMount(mounts, w, path) {
      var replacement, length: nat :|
        Found(mounts, |mounts|, w, true, replacement, length) && replacement != [] && length <= |w|
        && OnMount(replacement, w[length..], true) == path;
    } else if NoMountFound(mounts, w, true) && distribution != [] && FromShare(distribution, w) == Some(path) {
      var length: nat :| Found(mounts, |mounts|, w, true, [], length);
    }
  }

  /** The whole trip over a mount, for every distribution for which the name is not one of its share. */
  lemma MountTripIff(mounts: seq<MountEntry>, path: seq<Byte>, i: nat, source: seq<Byte>, distribution: seq<Byte>)
    requires LastCovering(mounts, |mounts|, path, i) && WindowsSource(mounts[i]) == Some(source) && source != []
    requires FromShare(distribution, OnMount(source, path[|mounts[i].mountPoint|..], false)) == None
    ensures var suffix := path[|mounts[i].mountPoint|..];
            var w := OnMount(source, suffix, false);
            && Translates(mounts, path, false, distribution, Some(w))
            && (Translates(mounts, w, true, distribution, Some(path)) <==>
                  && BestMatch(mounts, |mounts|, w, i) && !Shadowed(mounts, |mounts|, i)
                  && NothingToEscape(suffix) && !RepeatsSlash(suffix) && !(suffix == [] && IsDriveName(source)))
  {
    MountRoundTripIff(mounts, path, i, source, distribution);
    TranslationReturnsIff(mounts, OnMount(source, path[|mounts[i].mountPoint|..], false), path, distribution);
  }

  /** The whole trip over the share, for a path and a name on no mount. */
  lemma ShareTripIff(mounts: seq<MountEntry>, path: seq<Byte>, distribution: seq<Byte>)
    requires distribution != [] && NUL !in path
    requires NoMountFound(mounts, path, false) && NoMountFound(mounts, ToShare(distribution, path), true)
    ensures Translates(mounts, path, false, distribution, Some(ToShare(distribution, path)))
    ensures Translates(mounts, ToShare(distribution, path), true, distribution, Some(path)) <==>
            path != [] && !RepeatsSlash(path) && !HoldsSequence(path)
  {
    var w := ToShare(distribution, path);
    var length: nat :| Found(mounts, |mounts|, path, false, [], length);
    NoReturnWithoutMount(mounts, w, path);
    TranslationReturnsIff(mounts, w, path, distribution);
    if path == [] {
      EmptyPathOnShare(distribution);
    } else {
      ShareRoundTripIff(distribution, path);
    }
  }

  lemma NoReturnWithoutMount(mounts: seq<MountEntry>, w: seq<Byte>, path: seq<Byte>)
    requires NoMountFound(mounts, w, true)
    ensures !ReturnsOverMount(mounts, w, path)
  {
    var none: nat :| Found(mounts, |mounts|, w, true, [], none);
    forall replacement, length: nat | Found(mounts, |mounts|, w, true, replacement, length)
      ensures replacement == []
    {
      FoundUnique(mounts, w, true, [], none, replacement, length);
    }
  }

  /** The empty path has the name of the share itself, which stands for the root. */
  lemma EmptyPathOnShare(distribution: seq<Byte>)
    ensures FromShare(distribution, ToShare(distribution, [])) == Some([SLASH])
  {
    assert Escape([]) == [];
    assert ToShare(distribution, []) == RDR_PREFIX + distribution;
  }
}
