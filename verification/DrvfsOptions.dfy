/**
 DrvFs mount options: converting them to 9p options, assembling the option string
 of the mount, and parsing the Windows source back out of it.
 */
module DrvfsOptions {
  import opened Common
  import opened PathEscape
  import opened WslShare

  const COMMA: Byte := 0x2C
  const SEMICOLON: Byte := 0x3B
  const COLON: Byte := 0x3A
  const LETTER_P: Byte := 0x70

  const METADATA := Ascii("metadata")
  const CASE := Ascii("case=")
  const CASE_DIR := Ascii("case=dir")
  const CASE_FORCE := Ascii("case=force")
  const UID := Ascii("uid=")
  const GID := Ascii("gid=")
  const UMASK := Ascii("umask=")
  const DMASK := Ascii("dmask=")
  const FMASK := Ascii("fmask=")
  const SYMLINK_ROOT := Ascii("symlinkroot=")
  const FALLBACK := Ascii("fallback=")
  const ANAME_DRVFS := Ascii("aname=drvfs")
  const PATH_OPTION := Ascii("path=")
  const UNC_TRANSLATED_PREFIX := Ascii("UNC\\")
  const UNC_PREFIX: seq<Byte> := [BACKSLASH, BACKSLASH]
  const CACHE_MMAP := Ascii("cache=mmap")

  predicate Begins(s: seq<Byte>, prefix: seq<Byte>) {
    prefix <= s
  }

  // ----- tokens -----

  /** The text up to the next separator. */
  function Token(s: seq<Byte>, sep: Byte): (t: seq<Byte>)
    ensures t <= s && sep !in t && (|t| < |s| ==> s[|t|] == sep)
  {
    if s == [] || s[0] == sep then [] else [s[0]] + Token(s[1..], sep)
  }

  /** The text after that separator, empty if there was none. */
  function AfterToken(s: seq<Byte>, sep: Byte): (r: seq<Byte>)
    ensures s != [] ==> |r| < |s|
  {
    var n := |Token(s, sep)|;
    if n == |s| then [] else s[n + 1..]
  }

  method StringNextToken(view: seq<Byte>, sep: Byte) returns (token: seq<Byte>, rest: seq<Byte>)
    ensures token == Token(view, sep) && rest == AfterToken(view, sep)
  {
    var pos := 0;
    while pos < |view| && view[pos] != sep
      invariant pos <= |view| && sep !in view[..pos]
    {
      pos := pos + 1;
    }
    TokenIs(view, sep, pos);
    token := view[..pos];
    rest := if pos == |view| then [] else view[pos + 1..];
  }

  /** The token is determined by where the first separator is. */
  lemma {:induction false} TokenIs(s: seq<Byte>, sep: Byte, n: nat)
    requires n <= |s| && sep !in s[..n] && (n < |s| ==> s[n] == sep)
    ensures Token(s, sep) == s[..n]
  {
    if n > 0 {
      assert s[0] in s[..n] && s[..n][1..] == s[1..][..n - 1];
      assert forall c :: c in s[1..][..n - 1] ==> c in s[..n];
      TokenIs(s[1..], sep, n - 1);
      assert s[..n] == [s[0]] + s[1..][..n - 1];
    }
  }

  lemma TokenOfPieces(t: seq<Byte>, sep: Byte, rest: seq<Byte>)
    requires sep !in t
    ensures Token(t + [sep] + rest, sep) == t && AfterToken(t + [sep] + rest, sep) == rest
  {
    var s := t + [sep] + rest;
    assert s[..|t|] == t;
    TokenIs(s, sep, |t|);
  }

  // ----- converting options -----

  /** The options that DrvFs shares with the 9p server. */
  predicate IsPlan9Option(o: seq<Byte>) {
    o == METADATA || Begins(o, CASE) || Begins(o, UID) || Begins(o, GID) || Begins(o, UMASK)
    || Begins(o, DMASK) || Begins(o, FMASK) || Begins(o, SYMLINK_ROOT)
  }

  function Rewritten(o: seq<Byte>): seq<Byte> {
    if o == CASE_FORCE then CASE_DIR else o
  }

  predicate IsStandardOption(o: seq<Byte>) {
    !IsPlan9Option(o) && !Begins(o, FALLBACK)
  }

  function Plan9Piece(o: seq<Byte>): seq<Byte> {
    if IsPlan9Option(o) then [SEMICOLON] + Rewritten(o) else []
  }

  function StandardPiece(o: seq<Byte>): seq<Byte> {
    if IsStandardOption(o) then o + [COMMA] else []
  }

  function Plan9Text(options: seq<Byte>): seq<Byte>
    decreases |options|
  {
    if options == [] then []
    else Plan9Piece(Token(options, COMMA)) + Plan9Text(AfterToken(options, COMMA))
  }

  function StandardText(options: seq<Byte>): seq<Byte>
    decreases |options|
  {
    if options == [] then []
    else StandardPiece(Token(options, COMMA)) + StandardText(AfterToken(options, COMMA))
  }

  method ConvertDrvfsMountOptionsToPlan9(options: seq<Byte>, drvFsPrefix: seq<Byte>)
    returns (plan9: seq<Byte>, standard: seq<Byte>)
    ensures plan9 == Plan9Text(options) + ([SEMICOLON] + SYMLINK_ROOT + drvFsPrefix)
    ensures standard == StandardText(options)
  {
    plan9, standard := [], [];
    var rest := options;
    while rest != []
      invariant plan9 + Plan9Text(rest) == Plan9Text(options)
      invariant standard + StandardText(rest) == StandardText(options)
      decreases |rest|
    {
      var option, next := StringNextToken(rest, COMMA);
      Associate(plan9, Plan9Piece(option), Plan9Text(next));
      Associate(standard, StandardPiece(option), StandardText(next));
      plan9, standard := AppendOption(option, plan9, standard);
      rest := next;
    }
    assert plan9 + [] == plan9 && standard + [] == standard;
    var root := [SEMICOLON] + SYMLINK_ROOT + drvFsPrefix;
    plan9 := plan9 + root;
  }

  /** Lines 71-92: one option goes to one list, to the other, or nowhere. */
  method AppendOption(option: seq<Byte>, plan9: seq<Byte>, standard: seq<Byte>)
    returns (plan9': seq<Byte>, standard': seq<Byte>)
    ensures plan9' == plan9 + Plan9Piece(option)
    ensures standard' == standard + StandardPiece(option)
  {
    plan9', standard' := plan9, standard;
    if IsPlan9Option(option) {
      var o := option;
      if option == CASE_FORCE {
        o := CASE_DIR;
      }
      plan9' := plan9' + ([SEMICOLON] + o);
    } else if Begins(option, FALLBACK) {
    } else {
      standard' := standard' + (option + [COMMA]);
    }
  }

  // ----- where each option lands -----

  /** The options of a comma-separated list, in order. */
  function Options(s: seq<Byte>): seq<seq<Byte>>
    decreases |s|
  {
    if s == [] then [] else [Token(s, COMMA)] + Options(AfterToken(s, COMMA))
  }

  function StandardOnes(os: seq<seq<Byte>>): seq<seq<Byte>> {
    if os == [] then [] else (if IsStandardOption(os[0]) then [os[0]] else []) + StandardOnes(os[1..])
  }

  function Plan9Ones(os: seq<seq<Byte>>): seq<seq<Byte>> {
    if os == [] then [] else (if IsPlan9Option(os[0]) then [Rewritten(os[0])] else []) + Plan9Ones(os[1..])
  }

  /** The sub-options of a text in which each follows a semicolon. */
  function SubOptions(s: seq<Byte>): seq<seq<Byte>>
    decreases |s|
  {
    if s == [] then []
    else
      var t := Token(s[1..], SEMICOLON);
      [t] + SubOptions(s[1 + |t|..])
  }

  /** Read back, the standard list is exactly the standard options given, in order. */
  lemma {:induction false} StandardOptionsLand(options: seq<Byte>)
    ensures Options(StandardText(options)) == StandardOnes(Options(options))
    decreases |options|
  {
    if options != [] {
      var o, next := Token(options, COMMA), AfterToken(options, COMMA);
      StandardOptionsLand(next);
      assert Options(options)[1..] == Options(next);
      if IsStandardOption(o) {
        TokenOfPieces(o, COMMA, StandardText(next));
      } else {
        assert StandardText(options) == StandardText(next);
      }
    }
  }

  lemma SubOptionInFront(r: seq<Byte>, rest: seq<Byte>)
    requires SEMICOLON !in r && (rest == [] || rest[0] == SEMICOLON)
    ensures SubOptions([SEMICOLON] + r + rest) == [r] + SubOptions(rest)
  {
    var s := [SEMICOLON] + r + rest;
    assert s[1..] == r + rest && (r + rest)[..|r|] == r;
    TokenIs(s[1..], SEMICOLON, |r|);
    assert s[1 + |r|..] == rest;
  }

  /** No DrvFs option in the list holds the byte that separates sub-options. */
  ghost predicate CleanOptions(os: seq<seq<Byte>>) {
    forall k :: 0 <= k < |os| && IsPlan9Option(os[k]) ==> SEMICOLON !in os[k]
  }

  lemma RewrittenClean(o: seq<Byte>)
    ensures SEMICOLON !in Rewritten(o) <==> SEMICOLON !in o
  {
    assert SEMICOLON !in CASE_DIR && SEMICOLON !in CASE_FORCE;
  }

  lemma {:induction false} CleanOptionsLand(options: seq<Byte>)
    requires CleanOptions(Options(options))
    ensures SubOptions(Plan9Text(options)) == Plan9Ones(Options(options))
    decreases |options|
  {
    if options != [] {
      var o, next := Token(options, COMMA), AfterToken(options, COMMA);
      assert Options(options)[0] == o && Options(options)[1..] == Options(next);
      assert CleanOptions(Options(next)) by {
        assert forall k :: 0 <= k < |Options(next)| ==> Options(next)[k] == Options(options)[k + 1];
      }
      CleanOptionsLand(next);
      var rest := Plan9Text(next);
      if IsPlan9Option(o) {
        RewrittenClean(o);
        Plan9TextStarts(next);
        SubOptionInFront(Rewritten(o), rest);
      } else {
        assert [] + rest == rest;
      }
    }
  }

  lemma {:induction false} SubOptionsClean(s: seq<Byte>)
    ensures forall k :: 0 <= k < |SubOptions(s)| ==> SEMICOLON !in SubOptions(s)[k]
    decreases |s|
  {
    if s != [] {
      SubOptionsClean(s[1 + |Token(s[1..], SEMICOLON)|..]);
    }
  }

  lemma {:induction false} Plan9OnesHas(os: seq<seq<Byte>>, k: nat)
    requires k < |os| && IsPlan9Option(os[k])
    ensures Rewritten(os[k]) in Plan9Ones(os)
  {
    if k > 0 {
      Plan9OnesHas(os[1..], k - 1);
    }
  }

  /** Read back, the 9p list is exactly the DrvFs options given, in order, with case=force rewritten, if
      and only if none of them holds a semicolon. */
  lemma Plan9OptionsLandIff(options: seq<Byte>)
    ensures SubOptions(Plan9Text(options)) == Plan9Ones(Options(options)) <==> CleanOptions(Options(options))
  {
    var os := Options(options);
    if CleanOptions(os) {
      CleanOptionsLand(options);
    } else {
      var k :| 0 <= k < |os| && IsPlan9Option(os[k]) && SEMICOLON in os[k];
      RewrittenClean(os[k]);
      Plan9OnesHas(os, k);
      SubOptionsClean(Plan9Text(options));
    }
  }

  lemma OneOption(o: seq<Byte>)
    requires o != [] && COMMA !in o
    ensures Options(o) == [o] && Plan9Text(o) == Plan9Piece(o)
  {
    assert o[..|o|] == o;
    TokenIs(o, COMMA, |o|);
    assert Plan9Piece(o) + [] == Plan9Piece(o);
  }

  lemma LastSubOption(b: seq<Byte>)
    requires SEMICOLON !in b
    ensures SubOptions([SEMICOLON] + b) == [b]
  {
    SubOptionInFront(b, []);
    assert [SEMICOLON] + b + [] == [SEMICOLON] + b;
  }

  lemma TwoSubOptions(a: seq<Byte>, b: seq<Byte>)
    requires SEMICOLON !in a && SEMICOLON !in b
    ensures SubOptions([SEMICOLON] + (a + [SEMICOLON] + b)) == [a, b]
  {
    var rest := [SEMICOLON] + b;
    Associate(a, [SEMICOLON], b);
    Associate([SEMICOLON], a, rest);
    assert SubOptions([SEMICOLON] + a + rest) == [a] + SubOptions(rest) by { SubOptionInFront(a, rest); }
    LastSubOption(b);
  }

  lemma UidPiece(o: seq<Byte>)
    requires Begins(o, UID)
    ensures Plan9Piece(o) == [SEMICOLON] + o
  {
    assert o[0] == UID[0] != CASE_FORCE[0];
  }

  /** An option such as `uid=1;x` is read back as `uid=1` and `x`. */
  lemma SemicolonSplitsOption(a: seq<Byte>, b: seq<Byte>)
    requires Begins(a, UID) && COMMA !in a && SEMICOLON !in a && COMMA !in b && SEMICOLON !in b
    ensures var o := a + [SEMICOLON] + b;
            Options(o) == [o] && SubOptions(Plan9Text(o)) == [a, b]
  {
    var o := a + [SEMICOLON] + b;
    OneOption(o);
    UidPiece(o);
    TwoSubOptions(a, b);
  }

  // ----- parsing the source of a 9p mount -----

  predicate IsAlpha(c: Byte) {
    65 <= c <= 90 || 97 <= c <= 122
  }

  predicate IsDrive(s: seq<Byte>) {
    |s| > 1 && IsAlpha(s[0]) && s[1] == COLON
  }

  /** std::string_view::find. */
  function Find(s: seq<Byte>, pattern: seq<Byte>): Option<nat> {
    if pattern <= s then Some(0)
    else if s == [] then None
    else
      var r := Find(s[1..], pattern);
      if r == None then None else Some(r.value + 1)
  }

  lemma {:induction false} FindBounds(s: seq<Byte>, pattern: seq<Byte>)
    ensures Find(s, pattern).Some? ==> Find(s, pattern).value + |pattern| <= |s|
  {
    if !(pattern <= s) && s != [] {
      FindBounds(s[1..], pattern);
    }
  }

  /** The Windows name inside the value of a path= sub-option. */
  function SourceOfValue(v: seq<Byte>): Option<seq<Byte>> {
    if IsDrive(v) then Some(Canonical([], v, BACKSLASH))
    else if Begins(v, UNC_TRANSLATED_PREFIX) then
      Some(Canonical([], UNC_PREFIX + v[|UNC_TRANSLATED_PREFIX|..], BACKSLASH))
    else None
  }

  /** UtilParsePlan9MountSource; None is the empty result. */
  function Plan9Source(options: seq<Byte>): Option<seq<Byte>>
    decreases |options|
  {
    if options == [] then None
    else
      var o := Token(options, COMMA);
      if !Begins(o, ANAME_DRVFS) then Plan9Source(AfterToken(options, COMMA))
      else
        var i := Find(o, PATH_OPTION);
        if i == None then None
        else
          FindBounds(o, PATH_OPTION);
          SourceOfValue(Token(o[i.value + |PATH_OPTION|..], SEMICOLON))
  }

  method ParsePlan9MountSource(mountOptions: seq<Byte>) returns (r: Option<seq<Byte>>)
    ensures r == Plan9Source(mountOptions)
  {
    var options := mountOptions;
    while options != []
      invariant Plan9Source(options) == Plan9Source(mountOptions)
      decreases |options|
    {
      var current, next := StringNextToken(options, COMMA);
      if Begins(current, ANAME_DRVFS) {
        var i := Find(current, PATH_OPTION);
        if i == None {
          return None;
        }
        FindBounds(current, PATH_OPTION);
        var v, _ := StringNextToken(current[i.value + |PATH_OPTION|..], SEMICOLON);
        return SourceOfValue(v);
      }
      options := next;
    }
    return None;
  }

  // ----- the assembled option string -----

  predicate IsUnc(source: seq<Byte>) {
    |source| >= 2 && IsSeparator(source[0]) && IsSeparator(source[1])
  }

  /** The name MountDrvfs gives the 9p server. */
  function Plan9Name(source: seq<Byte>): seq<Byte> {
    if IsUnc(source) then UNC_TRANSLATED_PREFIX + source[2..] else source
  }

  function AnameOption(source: seq<Byte>, options: seq<Byte>, drvFsPrefix: seq<Byte>): seq<Byte> {
    ANAME_DRVFS + ([SEMICOLON] + PATH_OPTION)
    + (Plan9Name(source) + (Plan9Text(options) + ([SEMICOLON] + SYMLINK_ROOT + drvFsPrefix)))
  }

  function MountOptions(source: seq<Byte>, options: seq<Byte>, drvFsPrefix: seq<Byte>): seq<Byte> {
    CACHE_MMAP + [COMMA] + (StandardText(options) + AnameOption(source, options, drvFsPrefix))
  }

  /** No option given by the user is itself an aname= option for DrvFs. */
  ghost predicate NamesNoShare(options: seq<Byte>)
    decreases |options|
  {
    options == [] || (!Begins(Token(options, COMMA), ANAME_DRVFS) && NamesNoShare(AfterToken(options, COMMA)))
  }

  lemma SkipOption(o: seq<Byte>, rest: seq<Byte>)
    requires COMMA !in o && !Begins(o, ANAME_DRVFS)
    ensures Plan9Source(o + [COMMA] + rest) == Plan9Source(rest)
  {
    TokenOfPieces(o, COMMA, rest);
  }

  lemma StandardTextStep(options: seq<Byte>, o: seq<Byte>, rest: seq<Byte>)
    requires options != [] && o == Token(options, COMMA)
    ensures var text := StandardText(AfterToken(options, COMMA));
            StandardText(options) + rest ==
              if IsStandardOption(o) then o + [COMMA] + (text + rest) else text + rest
  {
    var text := StandardText(AfterToken(options, COMMA));
    Associate(StandardPiece(o), text, rest);
    assert [] + (text + rest) == text + rest;
  }

  lemma {:induction false} SkipStandardOptions(options: seq<Byte>, rest: seq<Byte>)
    requires NamesNoShare(options)
    ensures Plan9Source(StandardText(options) + rest) == Plan9Source(rest)
    decreases |options|
  {
    if options == [] {
      assert StandardText(options) + rest == rest;
    } else {
      var o, next := Token(options, COMMA), AfterToken(options, COMMA);
      SkipStandardOptions(next, rest);
      StandardTextStep(options, o, rest);
      if IsStandardOption(o) {
        SkipOption(o, StandardText(next) + rest);
      }
    }
  }

  /** The path= sub-option is found where MountDrvfs put it. */
  lemma FindPath(value: seq<Byte>)
    ensures Find(ANAME_DRVFS + ([SEMICOLON] + PATH_OPTION) + value, PATH_OPTION) == Some(12)
  {
    var s := ANAME_DRVFS + ([SEMICOLON] + PATH_OPTION) + value;
    assert |ANAME_DRVFS| == 11 && |PATH_OPTION| == 5;
    assert s[12..17] == PATH_OPTION && PATH_OPTION[0] == LETTER_P;
    assert forall i :: 0 <= i < 12 ==> s[i] != LETTER_P;
    FindAt(s, PATH_OPTION, 12);
  }

  lemma {:induction false} FindAt(s: seq<Byte>, pattern: seq<Byte>, n: nat)
    requires pattern != [] && n + |pattern| <= |s| && s[n..n + |pattern|] == pattern
    requires forall i :: 0 <= i < n ==> s[i] != pattern[0]
    ensures Find(s, pattern) == Some(n)
  {
    if n > 0 {
      assert s[1..][n - 1..n - 1 + |pattern|] == s[n..n + |pattern|];
      FindAt(s[1..], pattern, n - 1);
    } else {
      assert s[..|pattern|] == pattern;
    }
  }

  /** What two cuts leave of a name: the text in front of its first comma or semicolon. */
  function Front(name: seq<Byte>): (r: seq<Byte>)
    ensures COMMA !in r && SEMICOLON !in r && r <= name
  {
    var t := Token(name, COMMA);
    var r := Token(t, SEMICOLON);
    assert r == t[..|r|];
    r
  }

  lemma FrontIsAllIff(name: seq<Byte>)
    ensures Front(name) == name <==> COMMA !in name && SEMICOLON !in name
  {
    if COMMA !in name && SEMICOLON !in name {
      assert name[..|name|] == name;
      TokenIs(name, COMMA, |name|);
      TokenIs(name, SEMICOLON, |name|);
    }
  }

  /** The option, cut at the next comma: inside the name, or behind it. */
  lemma OptionCut(name: seq<Byte>, rest: seq<Byte>) returns (value: seq<Byte>)
    requires Begins(rest, [SEMICOLON])
    ensures var head := ANAME_DRVFS + ([SEMICOLON] + PATH_OPTION);
            Token(head + (name + rest), COMMA) == head + value && Token(value, SEMICOLON) == Front(name)
  {
    var head := ANAME_DRVFS + ([SEMICOLON] + PATH_OPTION);
    var s, t := head + (name + rest), Token(name, COMMA);
    assert |head| == 17 && COMMA !in head;
    if |t| < |name| {
      value := t;
      assert s[..17 + |t|] == head + t && s[17 + |t|] == name[|t|];
      TokenIs(s, COMMA, 17 + |t|);
    } else {
      var k := |Token(rest, COMMA)|;
      value := name + rest[..k];
      assert s[..17 + |value|] == head + value;
      assert 17 + |value| < |s| ==> s[17 + |value|] == rest[k];
      TokenIs(s, COMMA, 17 + |value|);
      ValueCut(name, rest[..k], value);
    }
  }

  lemma ValueCut(name: seq<Byte>, rest: seq<Byte>, value: seq<Byte>)
    requires value == name + rest && Begins(rest, [SEMICOLON]) && Token(name, COMMA) == name
    ensures Token(value, SEMICOLON) == Front(name)
  {
    var n := |Token(name, SEMICOLON)|;
    assert value[..n] == name[..n] == Token(name, SEMICOLON);
    assert value[n] == SEMICOLON;
    TokenIs(value, SEMICOLON, n);
  }

  lemma ParseAname(name: seq<Byte>, rest: seq<Byte>)
    requires Begins(rest, [SEMICOLON])
    ensures Plan9Source(ANAME_DRVFS + ([SEMICOLON] + PATH_OPTION) + (name + rest)) == SourceOfValue(Front(name))
  {
    var value := OptionCut(name, rest);
    var o := ANAME_DRVFS + ([SEMICOLON] + PATH_OPTION) + value;
    FindPath(value);
    assert |PATH_OPTION| == 5 && o[17..] == value && Begins(o, ANAME_DRVFS);
  }

  /** What is parsed back from the assembled string, for every source: what the front part of the name handed
      to the 9p server stands for. */
  lemma AssembledOptionsParse(source: seq<Byte>, options: seq<Byte>, drvFsPrefix: seq<Byte>)
    requires NamesNoShare(options)
    ensures Plan9Source(MountOptions(source, options, drvFsPrefix)) == SourceOfValue(Front(Plan9Name(source)))
  {
    var aname := AnameOption(source, options, drvFsPrefix);
    SkipOption(CACHE_MMAP, StandardText(options) + aname);
    SkipStandardOptions(options, aname);
    var rest := Plan9Text(options) + ([SEMICOLON] + SYMLINK_ROOT + drvFsPrefix);
    Plan9TextStarts(options);
    assert Begins(rest, [SEMICOLON]);
    ParseAname(Plan9Name(source), rest);
  }

  lemma NameIsCleanIff(source: seq<Byte>, c: Byte)
    requires c == COMMA || c == SEMICOLON
    ensures c in Plan9Name(source) <==> c in source
  {
    if IsUnc(source) {
      assert c !in UNC_TRANSLATED_PREFIX;
      assert source == source[..2] + source[2..];
    }
  }

  /** Canonicalising neither loses nor adds a byte that is no separator. */
  lemma {:induction false} CanonicalKeeps(done: seq<Byte>, s: seq<Byte>, c: Byte)
    requires !IsSeparator(c)
    ensures c in Canonical(done, s, BACKSLASH) <==> c in done || c in s
    decreases |s|
  {
    if s != [] {
      CanonicalKeeps(CanonicalPut(done, s[0], BACKSLASH), s[1..], c);
      assert s == [s[0]] + s[1..];
    }
  }

  lemma ValueKeeps(v: seq<Byte>, c: Byte)
    requires (c == COMMA || c == SEMICOLON) && c !in v
    ensures SourceOfValue(v).Some? ==> c !in SourceOfValue(v).value
  {
    CanonicalKeeps([], v, c);
    if Begins(v, UNC_TRANSLATED_PREFIX) {
      CanonicalKeeps([], UNC_PREFIX + v[|UNC_TRANSLATED_PREFIX|..], c);
    }
  }

  lemma {:induction false} Plan9TextStarts(options: seq<Byte>)
    ensures Plan9Text(options) == [] || Plan9Text(options)[0] == SEMICOLON
    decreases |options|
  {
    if options != [] {
      Plan9TextStarts(AfterToken(options, COMMA));
    }
  }

  /** A drive or UNC source comes back with its separators canonicalised, if and only if it holds neither a
      comma nor a semicolon. */
  lemma SourceRoundTripIff(source: seq<Byte>, options: seq<Byte>, drvFsPrefix: seq<Byte>)
    requires NamesNoShare(options) && (IsDrive(source) || IsUnc(source))
    ensures Plan9Source(MountOptions(source, options, drvFsPrefix)) == Some(Canonical([], source, BACKSLASH)) <==>
            COMMA !in source && SEMICOLON !in source
  {
    AssembledOptionsParse(source, options, drvFsPrefix);
    NameIsCleanIff(source, COMMA);
    NameIsCleanIff(source, SEMICOLON);
    FrontIsAllIff(Plan9Name(source));
    if COMMA !in source && SEMICOLON !in source {
      if IsUnc(source) {
        UncValue(source);
        UncCanonical(source);
      }
    } else {
      var c := if COMMA in source then COMMA else SEMICOLON;
      CanonicalKeeps([], source, c);
      ValueKeeps(Front(Plan9Name(source)), c);
    }
  }

  /** A drive source is cut at its first comma. */
  lemma CommaCutsDrive(drive: seq<Byte>, tail: seq<Byte>, options: seq<Byte>, drvFsPrefix: seq<Byte>)
    requires NamesNoShare(options) && IsDrive(drive) && COMMA !in drive && SEMICOLON !in drive
    ensures Plan9Source(MountOptions(drive + [COMMA] + tail, options, drvFsPrefix)) ==
              Some(Canonical([], drive, BACKSLASH))
  {
    var source := drive + [COMMA] + tail;
    AssembledOptionsParse(source, options, drvFsPrefix);
    assert !IsUnc(source);
    TokenOfPieces(drive, COMMA, tail);
    assert drive[..|drive|] == drive;
    TokenIs(drive, SEMICOLON, |drive|);
  }

  /** The source `C:\a,b` comes back as `C:\a`. */
  lemma CommaCutsSource(options: seq<Byte>, drvFsPrefix: seq<Byte>)
    requires NamesNoShare(options)
    ensures var drive: seq<Byte> := [67, COLON, BACKSLASH, 97];
            Plan9Source(MountOptions(drive + [COMMA] + [98], options, drvFsPrefix)) == Some(drive)
  {
    CommaCutsDrive([67, COLON, BACKSLASH, 97], [98], options, drvFsPrefix);
    DriveIsCanonical([67, COLON, BACKSLASH, 97]);
  }

  lemma DriveIsCanonical(drive: seq<Byte>)
    requires drive == [67, COLON, BACKSLASH, 97]
    ensures Canonical([], drive, BACKSLASH) == drive
  {
    CanonicalStep([], drive, 0, BACKSLASH);
    assert CanonicalPut([], 67, BACKSLASH) == [67];
    CanonicalStep([67], drive, 1, BACKSLASH);
    assert CanonicalPut([67], COLON, BACKSLASH) == [67, COLON];
    CanonicalStep([67, COLON], drive, 2, BACKSLASH);
    assert CanonicalPut([67, COLON], BACKSLASH, BACKSLASH) == [67, COLON, BACKSLASH];
    CanonicalStep([67, COLON, BACKSLASH], drive, 3, BACKSLASH);
    assert CanonicalPut([67, COLON, BACKSLASH], 97, BACKSLASH) == drive;
    assert drive[0..] == drive && drive[4..] == [];
  }

  lemma UncValue(source: seq<Byte>)
    requires IsUnc(source)
    ensures SourceOfValue(Plan9Name(source)) == Some(Canonical([], UNC_PREFIX + source[2..], BACKSLASH))
  {
    var v := UNC_TRANSLATED_PREFIX + source[2..];
    assert |UNC_TRANSLATED_PREFIX| == 4 && v[4..] == source[2..] && v[1] == UNC_TRANSLATED_PREFIX[1] == 78;
  }

  lemma UncCanonical(source: seq<Byte>)
    requires IsUnc(source)
    ensures Canonical([], UNC_PREFIX + source[2..], BACKSLASH) == Canonical([], source, BACKSLASH)
  {
    var s := UNC_PREFIX + source[2..];
    CanonicalStep([], s, 0, BACKSLASH);
    CanonicalStep([BACKSLASH], s, 1, BACKSLASH);
    CanonicalStep([], source, 0, BACKSLASH);
    CanonicalStep([BACKSLASH], source, 1, BACKSLASH);
    assert s[0..] == s && source[0..] == source && s[2..] == source[2..];
  }
}
