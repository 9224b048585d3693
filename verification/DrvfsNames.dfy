/** Where each mount option of DrvFs goes, by its name, and what the assembled option string looks like. */
module DrvfsNames {
  import opened Common
  import opened PathEscape
  import opened WslShare
  import opened DrvfsOptions

  /** The list that a single option is turned into: the 9p text and the standard text. */
  ghost predicate GoesTo(o: seq<Byte>, plan9: seq<Byte>, standard: seq<Byte>) {
    Plan9Text(o) == plan9 && StandardText(o) == standard
  }

  lemma OneOptionGoes(o: seq<Byte>)
    requires o != [] && COMMA !in o
    ensures GoesTo(o, Plan9Piece(o), StandardPiece(o))
  {
    assert o[..|o|] == o;
    TokenIs(o, COMMA, |o|);
    assert Plan9Piece(o) + [] == Plan9Piece(o) && StandardPiece(o) + [] == StandardPiece(o);
  }

  /** The options the 9p server understands. */
  ghost predicate ServerOption(o: seq<Byte>) {
    o == Ascii("metadata") || Ascii("case=") <= o || Ascii("uid=") <= o || Ascii("gid=") <= o
    || Ascii("umask=") <= o || Ascii("dmask=") <= o || Ascii("fmask=") <= o || Ascii("symlinkroot=") <= o
  }

  /** They go to its list, behind a semicolon. */
  lemma ServerOptionGoes(o: seq<Byte>)
    requires 0x2C !in o && o != Ascii("case=force") && ServerOption(o)
    ensures GoesTo(o, [0x3B] + o, [])
  {
    OneOptionGoes(o);
  }

  /** `case=force` goes there as `case=dir`. */
  lemma CaseForceGoes()
    ensures GoesTo(Ascii("case=force"), Ascii(";case=dir"), [])
  {
    CaseForceNames();
    OneOptionGoes(CASE_FORCE);
  }

  lemma CaseForceNames()
    ensures CASE_FORCE == Ascii("case=force") && 0x2C !in CASE_FORCE && CASE_FORCE != [] && CASE <= CASE_FORCE
    ensures [SEMICOLON] + CASE_DIR == Ascii(";case=dir")
  {
  }

  /** `fallback=` goes nowhere. */
  lemma FallbackGoes(o: seq<Byte>)
    requires 0x2C !in o && Ascii("fallback=") <= o
    ensures GoesTo(o, [], [])
  {
    FallbackIsNoServerOption(o);
    OneOptionGoes(o);
  }

  lemma StartsDiffer(o: seq<Byte>, name: seq<Byte>, k: nat)
    requires k < |o| && k < |name| && o[k] != name[k]
    ensures !(name <= o) && o != name
  {
  }

  lemma FallbackIsNoServerOption(o: seq<Byte>)
    requires Ascii("fallback=") <= o
    ensures !ServerOption(o)
  {
    assert o[0] == Ascii("fallback=")[0] == 102 && o[1] == Ascii("fallback=")[1] == 97;
    StartsDiffer(o, Ascii("metadata"), 0);
    StartsDiffer(o, Ascii("case="), 0);
    StartsDiffer(o, Ascii("uid="), 0);
    StartsDiffer(o, Ascii("gid="), 0);
    StartsDiffer(o, Ascii("umask="), 0);
    StartsDiffer(o, Ascii("dmask="), 0);
    StartsDiffer(o, Ascii("fmask="), 1);
    StartsDiffer(o, Ascii("symlinkroot="), 0);
  }

  /** Every other option goes to the standard list, with a comma behind it. */
  lemma StandardOptionGoes(o: seq<Byte>)
    requires o != [] && 0x2C !in o && !ServerOption(o) && !(Ascii("fallback=") <= o)
    ensures GoesTo(o, [], o + [0x2C])
  {
    OneOptionGoes(o);
  }

  /** A list of options is treated one by one. */
  lemma OptionsGo(o: seq<Byte>, rest: seq<Byte>)
    requires 0x2C !in o
    ensures Plan9Text(o + [0x2C] + rest) == Plan9Piece(o) + Plan9Text(rest)
    ensures StandardText(o + [0x2C] + rest) == StandardPiece(o) + StandardText(rest)
  {
    TokenOfPieces(o, COMMA, rest);
  }

  lemma ServerOptionsGo(a: seq<Byte>, b: seq<Byte>)
    requires 0x2C !in a && 0x2C !in b && a != Ascii("case=force") && b != Ascii("case=force")
    requires ServerOption(a) && ServerOption(b)
    ensures GoesTo(a + [0x2C] + b, [0x3B] + a + ([0x3B] + b), [])
  {
    OptionsGo(a, b);
    ServerOptionGoes(a);
    ServerOptionGoes(b);
    OneOptionGoes(a);
  }

  /** `uid=1,gid=2` gives `;uid=1;gid=2` for the server and nothing else. */
  lemma UidAndGidGo()
    ensures GoesTo(Ascii("uid=1,gid=2"), Ascii(";uid=1;gid=2"), [])
  {
    var uid, gid := Ascii("uid=1"), Ascii("gid=2");
    UidAndGidNames(uid, gid);
    ServerOptionsGo(uid, gid);
  }

  lemma UidAndGidNames(uid: seq<Byte>, gid: seq<Byte>)
    requires uid == Ascii("uid=1") && gid == Ascii("gid=2")
    ensures Ascii("uid=") <= uid && Ascii("gid=") <= gid && 0x2C !in uid && 0x2C !in gid
    ensures |uid| == |gid| == 5 && |Ascii("case=force")| == 10
    ensures Ascii("uid=1,gid=2") == uid + [0x2C] + gid && Ascii(";uid=1;gid=2") == [0x3B] + uid + ([0x3B] + gid)
  {
  }

  /** A path= value names a Windows source exactly when it starts with a letter and a colon, or with UNC and
      a backslash. */
  lemma PathValueIff(v: seq<Byte>)
    requires 0x2C !in v && 0x3B !in v
    ensures Plan9Source(Ascii("aname=drvfs;path=") + (v + [0x3B])).Some? <==>
            || (|v| > 1 && (65 <= v[0] <= 90 || 97 <= v[0] <= 122) && v[1] == 0x3A)
            || Ascii("UNC\\") <= v
  {
    AnamePathText();
    assert Plan9Source(Ascii("aname=drvfs;path=") + (v + [0x3B])) == SourceOfValue(v) by {
      ParseAname(v, [0x3B]);
      FrontIsAllIff(v);
    }
  }

  lemma AnamePathText()
    ensures Ascii("aname=drvfs;path=") == ANAME_DRVFS + ([SEMICOLON] + PATH_OPTION)
    ensures UNC_TRANSLATED_PREFIX == Ascii("UNC\\")
  {
  }

  // ----- the assembled string -----

  /** Without options, for a drive or any source that is not a UNC path. */
  lemma MountOptionsText(source: seq<Byte>, drvFsPrefix: seq<Byte>)
    requires !IsUnc(source)
    ensures MountOptions(source, [], drvFsPrefix) ==
              Ascii("cache=mmap,aname=drvfs;path=") + source + Ascii(";symlinkroot=") + drvFsPrefix
  {
    AnameText();
    MountOptionsPieces(source, source, drvFsPrefix);
  }

  /** The fixed texts. */
  lemma AnameText()
    ensures Ascii("cache=mmap,aname=drvfs;path=") ==
              CACHE_MMAP + [COMMA] + (ANAME_DRVFS + ([SEMICOLON] + PATH_OPTION))
    ensures Ascii(";symlinkroot=") == [SEMICOLON] + SYMLINK_ROOT
    ensures UNC_TRANSLATED_PREFIX == Ascii("UNC\\")
  {
  }

  lemma MountOptionsPieces(source: seq<Byte>, name: seq<Byte>, drvFsPrefix: seq<Byte>)
    requires Plan9Name(source) == name
    ensures MountOptions(source, [], drvFsPrefix) ==
              CACHE_MMAP + [COMMA] + (ANAME_DRVFS + ([SEMICOLON] + PATH_OPTION))
              + name + ([SEMICOLON] + SYMLINK_ROOT) + drvFsPrefix
  {
    assert StandardText([]) == [] && Plan9Text([]) == [];
  }

  /** For a UNC path, whichever separators it is written with. */
  lemma MountOptionsOfShare(share: seq<Byte>, a: Byte, b: Byte, drvFsPrefix: seq<Byte>)
    requires (a == 0x2F || a == 0x5C) && (b == 0x2F || b == 0x5C)
    ensures MountOptions([a, b] + share, [], drvFsPrefix) ==
              Ascii("cache=mmap,aname=drvfs;path=") + (Ascii("UNC\\") + share) + Ascii(";symlinkroot=") + drvFsPrefix
  {
    assert ([a, b] + share)[2..] == share;
    AnameText();
    MountOptionsPieces([a, b] + share, UNC_TRANSLATED_PREFIX + share, drvFsPrefix);
  }
}
