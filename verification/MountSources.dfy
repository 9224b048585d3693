/** Which Windows name a mount has, by its kind, and when a mount point or a name covers a path. */
module MountSources {
  import opened Common
  import opened PathEscape
  import opened PathRoundTrip
  import opened PathLegal
  import opened WslShare
  import opened DrvfsOptions
  import opened MountLookup

  // ----- prefixes -----

  /** A Linux path lies on a prefix exactly when it is the prefix, or the prefix and a slash and something. */
  lemma LinuxPrefixIff(path: seq<Byte>, prefix: seq<Byte>)
    requires prefix != []
    ensures PathPrefix(path, prefix, false) == (if path == prefix || prefix + [0x2F] <= path then |prefix| else 0)
  {
    if StartsWith(path, prefix, false) {
      assert path[..|prefix|] == prefix;
      if |path| > |prefix| {
        assert path[..|prefix| + 1] == prefix + [path[|prefix|]];
      } else {
        assert path == path[..|prefix|];
      }
    }
  }

  /** A Windows path lies on a name exactly when it is the name, up to case, and then ends or goes on with a
      backslash. */
  lemma WindowsPrefixIff(path: seq<Byte>, prefix: seq<Byte>)
    requires prefix != []
    ensures PathPrefix(path, prefix, true) ==
              if |path| >= |prefix| && SameLetters(path[..|prefix|], prefix)
                 && (|path| == |prefix| || path[|prefix|] == 0x5C)
              then |prefix| else 0
  {
    if |path| >= |prefix| {
      forall i | 0 <= i < |prefix|
        ensures Lower(path[i]) == Lower(prefix[i]) <==> SameLetter(path[..|prefix|][i], prefix[i])
      {
        LowerIsSameLetter(path[i], prefix[i]);
      }
    }
  }

  // ----- drives -----

  lemma DriveCanonical(d: Byte)
    requires IsAlpha(d)
    ensures Canonical([], [d, 0x3A, 0x5C], BACKSLASH) == [d, 0x3A, 0x5C]
  {
    CanonicalIsIdle([d, 0x3A, 0x5C], BACKSLASH);
  }

  lemma DriveOptions(d: Byte, options: seq<Byte>, drvFsPrefix: seq<Byte>)
    requires IsAlpha(d) && NamesNoShare(options)
    ensures Plan9Source(MountOptions([d, 0x3A, 0x5C], options, drvFsPrefix)) == Some([d, 0x3A, 0x5C])
  {
    SourceRoundTripIff([d, 0x3A, 0x5C], options, drvFsPrefix);
    DriveCanonical(d);
  }

  /** A 9p mount of a drive, as MountDrvfs makes it, has the name of the drive without a backslash. */
  lemma DriveMountSource(e: MountEntry, d: Byte, options: seq<Byte>, drvFsPrefix: seq<Byte>)
    requires IsAlpha(d) && NamesNoShare(options)
    requires e.fileSystemType == Ascii("9p") && e.root == [0x2F]
    requires e.superOptions == MountOptions([d, 0x3A, 0x5C], options, drvFsPrefix)
    ensures WindowsSource(e) == Some([d, 0x3A])
  {
    DriveOptions(d, options, drvFsPrefix);
    assert [d, 0x3A, 0x5C][..2] == [d, 0x3A];
  }

  /** A bind mount of a directory of that drive has the name of the directory. */
  lemma BindMountSource(e: MountEntry, d: Byte, directory: seq<Byte>, options: seq<Byte>, drvFsPrefix: seq<Byte>)
    requires IsAlpha(d) && NamesNoShare(options) && directory != []
    requires forall i :: 0 <= i < |directory| ==> !Separates(directory[i])
    requires e.fileSystemType == Ascii("9p") && e.root == [0x2F] + directory
    requires e.superOptions == MountOptions([d, 0x3A, 0x5C], options, drvFsPrefix)
    ensures WindowsSource(e) == Some([d, 0x3A, 0x5C] + directory)
  {
    DriveOptions(d, options, drvFsPrefix);
    assert [d, 0x3A, 0x5C][..2] == [d, 0x3A];
    assert e.root != [SLASH];
    DirectoryCanonical(d, directory, [d, 0x3A, 0x5C] + directory);
  }

  lemma DirectoryName(d: Byte, directory: seq<Byte>, name: seq<Byte>)
    requires IsAlpha(d) && forall i :: 0 <= i < |directory| ==> !Separates(directory[i])
    requires name == [d, 0x3A, 0x5C] + directory
    ensures Uniform(name, 0x5C)
  {
    assert forall i :: 3 <= i < |name| ==> name[i] == directory[i - 3];
  }

  lemma DirectoryTurned(d: Byte, directory: seq<Byte>, name: seq<Byte>)
    requires IsAlpha(d) && forall i :: 0 <= i < |directory| ==> !Separates(directory[i])
    requires name == [d, 0x3A, 0x5C] + directory
    ensures Turned(name) == [d, 0x3A] + ([0x2F] + directory)
  {
    var t, u := Turned(name), [d, 0x3A] + ([0x2F] + directory);
    assert |t| == |u| && t[0] == u[0] && t[1] == u[1] && t[2] == u[2];
    forall i | 3 <= i < |t|
      ensures t[i] == u[i]
    {
      assert name[i] == directory[i - 3] && u[i] == directory[i - 3];
    }
  }

  lemma DirectoryCanonical(d: Byte, directory: seq<Byte>, name: seq<Byte>)
    requires IsAlpha(d) && forall i :: 0 <= i < |directory| ==> !Separates(directory[i])
    requires name == [d, 0x3A, 0x5C] + directory
    ensures Canonical([], [d, 0x3A] + ([0x2F] + directory), 0x5C) == name
  {
    DirectoryName(d, directory, name);
    DirectoryTurned(d, directory, name);
    TurnedCanonical(name);
  }

  // ----- the other kinds -----

  /** A virtiofs mount is named by the byte behind its tag: `drvfsC`, or `drvfsaC` for an elevated one. */
  lemma VirtiofsMountSource(e: MountEntry, d: Byte)
    requires e.fileSystemType == Ascii("virtiofs") && e.root == [0x2F]
    requires e.source == Ascii("drvfs") + [d] || e.source == Ascii("drvfsa") + [d]
    ensures WindowsSource(e) == Some([d, 0x3A])
  {
    assert Ascii("drvfsa") == Ascii("drvfs") + [97];
    VirtiofsTags(e.source, d);
  }

  lemma VirtiofsTags(source: seq<Byte>, d: Byte)
    requires source == Ascii("drvfs") + [d] || source == Ascii("drvfs") + [97] + [d]
    ensures VirtiofsSource(source) == Some([d, 0x3A])
  {
    assert Ascii("drvfsa") == Ascii("drvfs") + [97];
    var plain, admin := Ascii("drvfs"), Ascii("drvfsa");
    assert |plain| == 5 && |admin| == 6;
    assert plain == source[..5] && source[5] == (if |source| == 6 then d else 97);
    if |source| == 7 {
      assert admin == source[..6];
    }
  }

  /** A drvfs mount has its source's name, with the slashes turned and one at the end dropped. */
  lemma DrvfsMountSource(e: MountEntry, name: seq<Byte>)
    requires e.fileSystemType == Ascii("drvfs") && e.root == [0x2F]
    requires Uniform(name, 0x5C) && name != [] && name[|name| - 1] != 0x5C
    requires e.source == Turned(name) || e.source == Turned(name) + [0x2F] || e.source == name + [0x5C]
    ensures WindowsSource(e) == Some(name)
  {
    FileSystemsDiffer();
    if e.source == Turned(name) {
      TurnedCanonical(name);
    } else {
      var whole := name + [0x5C];
      if e.source == Turned(name) + [0x2F] {
        assert e.source == Turned(whole);
        TurnedCanonical(whole);
      } else {
        CanonicalIsIdle(whole, 0x5C);
      }
      assert whole[..|name|] == name;
    }
  }

  /** The same name with forward slashes. */
  function Turned(s: seq<Byte>): seq<Byte> {
    seq(|s|, i requires 0 <= i < |s| => if s[i] == 0x5C then 0x2F else s[i])
  }

  lemma TurnedCanonical(name: seq<Byte>)
    requires Uniform(name, 0x5C)
    ensures Canonical([], Turned(name), 0x5C) == name
  {
    TurnedFrom(name, 0);
    assert Turned(name)[0..] == Turned(name) && name[..0] == [];
  }

  lemma {:induction false} TurnedFrom(name: seq<Byte>, i: nat)
    requires Uniform(name, 0x5C) && i <= |name|
    ensures Canonical(name[..i], Turned(name)[i..], 0x5C) == name
    decreases |name| - i
  {
    if i < |name| {
      CanonicalStep(name[..i], Turned(name), i, 0x5C);
      assert name[..i] + [name[i]] == name[..i + 1];
      TurnedFrom(name, i + 1);
    } else {
      assert name[..i] == name;
    }
  }

  lemma FileSystemsDiffer()
    ensures Ascii("drvfs") != Ascii("9p") && Ascii("drvfs") != Ascii("virtiofs") && Ascii("9p") != Ascii("virtiofs")
  {
    assert |Ascii("drvfs")| == 5 && |Ascii("9p")| == 2 && |Ascii("virtiofs")| == 8;
  }

  /** No other file system has a Windows name. */
  lemma OtherMountSource(e: MountEntry)
    requires e.fileSystemType != Ascii("9p") && e.fileSystemType != Ascii("virtiofs")
    requires e.fileSystemType != Ascii("drvfs")
    ensures WindowsSource(e) == None
  {
  }
}
