/** UtilFindMount: which mount a path lies on, in both directions. */
module MountLookup {
  import opened Common
  import opened PathEscape
  import opened WslShare
  import opened DrvfsOptions

  /** The parsed fields of a mountinfo line that the search reads. */
  datatype MountEntry = MountEntry(
    root: seq<Byte>, mountPoint: seq<Byte>, fileSystemType: seq<Byte>, source: seq<Byte>, superOptions: seq<Byte>)

  const PLAN9_FS_TYPE := Ascii("9p")
  const VIRTIO_FS_TYPE := Ascii("virtiofs")
  const DRVFS_FS_TYPE := Ascii("drvfs")
  const VIRTIO_TAG := Ascii("drvfs")
  const ADMIN_VIRTIO_TAG := Ascii("drvfsa")

  /** UtilIsPathPrefix: the length of the prefix, or 0 if there is no match at a separator. */
  function PathPrefix(path: seq<Byte>, prefix: seq<Byte>, winPath: bool): nat {
    var sep := if winPath then BACKSLASH else SLASH;
    if |path| < |prefix| || (|path| > |prefix| && path[|prefix|] != sep) then 0
    else if !StartsWith(path, prefix, winPath) then 0
    else |prefix|
  }

  /** UtilParseVirtiofsMountSource. */
  function VirtiofsSource(source: seq<Byte>): Option<seq<Byte>> {
    if Begins(source, ADMIN_VIRTIO_TAG) && |source| > |ADMIN_VIRTIO_TAG| then
      Some([source[|ADMIN_VIRTIO_TAG|], COLON])
    else if Begins(source, VIRTIO_TAG) && |source| > |VIRTIO_TAG| then Some([source[|VIRTIO_TAG|], COLON])
    else None
  }

  function WithoutTrailingSeparator(s: seq<Byte>): seq<Byte> {
    if s != [] && s[|s| - 1] == BACKSLASH then s[..|s| - 1] else s
  }

  /** The Windows name of a mount (lines 892-948); None when it is not a translatable mount. */
  function WindowsSource(e: MountEntry): Option<seq<Byte>> {
    var name :=
      if e.fileSystemType == PLAN9_FS_TYPE then Plan9Source(e.superOptions)
      else if e.fileSystemType == VIRTIO_FS_TYPE then VirtiofsSource(e.source)
      else if e.fileSystemType == DRVFS_FS_TYPE then Some(Canonical([], e.source, BACKSLASH))
      else None;
    if name == None then None
    else
      var stripped := WithoutTrailingSeparator(name.value);
      Some(if e.root != [SLASH] then Canonical([], stripped + e.root, BACKSLASH) else stripped)
  }

  // ----- Linux to Windows -----

  predicate Covers(e: MountEntry, path: seq<Byte>) {
    PathPrefix(path, e.mountPoint, false) > 0
  }

  /** Among the first `n` entries, `i` is the last whose mount point prefixes the path. */
  ghost predicate LastCovering(mounts: seq<MountEntry>, n: nat, path: seq<Byte>, i: int) {
    && 0 <= i < n <= |mounts| && Covers(mounts[i], path)
    && forall k :: i < k < n ==> !Covers(mounts[k], path)
  }

  /** The search succeeds exactly when that entry is translatable, and then returns its name and length. */
  ghost predicate LinuxFound(mounts: seq<MountEntry>, n: nat, path: seq<Byte>, replacement: seq<Byte>, length: nat) {
    && (replacement != [] ==>
          exists i :: LastCovering(mounts, n, path, i)
                      && WindowsSource(mounts[i]) == Some(replacement) && length == |mounts[i].mountPoint|)
    && (replacement == [] ==>
          forall i :: LastCovering(mounts, n, path, i) ==>
                        WindowsSource(mounts[i]) == None || WindowsSource(mounts[i]) == Some([]))
  }

  // ----- Windows to Linux -----

  /** How much of a Windows path an entry's name matches. */
  function MatchLength(e: MountEntry, path: seq<Byte>): nat {
    var w := WindowsSource(e);
    if w == None then 0 else PathPrefix(path, w.value, true)
  }

  ghost function MatchLengths(mounts: seq<MountEntry>, path: seq<Byte>): seq<nat> {
    seq(|mounts|, i requires 0 <= i < |mounts| => MatchLength(mounts[i], path))
  }

  /** Among the first `n` lengths, `j` is the last of the longest, and not zero. */
  ghost predicate LastLongest(lengths: seq<nat>, n: nat, j: int) {
    && 0 <= j < n <= |lengths| && lengths[j] > 0
    && (forall k :: 0 <= k < n ==> lengths[k] <= lengths[j])
    && (forall k :: j < k < n ==> lengths[k] < lengths[j])
  }

  /** Among the first `n` entries, `j` is the last of those with the longest match. */
  ghost predicate BestMatch(mounts: seq<MountEntry>, n: nat, path: seq<Byte>, j: int) {
    LastLongest(MatchLengths(mounts, path), n, j)
  }

  /** A later entry is mounted over or above entry `j`. */
  ghost predicate Shadowed(mounts: seq<MountEntry>, n: nat, j: int)
    requires 0 <= j < |mounts|
  {
    exists k :: j < k < n <= |mounts| && Covers(mounts[k], mounts[j].mountPoint)
  }

  /** `length` is the longest of the first `n` lengths. */
  ghost predicate Longest(lengths: seq<nat>, n: nat, length: nat) {
    && n <= |lengths|
    && (forall k :: 0 <= k < n ==> lengths[k] <= length)
    && (length > 0 ==> exists j :: LastLongest(lengths, n, j) && lengths[j] == length)
  }

  /** The search succeeds exactly when the best match has a mount point that no later entry shadows;
      the length it returns is that entry's. */
  ghost predicate WindowsFound(mounts: seq<MountEntry>, n: nat, path: seq<Byte>, replacement: seq<Byte>, length: nat) {
    && Longest(MatchLengths(mounts, path), n, length)
    && (replacement != [] ==>
          exists j :: BestMatch(mounts, n, path, j) && MatchLengths(mounts, path)[j] == length
                      && replacement == mounts[j].mountPoint && !Shadowed(mounts, n, j))
    && (replacement == [] ==>
          forall j :: BestMatch(mounts, n, path, j) ==> mounts[j].mountPoint == [] || Shadowed(mounts, n, j))
  }

  // ----- the search -----

  lemma LinuxNext(mounts: seq<MountEntry>, n: nat, path: seq<Byte>, found: seq<Byte>, length: nat)
    requires n < |mounts| && LinuxFound(mounts, n, path, found, length)
    ensures var e := mounts[n];
            LinuxFound(mounts, n + 1, path,
              if !Covers(e, path) then found
              else if WindowsSource(e) == None then [] else WindowsSource(e).value,
              if Covers(e, path) && WindowsSource(e).Some? then |e.mountPoint| else length)
  {
    if Covers(mounts[n], path) {
      assert LastCovering(mounts, n + 1, path, n);
    } else {
      assert forall i :: LastCovering(mounts, n + 1, path, i) <==> LastCovering(mounts, n, path, i);
    }
  }

  lemma LongestNext(lengths: seq<nat>, n: nat, length: nat, n': nat)
    requires Longest(lengths, n, length) && n < |lengths| && n' == n + 1
    ensures var m := lengths[n];
            if m > 0 && m >= length then Longest(lengths, n', m) && LastLongest(lengths, n', n)
            else Longest(lengths, n', length)
                 && forall j :: LastLongest(lengths, n', j) <==> LastLongest(lengths, n, j)
  {
    var m := lengths[n];
    if m > 0 && m >= length {
      assert LastLongest(lengths, n', n);
    } else {
      forall j
        ensures LastLongest(lengths, n', j) <==> LastLongest(lengths, n, j)
      {
        if LastLongest(lengths, n, j) {
          assert lengths[j] <= length;
          var b :| LastLongest(lengths, n, b) && lengths[b] == length;
          LastLongestUnique(lengths, n, b, j);
        }
      }
      if length > 0 {
        var b :| LastLongest(lengths, n, b) && lengths[b] == length;
        assert LastLongest(lengths, n', b);
      }
    }
  }

  lemma LastLongestUnique(lengths: seq<nat>, n: nat, i: int, j: int)
    requires LastLongest(lengths, n, i) && LastLongest(lengths, n, j)
    ensures i == j
  {
  }

  lemma ShadowedNext(mounts: seq<MountEntry>, n: nat, j: int)
    requires 0 <= j < n < |mounts|
    ensures Shadowed(mounts, n + 1, j) <==> Shadowed(mounts, n, j) || Covers(mounts[n], mounts[j].mountPoint)
  {
    if Shadowed(mounts, n, j) {
      var k :| j < k < n <= |mounts| && Covers(mounts[k], mounts[j].mountPoint);
      assert j < k < n + 1 && Covers(mounts[k], mounts[j].mountPoint);
    }
  }

  lemma WindowsTaken(mounts: seq<MountEntry>, n: nat, path: seq<Byte>, found: seq<Byte>, length: nat)
    requires n < |mounts| && WindowsFound(mounts, n, path, found, length)
    requires var m := MatchLength(mounts[n], path); m > 0 && m >= length
    ensures WindowsFound(mounts, n + 1, path, mounts[n].mountPoint, MatchLength(mounts[n], path))
  {
    var lengths, n' := MatchLengths(mounts, path), n + 1;
    LongestNext(lengths, n, length, n');
    assert BestMatch(mounts, n', path, n) && !Shadowed(mounts, n', n);
    if mounts[n].mountPoint == [] {
      forall j | BestMatch(mounts, n', path, j)
        ensures mounts[j].mountPoint == []
      {
        LastLongestUnique(lengths, n', n, j);
      }
    }
  }

  lemma WindowsPassed(mounts: seq<MountEntry>, n: nat, path: seq<Byte>, found: seq<Byte>, length: nat)
    requires n < |mounts| && WindowsFound(mounts, n, path, found, length)
    requires var m := MatchLength(mounts[n], path); m == 0 || m < length
    ensures WindowsFound(mounts, n + 1, path, if found != [] && Covers(mounts[n], found) then [] else found, length)
  {
    var lengths, e, n' := MatchLengths(mounts, path), mounts[n], n + 1;
    LongestNext(lengths, n, length, n');
    forall j | BestMatch(mounts, n, path, j)
      ensures Shadowed(mounts, n', j) <==> Shadowed(mounts, n, j) || Covers(e, mounts[j].mountPoint)
    {
      ShadowedNext(mounts, n, j);
    }
    if found != [] {
      var b :| BestMatch(mounts, n, path, b) && lengths[b] == length && found == mounts[b].mountPoint
               && !Shadowed(mounts, n, b);
      assert BestMatch(mounts, n', path, b);
      if Covers(e, found) {
        forall j | BestMatch(mounts, n', path, j)
          ensures Shadowed(mounts, n', j)
        {
          LastLongestUnique(lengths, n', b, j);
        }
      }
    }
  }

  lemma WindowsNext(mounts: seq<MountEntry>, n: nat, path: seq<Byte>, found: seq<Byte>, length: nat)
    requires n < |mounts| && WindowsFound(mounts, n, path, found, length)
    ensures var e, m := mounts[n], MatchLength(mounts[n], path);
            if m > 0 && m >= length then WindowsFound(mounts, n + 1, path, e.mountPoint, m)
            else WindowsFound(mounts, n + 1, path, if found != [] && Covers(e, found) then [] else found, length)
  {
    var m := MatchLength(mounts[n], path);
    if m > 0 && m >= length {
      WindowsTaken(mounts, n, path, found, length);
    } else {
      WindowsPassed(mounts, n, path, found, length);
    }
  }

  /** What one entry does to the result found so far. */
  ghost predicate Considered(e: MountEntry, path: seq<Byte>, winPath: bool, found: seq<Byte>, foundLength: nat,
                             replacement: seq<Byte>, length: nat) {
    if winPath then
      var m := MatchLength(e, path);
      if m > 0 && m >= foundLength then replacement == e.mountPoint && length == m
      else replacement == (if found != [] && Covers(e, found) then [] else found) && length == foundLength
    else
      && replacement == (if !Covers(e, path) then found
                         else if WindowsSource(e) == None then [] else WindowsSource(e).value)
      && length == if Covers(e, path) && WindowsSource(e).Some? then |e.mountPoint| else foundLength
  }

  /** The body of the loop (lines 876-976): discard a shadowed result, then take a matching mount. */
  method ConsiderMount(e: MountEntry, path: seq<Byte>, winPath: bool, found: seq<Byte>, foundLength: nat)
    returns (replacement: seq<Byte>, prefixLength: nat)
    ensures Considered(e, path, winPath, found, foundLength, replacement, prefixLength)
  {
    replacement, prefixLength := found, foundLength;
    if replacement != [] {
      var linuxPath := if winPath then replacement else path;
      if PathPrefix(linuxPath, e.mountPoint, false) > 0 {
        replacement := [];
      }
    }
    var source := WindowsSource(e);
    if source == None {
      return;
    }
    var length := PathPrefix(path, if winPath then source.value else e.mountPoint, winPath);
    if length == 0 || (winPath && length < prefixLength) {
      return;
    }
    prefixLength := length;
    replacement := if winPath then e.mountPoint else source.value;
  }

  /** The result of the search over the first `n` entries, in either direction. */
  ghost predicate Found(mounts: seq<MountEntry>, n: nat, path: seq<Byte>, winPath: bool,
                        replacement: seq<Byte>, length: nat) {
    if winPath then WindowsFound(mounts, n, path, replacement, length)
    else LinuxFound(mounts, n, path, replacement, length)
  }

  lemma FoundNext(mounts: seq<MountEntry>, n: nat, path: seq<Byte>, winPath: bool, found: seq<Byte>, foundLength: nat,
                  replacement: seq<Byte>, length: nat)
    requires n < |mounts| && Found(mounts, n, path, winPath, found, foundLength)
    requires Considered(mounts[n], path, winPath, found, foundLength, replacement, length)
    ensures Found(mounts, n + 1, path, winPath, replacement, length)
  {
    if winPath {
      WindowsNext(mounts, n, path, found, foundLength);
    } else {
      LinuxNext(mounts, n, path, found, foundLength);
    }
  }

  /** That description leaves no choice: at most one result fits, and its length is settled when it is one. */
  lemma FoundUnique(mounts: seq<MountEntry>, path: seq<Byte>, winPath: bool,
                    a: seq<Byte>, aLength: nat, b: seq<Byte>, bLength: nat)
    requires Found(mounts, |mounts|, path, winPath, a, aLength) && Found(mounts, |mounts|, path, winPath, b, bLength)
    ensures a == b && (a != [] ==> aLength == bLength)
  {
    var n := |mounts|;
    if winPath {
      forall i, j | BestMatch(mounts, n, path, i) && BestMatch(mounts, n, path, j)
        ensures i == j
      {
        LastLongestUnique(MatchLengths(mounts, path), n, i, j);
      }
    } else {
      forall i, j | LastCovering(mounts, n, path, i) && LastCovering(mounts, n, path, j)
        ensures i == j
      {
      }
    }
  }

  /** UtilFindMount on any mount list. */
  method FindMount(mounts: seq<MountEntry>, path: seq<Byte>, winPath: bool)
    returns (replacement: seq<Byte>, prefixLength: nat)
    ensures Found(mounts, |mounts|, path, winPath, replacement, prefixLength)
  {
    replacement, prefixLength := [], 0;
    for n := 0 to |mounts|
      invariant Found(mounts, n, path, winPath, replacement, prefixLength)
    {
      ghost var found, length := replacement, prefixLength;
      replacement, prefixLength := ConsiderMount(mounts[n], path, winPath, replacement, prefixLength);
      FoundNext(mounts, n, path, winPath, found, length, replacement, prefixLength);
    }
  }
}
