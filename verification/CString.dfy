/** NUL-terminated strings in byte arrays, and the libc routines the path code calls on them. */
module CString {
  import opened Common

  const NUL: Byte := 0

  /** The array holds the string `s` at offset `from`, terminated. */
  ghost predicate HoldsAt(a: seq<Byte>, from: nat, s: seq<Byte>) {
    && from + |s| < |a|
    && a[from..from + |s|] == s
    && a[from + |s|] == NUL
    && NUL !in s
  }

  ghost predicate Terminated(a: seq<Byte>, from: nat) {
    exists k :: from <= k < |a| && a[k] == NUL
  }

  /** Index of the last occurrence of `c`, or -1. */
  function LastIndex(s: seq<Byte>, c: Byte): (i: int)
    ensures -1 <= i < |s|
    ensures i >= 0 ==> s[i] == c
  {
    if s == [] then -1
    else if s[|s| - 1] == c then |s| - 1
    else LastIndex(s[..|s| - 1], c)
  }

  /** It is the last one: no other index has it on the spot and not to its right. */
  lemma {:induction false} LastIndexIs(s: seq<Byte>, c: Byte, i: int)
    ensures LastIndex(s, c) == i <==>
            -1 <= i < |s| && (i >= 0 ==> s[i] == c) && forall k :: i < k < |s| ==> s[k] != c
  {
    if s != [] && s[|s| - 1] != c {
      LastIndexIs(s[..|s| - 1], c, i);
    }
  }

  method Strlen(a: array<Byte>, from: nat) returns (n: nat)
    requires Terminated(a[..], from)
    ensures from + n < a.Length
    ensures HoldsAt(a[..], from, a[from..from + n])
  {
    n := 0;
    ghost var k :| from <= k < a.Length && a[..][k] == NUL;
    while a[from + n] != NUL
      invariant from + n <= k
      invariant forall i :: from <= i < from + n ==> a[i] != NUL
      decreases k - n
    {
      n := n + 1;
    }
  }

  method Memrchr(a: array<Byte>, c: Byte, n: nat) returns (i: int)
    requires n <= a.Length
    ensures i == LastIndex(a[..n], c)
  {
    i := n - 1;
    while i >= 0 && a[i] != c
      invariant -1 <= i < n
      invariant LastIndex(a[..n], c) == LastIndex(a[..i + 1], c)
    {
      assert a[..i + 1][..i] == a[..i];
      i := i - 1;
    }
  }

  /** A buffer after memmove. */
  ghost function Moved(a: seq<Byte>, dest: nat, src: nat, count: nat): (r: seq<Byte>)
    requires dest + count <= |a| && src + count <= |a|
    ensures |r| == |a|
  {
    a[..dest] + a[src..src + count] + a[dest + count..]
  }

  lemma MovedReads(a: seq<Byte>, dest: nat, src: nat, count: nat, k: nat)
    requires dest <= src && src + count <= |a| && k < count
    ensures var r := Moved(a, dest, src, count);
            && r[..dest] == a[..dest]
            && r[dest..dest + k] == a[src..src + k]
            && r[dest + k] == a[src + k]
            && r[src + count..] == a[src + count..]
  {
    var r := Moved(a, dest, src, count);
    var m := a[src..src + count];
    assert r[dest..dest + count] == m;
    assert r[dest..dest + k] == r[dest..dest + count][..k] && a[src..src + k] == m[..k];
    assert r[dest + k] == r[dest..dest + count][k];
  }

  /** A string moved down arrives whole, and nothing outside the destination changes. */
  lemma MovedHolds(a: seq<Byte>, dest: nat, src: nat, count: nat, s: seq<Byte>)
    requires dest <= src && src + count <= |a| && |s| < count && HoldsAt(a, src, s)
    ensures var r := Moved(a, dest, src, count);
            HoldsAt(r, dest, s) && r[..dest] == a[..dest] && r[src + count..] == a[src + count..]
  {
    MovedReads(a, dest, src, count, |s|);
  }

  method Memmove(a: array<Byte>, dest: nat, src: nat, count: nat)
    requires dest + count <= a.Length && src + count <= a.Length
    modifies a
    ensures a[..] == Moved(old(a[..]), dest, src, count)
  {
    forall i | 0 <= i < count {
      a[dest + i] := a[src + i];
    }
  }
}
