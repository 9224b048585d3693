/**
 What CollapsePath means: its right-to-left counter scan against the forward stack
 of linux_real_path, segment by segment.
 */
module CollapseMeaning {
  import opened Common
  import opened CString
  import opened CollapsePath

  // ----- splitting at separators -----

  function Split(s: seq<Byte>, sep: Byte): (r: seq<Segment>)
    ensures |r| >= 1
    decreases |s|
  {
    var i := LastIndex(s, sep);
    if i < 0 then [s] else Split(s[..i], sep) + [s[i + 1..]]
  }

  function Join(segs: seq<Segment>, sep: Byte): seq<Byte> {
    if segs == [] then []
    else if |segs| == 1 then segs[0]
    else Join(segs[..|segs| - 1], sep) + [sep] + segs[|segs| - 1]
  }

  /** Split cuts at every separator and loses nothing. */
  lemma {:induction false} SplitCutsEverywhere(s: seq<Byte>, sep: Byte)
    ensures Join(Split(s, sep), sep) == s
    ensures forall k :: 0 <= k < |Split(s, sep)| ==> sep !in Split(s, sep)[k]
    decreases |s|
  {
    var i := LastIndex(s, sep);
    LastIndexIs(s, sep, i);
    if i >= 0 {
      SplitCutsEverywhere(s[..i], sep);
      var init := Split(s[..i], sep);
      assert Split(s, sep)[..|init|] == init;
      assert s == s[..i] + [sep] + s[i + 1..];
      assert sep !in s[i + 1..];
    } else {
      assert sep !in s;
    }
  }

  lemma LastInConcat(a: seq<Byte>, sep: Byte, b: seq<Byte>)
    ensures LastIndex(a + [sep] + b, sep) == |a| + 1 + LastIndex(b, sep)
  {
    var s, k := a + [sep] + b, LastIndex(b, sep);
    LastIndexIs(b, sep, k);
    assert forall j :: |a| < j < |s| ==> s[j] == b[j - |a| - 1];
    LastIndexIs(s, sep, |a| + 1 + k);
  }

  /** A string cut at its last separator. */
  lemma SplitUnfold(s: seq<Byte>, sep: Byte, left: seq<Byte>, right: seq<Byte>)
    requires LastIndex(s, sep) == |left| && s == left + [sep] + right
    ensures Split(s, sep) == Split(left, sep) + [right]
  {
    assert s[..|left|] == left && s[|left| + 1..] == right;
  }

  lemma SplitConcatLast(a: seq<Byte>, sep: Byte, b: seq<Byte>)
    requires LastIndex(b, sep) < 0
    ensures Split(a + [sep] + b, sep) == Split(a, sep) + Split(b, sep)
  {
    LastInConcat(a, sep, b);
    SplitUnfold(a + [sep] + b, sep, a, b);
  }

  lemma SplitConcatStep(a: seq<Byte>, sep: Byte, b: seq<Byte>, left: seq<Byte>, right: seq<Byte>)
    requires LastIndex(b, sep) == |left| && b == left + [sep] + right
    requires Split(a + [sep] + left, sep) == Split(a, sep) + Split(left, sep)
    ensures Split(a + [sep] + b, sep) == Split(a, sep) + Split(b, sep)
  {
    LastInConcat(a, sep, b);
    Regroup(a, sep, left, right);
    SplitUnfold(a + [sep] + b, sep, a + [sep] + left, right);
    SplitUnfold(b, sep, left, right);
    Associate(Split(a, sep), Split(left, sep), [right]);
  }

  lemma Regroup(a: seq<Byte>, sep: Byte, left: seq<Byte>, right: seq<Byte>)
    ensures a + [sep] + (left + [sep] + right) == (a + [sep] + left) + [sep] + right
  {
  }

  lemma CutAtLast(s: seq<Byte>, sep: Byte) returns (left: seq<Byte>, right: seq<Byte>)
    requires LastIndex(s, sep) >= 0
    ensures LastIndex(s, sep) == |left| && s == left + [sep] + right
  {
    var i := LastIndex(s, sep);
    left, right := s[..i], s[i + 1..];
  }

  lemma {:induction false} SplitConcat(a: seq<Byte>, sep: Byte, b: seq<Byte>)
    ensures Split(a + [sep] + b, sep) == Split(a, sep) + Split(b, sep)
    decreases |b|
  {
    if LastIndex(b, sep) < 0 {
      SplitConcatLast(a, sep, b);
    } else {
      var left, right := CutAtLast(b, sep);
      SplitConcat(a, sep, left);
      SplitConcatStep(a, sep, b, left, right);
    }
  }

  /** The segments after the first separator; what precedes it is never touched. */
  function Segments(s: seq<Byte>, sep: Byte): seq<Segment> {
    Split(s, sep)[1..]
  }

  function Named(segs: seq<Segment>): seq<Segment> {
    if segs == [] then []
    else Named(segs[..|segs| - 1]) + if segs[|segs| - 1] == [] then [] else [segs[|segs| - 1]]
  }

  lemma {:induction false} NamedConcat(a: seq<Segment>, b: seq<Segment>)
    ensures Named(a + b) == Named(a) + Named(b)
  {
    if b == [] {
      assert a + b == a;
    } else {
      NamedConcat(a, b[..|b| - 1]);
      assert (a + b)[..|a + b| - 1] == a + b[..|b| - 1];
    }
  }

  // ----- the scan on segments -----

  /** The segments the scan keeps when `pending` of them are still to be dropped. */
  function Kept(segs: seq<Segment>, pending: nat): Option<seq<Segment>> {
    if segs == [] then (if pending == 0 then Some([]) else None)
    else
      var init, x := segs[..|segs| - 1], segs[|segs| - 1];
      if IsParent(x) then Kept(init, pending + 1)
      else if pending > 0 then Kept(init, pending - 1)
      else if IsFiller(x) then Kept(init, 0)
      else
        var k := Kept(init, 0);
        if k == None then None else Some(k.value + [x])
  }

  /** `r` has the first component of `s`, the segments `k`, and after them those of `tail`. */
  ghost predicate Reads(r: seq<Byte>, s: seq<Byte>, sep: Byte, k: seq<Segment>, tail: seq<Byte>) {
    && Split(r, sep)[0] == Split(s, sep)[0]
    && Named(Segments(r, sep)) == k + Named(Split(tail, sep))
  }

  lemma SegmentsSnoc(s: seq<Byte>, sep: Byte)
    requires LastIndex(s, sep) >= 0
    ensures var i := LastIndex(s, sep);
            && Segments(s, sep) == Segments(s[..i], sep) + [s[i + 1..]]
            && Split(s, sep)[0] == Split(s[..i], sep)[0]
            && sep !in s[i + 1..]
  {
    LastIndexIs(s, sep, LastIndex(s, sep));
  }

  lemma KeptSnoc(init: seq<Segment>, x: Segment, pending: nat)
    ensures Kept(init + [x], pending) ==
              if IsParent(x) then Kept(init, pending + 1)
              else if pending > 0 then Kept(init, pending - 1)
              else if IsFiller(x) then Kept(init, 0)
              else if Kept(init, 0) == None then None
              else Some(Kept(init, 0).value + [x])
  {
    assert (init + [x])[..|init|] == init;
  }

  lemma BaseReads(s: seq<Byte>, sep: Byte, tail: seq<Byte>, final: bool)
    requires LastIndex(s, sep) < 0 && (final ==> tail == [])
    ensures Reads(if final then s else s + [sep] + tail, s, sep, [], tail)
  {
    if final {
      EmptyTail(sep);
    } else {
      SplitConcat(s, sep, tail);
      assert Split(s + [sep] + tail, sep)[1..] == Split(tail, sep);
    }
  }

  lemma EmptyTail(sep: Byte)
    ensures Named(Split([], sep)) == []
  {
    assert Split([], sep) == [[]] && Named([[]]) == [];
  }

  lemma ReadsKept(r: seq<Byte>, s: seq<Byte>, u: seq<Byte>, sep: Byte, k: seq<Segment>, x: Segment,
                  tail: seq<Byte>, tail': seq<Byte>)
    requires Split(s, sep)[0] == Split(u, sep)[0] && Reads(r, u, sep, k, tail')
    requires Named(Split(tail', sep)) == [x] + Named(Split(tail, sep))
    ensures Reads(r, s, sep, k + [x], tail)
  {
    Associate(k, [x], Named(Split(tail, sep)));
  }

  /** The scan of the string and the scan of its segments give the same result. */
  ghost predicate SameResult(s: seq<Byte>, sep: Byte, tail: seq<Byte>, r: Option<seq<Byte>>, k: Option<seq<Segment>>) {
    (r.Some? <==> k.Some?) && (r.Some? ==> Reads(r.value, s, sep, k.value, tail))
  }

  lemma SameResultDropped(s: seq<Byte>, sep: Byte, tail: seq<Byte>, r: Option<seq<Byte>>, k: Option<seq<Segment>>)
    requires LastIndex(s, sep) >= 0 && SameResult(s[..LastIndex(s, sep)], sep, tail, r, k)
    ensures SameResult(s, sep, tail, r, k)
  {
    SegmentsSnoc(s, sep);
  }

  lemma SameResultKept(s: seq<Byte>, sep: Byte, tail: seq<Byte>, tail': seq<Byte>, x: Segment,
                       r: Option<seq<Byte>>, k: Option<seq<Segment>>)
    requires LastIndex(s, sep) >= 0 && SameResult(s[..LastIndex(s, sep)], sep, tail', r, k)
    requires Named(Split(tail', sep)) == [x] + Named(Split(tail, sep))
    ensures SameResult(s, sep, tail, r, if k == None then None else Some(k.value + [x]))
  {
    SegmentsSnoc(s, sep);
    if r.Some? {
      ReadsKept(r.value, s, s[..LastIndex(s, sep)], sep, k.value, x, tail, tail');
    }
  }

  lemma ScanEnds(s: seq<Byte>, sep: Byte, pending: nat, tail: seq<Byte>, final: bool, r: seq<Byte>)
    requires LastIndex(s, sep) < 0 && r == if final then s else s + [sep] + tail
    ensures Collapsed(s, sep, pending, tail, final) == if pending > 0 then None else Some(r)
    ensures Kept(Segments(s, sep), pending) == if pending > 0 then None else Some([])
  {
    assert Split(s, sep) == [s] && Segments(s, sep) == [];
  }

  /** The scan drops its next segment: it is `..` and raises the count, or it lowers the count, or is a filler. */
  lemma ScanDrops(s: seq<Byte>, sep: Byte, pending: nat, pending': nat, tail: seq<Byte>, final: bool)
    requires var i := LastIndex(s, sep);
             i >= 0 && if IsParent(s[i + 1..]) then pending' == pending + 1
                       else if pending > 0 then pending' == pending - 1
                       else IsFiller(s[i + 1..]) && pending' == 0
    ensures var u := s[..LastIndex(s, sep)];
            && Collapsed(s, sep, pending, tail, final) == Collapsed(u, sep, pending', tail, false)
            && Kept(Segments(s, sep), pending) == Kept(Segments(u, sep), pending')
  {
    var i := LastIndex(s, sep);
    SegmentsSnoc(s, sep);
    KeptSnoc(Segments(s[..i], sep), s[i + 1..], pending);
  }

  lemma ScanKeeps(s: seq<Byte>, sep: Byte, tail: seq<Byte>, tail': seq<Byte>, final: bool)
    requires var i := LastIndex(s, sep);
             && i >= 0 && !IsParent(s[i + 1..]) && !IsFiller(s[i + 1..])
             && tail' == if final then s[i + 1..] else s[i + 1..] + [sep] + tail
    ensures var i := LastIndex(s, sep);
            var k := Kept(Segments(s[..i], sep), 0);
            && Collapsed(s, sep, 0, tail, final) == Collapsed(s[..i], sep, 0, tail', false)
            && Kept(Segments(s, sep), 0) == (if k == None then None else Some(k.value + [s[i + 1..]]))
            && sep !in s[i + 1..]
  {
    var i := LastIndex(s, sep);
    SegmentsSnoc(s, sep);
    KeptSnoc(Segments(s[..i], sep), s[i + 1..], 0);
  }

  /** The collapsed string has the same first component and exactly the kept segments. */
  ghost predicate HasKept(s: seq<Byte>, sep: Byte, pending: nat, tail: seq<Byte>, final: bool) {
    SameResult(s, sep, tail, Collapsed(s, sep, pending, tail, final), Kept(Segments(s, sep), pending))
  }

  lemma BaseHasKept(s: seq<Byte>, sep: Byte, pending: nat, tail: seq<Byte>, final: bool)
    requires LastIndex(s, sep) < 0 && (final ==> tail == [])
    ensures HasKept(s, sep, pending, tail, final)
  {
    var r := if final then s else s + [sep] + tail;
    ScanEnds(s, sep, pending, tail, final, r);
    assert Reads(r, s, sep, [], tail) by { BaseReads(s, sep, tail, final); }
  }

  lemma DropHasKept(s: seq<Byte>, sep: Byte, pending: nat, pending': nat, tail: seq<Byte>, final: bool)
    requires var i := LastIndex(s, sep);
             i >= 0 && if IsParent(s[i + 1..]) then pending' == pending + 1
                       else if pending > 0 then pending' == pending - 1
                       else IsFiller(s[i + 1..]) && pending' == 0
    requires HasKept(s[..LastIndex(s, sep)], sep, pending', tail, false)
    ensures HasKept(s, sep, pending, tail, final)
  {
    var u := s[..LastIndex(s, sep)];
    ScanDrops(s, sep, pending, pending', tail, final);
    SameResultDropped(s, sep, tail, Collapsed(u, sep, pending', tail, false), Kept(Segments(u, sep), pending'));
  }

  lemma LastSegmentClean(s: seq<Byte>, sep: Byte)
    requires LastIndex(s, sep) >= 0
    ensures sep !in s[LastIndex(s, sep) + 1..]
  {
    LastIndexIs(s, sep, LastIndex(s, sep));
  }

  lemma KeptTail(s: seq<Byte>, sep: Byte, tail: seq<Byte>, tail': seq<Byte>, final: bool)
    requires var i := LastIndex(s, sep);
             && i >= 0 && !IsParent(s[i + 1..]) && !IsFiller(s[i + 1..])
             && tail' == if final then s[i + 1..] else s[i + 1..] + [sep] + tail
    requires final ==> tail == []
    ensures Named(Split(tail', sep)) == [s[LastIndex(s, sep) + 1..]] + Named(Split(tail, sep))
  {
    LastSegmentClean(s, sep);
    KeptText(s[LastIndex(s, sep) + 1..], sep, tail, final);
  }

  lemma KeepSame(s: seq<Byte>, sep: Byte, tail: seq<Byte>, tail': seq<Byte>, final: bool,
                 r: Option<seq<Byte>>, k: Option<seq<Segment>>)
    requires var i := LastIndex(s, sep);
             && i >= 0 && !IsParent(s[i + 1..]) && !IsFiller(s[i + 1..])
             && tail' == if final then s[i + 1..] else s[i + 1..] + [sep] + tail
    requires final ==> tail == []
    ensures var i := LastIndex(s, sep);
            SameResult(s[..i], sep, tail', r, k) ==>
              SameResult(s, sep, tail, r, if k == None then None else Some(k.value + [s[i + 1..]]))
  {
    KeptTail(s, sep, tail, tail', final);
    if SameResult(s[..LastIndex(s, sep)], sep, tail', r, k) {
      SameResultKept(s, sep, tail, tail', s[LastIndex(s, sep) + 1..], r, k);
    }
  }

  lemma KeepHasKept(s: seq<Byte>, sep: Byte, tail: seq<Byte>, tail': seq<Byte>, final: bool)
    requires var i := LastIndex(s, sep);
             && i >= 0 && !IsParent(s[i + 1..]) && !IsFiller(s[i + 1..])
             && tail' == if final then s[i + 1..] else s[i + 1..] + [sep] + tail
    requires final ==> tail == []
    ensures HasKept(s[..LastIndex(s, sep)], sep, 0, tail', false) ==> HasKept(s, sep, 0, tail, final)
  {
    var u := s[..LastIndex(s, sep)];
    ScanKeeps(s, sep, tail, tail', final);
    KeepSame(s, sep, tail, tail', final, Collapsed(u, sep, 0, tail', false), Kept(Segments(u, sep), 0));
  }

  lemma {:induction false} CollapsedHasKept(s: seq<Byte>, sep: Byte, pending: nat, tail: seq<Byte>, final: bool)
    requires final ==> tail == []
    ensures HasKept(s, sep, pending, tail, final)
    decreases |s|
  {
    var i := LastIndex(s, sep);
    if i < 0 {
      BaseHasKept(s, sep, pending, tail, final);
    } else {
      var u, x := s[..i], s[i + 1..];
      if IsParent(x) || pending > 0 || IsFiller(x) {
        var pending' := if IsParent(x) then pending + 1 else if pending > 0 then pending - 1 else 0;
        CollapsedHasKept(u, sep, pending', tail, false);
        DropHasKept(s, sep, pending, pending', tail, final);
      } else {
        var tail' := if final then x else x + [sep] + tail;
        CollapsedHasKept(u, sep, 0, tail', false);
        KeepHasKept(s, sep, tail, tail', final);
      }
    }
  }

  lemma KeptText(x: Segment, sep: Byte, tail: seq<Byte>, final: bool)
    requires x != [] && sep !in x && (final ==> tail == [])
    ensures Named(Split(if final then x else x + [sep] + tail, sep)) == [x] + Named(Split(tail, sep))
  {
    LastIndexIs(x, sep, -1);
    assert Split(x, sep) == [x] && Named([x]) == [x];
    if final {
      EmptyTail(sep);
    } else {
      SplitConcat(x, sep, tail);
      NamedConcat([x], Split(tail, sep));
    }
  }

  // ----- the forward stack -----

  /** A stack that refuses to go above the root. */
  function Stacked(segs: seq<Segment>): Option<seq<Segment>> {
    if segs == [] then Some([])
    else
      var st, x := Stacked(segs[..|segs| - 1]), segs[|segs| - 1];
      if st == None then None
      else if IsFiller(x) then st
      else if IsParent(x) then (if st.value == [] then None else Some(st.value[..|st.value| - 1]))
      else Some(st.value + [x])
  }

  /** The stack of linux_real_path, which stays at the root instead. */
  function RealPath(components: seq<Segment>): seq<Segment> {
    if components == [] then []
    else
      var st, x := RealPath(components[..|components| - 1]), components[|components| - 1];
      if IsFiller(x) then st
      else if IsParent(x) then (if st == [] then [] else st[..|st| - 1])
      else st + [x]
  }

  /** linux_real_path: the segments on the stack, joined, behind a separator if the path was absolute. */
  function RealPathText(path: seq<Byte>, sep: Byte): seq<Byte> {
    (if path != [] && path[0] == sep then [sep] else []) + Join(RealPath(Split(path, sep)), sep)
  }

  lemma RealPathTurn(components: seq<Segment>, i: nat)
    requires i < |components|
    ensures var st, e := RealPath(components[..i]), components[i];
            RealPath(components[..i + 1]) ==
              if e == [DOT] || e == [] then st
              else if e == [DOT, DOT] then (if st == [] then [] else st[..|st| - 1])
              else st + [e]
  {
    assert components[..i + 1][..i] == components[..i];
  }

  /** The loop of linux_real_path. */
  method RealPathLoop(components: seq<Segment>) returns (result: seq<Segment>)
    ensures result == RealPath(components)
  {
    result := [];
    for i := 0 to |components|
      invariant result == RealPath(components[..i])
    {
      var e := components[i];
      RealPathTurn(components, i);
      if e == [DOT] || e == [] {
        continue;
      } else if e == [DOT, DOT] {
        if result != [] {
          result := result[..|result| - 1];
        }
        continue;
      }
      result := result + [e];
    }
    assert components[..|components|] == components;
  }

  method LinuxRealPath(path: seq<Byte>, sep: Byte) returns (realPath: seq<Byte>)
    ensures realPath == RealPathText(path, sep)
  {
    var result := RealPathLoop(Split(path, sep));
    realPath := Join(result, sep);
    if path != [] && path[0] == sep {
      realPath := [sep] + realPath;
    }
  }

  lemma {:induction false} RealPathNames(components: seq<Segment>)
    ensures forall k :: 0 <= k < |RealPath(components)| ==>
              RealPath(components)[k] in components && !IsFiller(RealPath(components)[k])
  {
    if components != [] {
      RealPathNames(components[..|components| - 1]);
    }
  }

  lemma SplitOfSegment(x: Segment, sep: Byte)
    requires sep !in x
    ensures Split(x, sep) == [x]
  {
    LastIndexIs(x, sep, -1);
  }

  lemma SplitBehind(t: seq<Byte>, sep: Byte, x: Segment)
    requires sep !in x
    ensures Split(t + [sep] + x, sep) == Split(t, sep) + [x]
  {
    LastIndexIs(x, sep, -1);
    SplitConcatLast(t, sep, x);
    SplitOfSegment(x, sep);
  }

  lemma {:induction false} SplitOfJoin(segs: seq<Segment>, sep: Byte)
    requires segs != [] && forall k :: 0 <= k < |segs| ==> sep !in segs[k]
    ensures Split(Join(segs, sep), sep) == segs
  {
    var init, x := segs[..|segs| - 1], segs[|segs| - 1];
    assert segs == init + [x];
    if |segs| > 1 {
      SplitOfJoin(init, sep);
      SplitBehind(Join(init, sep), sep, x);
    } else {
      SplitOfSegment(x, sep);
    }
  }

  lemma {:induction false} NamedAll(segs: seq<Segment>)
    requires forall k :: 0 <= k < |segs| ==> segs[k] != []
    ensures Named(segs) == segs
  {
    if segs != [] {
      NamedAll(segs[..|segs| - 1]);
    }
  }

  lemma NamedOfJoin(segs: seq<Segment>, sep: Byte)
    requires forall k :: 0 <= k < |segs| ==> sep !in segs[k] && segs[k] != []
    ensures Named(Split(Join(segs, sep), sep)) == segs
  {
    if segs == [] {
      EmptyTail(sep);
    } else {
      SplitOfJoin(segs, sep);
      NamedAll(segs);
    }
  }

  lemma NamedBehindSeparator(text: seq<Byte>, sep: Byte)
    ensures Named(Split([sep] + text, sep)) == Named(Split(text, sep))
  {
    assert [sep] + text == [] + [sep] + text;
    SplitConcat([], sep, text);
    NamedConcat(Split([], sep), Split(text, sep));
    EmptyTail(sep);
  }

  /** For every path: cut again, what linux_real_path returns has exactly the segments on the stack. */
  lemma RealPathReads(path: seq<Byte>, sep: Byte)
    ensures Named(Split(RealPathText(path, sep), sep)) == RealPath(Split(path, sep))
  {
    var k := RealPath(Split(path, sep));
    assert forall i :: 0 <= i < |k| ==> sep !in k[i] && k[i] != [] by {
      RealPathNames(Split(path, sep));
      SplitCutsEverywhere(path, sep);
    }
    NamedOfJoin(k, sep);
    NamedBehindSeparator(Join(k, sep), sep);
    assert [] + Join(k, sep) == Join(k, sep);
  }

  lemma JoinStarts(segs: seq<Segment>, sep: Byte)
    requires forall k :: 0 <= k < |segs| ==> sep !in segs[k] && segs[k] != []
    ensures Join(segs, sep) != [] ==> Join(segs, sep)[0] != sep
    ensures Join(segs, sep) == [] <==> segs == []
  {
    if |segs| > 1 {
      JoinStarts(segs[..|segs| - 1], sep);
    } else if |segs| == 1 {
      assert segs[0][0] in segs[0];
    }
  }

  /** What it returns is absolute exactly when the path was. */
  lemma RealPathAbsoluteIff(path: seq<Byte>, sep: Byte)
    ensures var r := RealPathText(path, sep);
            (r != [] && r[0] == sep) <==> (path != [] && path[0] == sep)
  {
    var k := RealPath(Split(path, sep));
    assert forall i :: 0 <= i < |k| ==> sep !in k[i] && k[i] != [] by {
      RealPathNames(Split(path, sep));
      SplitCutsEverywhere(path, sep);
    }
    JoinStarts(k, sep);
  }

  lemma {:induction false} StackedIsRealPath(segs: seq<Segment>)
    requires Stacked(segs).Some?
    ensures RealPath(segs) == Stacked(segs).value
  {
    if segs != [] {
      StackedIsRealPath(segs[..|segs| - 1]);
    }
  }

  // ----- scan against stack -----

  /** The count after one more segment has been read. */
  function Counted(x: Segment, pending: nat): nat {
    if IsParent(x) then pending + 1 else if pending > 0 then pending - 1 else 0
  }

  /** How many segments are still to be dropped once the scan has read all of `segs`. */
  function PendingAfter(segs: seq<Segment>, pending: nat): nat {
    if segs == [] then pending
    else
      var init, x := segs[..|segs| - 1], segs[|segs| - 1];
      PendingAfter(init, Counted(x, pending))
  }

  /** How many `.` and empty segments the scan spends a pending `..` on. */
  function Misspent(segs: seq<Segment>, pending: nat): nat {
    if segs == [] then 0
    else
      var init, x := segs[..|segs| - 1], segs[|segs| - 1];
      (if IsFiller(x) && pending > 0 then 1 else 0)
      + Misspent(init, Counted(x, pending))
  }

  /** Segment `i` is `.` or empty and a `..` is pending when the scan reaches it. */
  ghost predicate FillerAt(segs: seq<Segment>, pending: nat, i: nat) {
    i < |segs| && IsFiller(segs[i]) && PendingAfter(segs[i + 1..], pending) > 0
  }

  function Parents(segs: seq<Segment>): nat {
    if segs == [] then 0 else Parents(segs[..|segs| - 1]) + if IsParent(segs[|segs| - 1]) then 1 else 0
  }

  /** More than a half of the first `k` segments are `..`. */
  ghost predicate MostlyUp(segs: seq<Segment>, k: int) {
    0 <= k <= |segs| && 2 * Parents(segs[..k]) > k
  }

  ghost predicate ClimbsOut(segs: seq<Segment>) {
    exists k :: MostlyUp(segs, k)
  }

  /** Right behind some `.` or empty segment the path climbs out. */
  ghost predicate FillerUnderPending(segs: seq<Segment>) {
    exists i: nat :: i < |segs| && IsFiller(segs[i]) && ClimbsOut(segs[i + 1..])
  }

  lemma MostlyUpPrefix(segs: seq<Segment>, k: int, n: nat)
    requires k <= n <= |segs|
    ensures MostlyUp(segs, k) <==> MostlyUp(segs[..n], k)
  {
    if 0 <= k {
      assert segs[..k] == segs[..n][..k];
    }
  }

  lemma ClimbsOutSnoc(segs: seq<Segment>)
    requires segs != []
    ensures ClimbsOut(segs) <==> ClimbsOut(segs[..|segs| - 1]) || 2 * Parents(segs) > |segs|
  {
    var init := segs[..|segs| - 1];
    if ClimbsOut(init) {
      var k :| MostlyUp(init, k);
      MostlyUpPrefix(segs, k, |init|);
    } else if 2 * Parents(segs) > |segs| {
      ClimbsOutAll(segs);
    } else if ClimbsOut(segs) {
      var k :| MostlyUp(segs, k);
      assert segs[..|segs|] == segs;
      MostlyUpPrefix(segs, k, |init|);
      assert false;
    }
  }

  lemma ClimbsOutAll(segs: seq<Segment>)
    requires 2 * Parents(segs) > |segs|
    ensures ClimbsOut(segs)
  {
    assert segs[..|segs|] == segs;
    assert MostlyUp(segs, |segs|);
  }

  /** The scan's count in closed form. */
  lemma {:induction false} PendingIff(segs: seq<Segment>, pending: nat)
    ensures PendingAfter(segs, pending) > 0 <==> ClimbsOut(segs) || 2 * Parents(segs) + pending > |segs|
  {
    if segs == [] {
      assert !ClimbsOut(segs);
    } else {
      var init := segs[..|segs| - 1];
      PendingIff(init, Counted(segs[|segs| - 1], pending));
      ClimbsOutSnoc(segs);
      if 2 * Parents(init) > |init| {
        ClimbsOutAll(init);
      }
    }
  }

  lemma LeftPendingIff(segs: seq<Segment>)
    ensures PendingAfter(segs, 0) > 0 <==> ClimbsOut(segs)
  {
    PendingIff(segs, 0);
    if 2 * Parents(segs) > |segs| {
      ClimbsOutAll(segs);
    }
  }

  lemma FillerUnderPendingIff(segs: seq<Segment>)
    ensures FillerUnderPending(segs) <==> exists i: nat :: FillerAt(segs, 0, i)
  {
    forall i: nat | i < |segs|
      ensures FillerAt(segs, 0, i) <==> IsFiller(segs[i]) && ClimbsOut(segs[i + 1..])
    {
      LeftPendingIff(segs[i + 1..]);
    }
  }

  lemma PendingOfSuffix(segs: seq<Segment>, pending: nat, i: nat)
    requires i < |segs| - 1
    ensures var init, x := segs[..|segs| - 1], segs[|segs| - 1];
            && init[i] == segs[i]
            && PendingAfter(segs[i + 1..], pending) == PendingAfter(init[i + 1..], Counted(x, pending))
  {
    var t := segs[i + 1..];
    assert t[..|t| - 1] == segs[..|segs| - 1][i + 1..] && t[|t| - 1] == segs[|segs| - 1];
  }

  lemma FillerAtEarlier(segs: seq<Segment>, pending: nat)
    requires segs != []
    ensures var init, p := segs[..|segs| - 1], Counted(segs[|segs| - 1], pending);
            forall i: nat :: i < |init| ==> (FillerAt(segs, pending, i) <==> FillerAt(init, p, i))
    ensures FillerAt(segs, pending, |segs| - 1) <==> IsFiller(segs[|segs| - 1]) && pending > 0
  {
    var init, p := segs[..|segs| - 1], Counted(segs[|segs| - 1], pending);
    forall i: nat | i < |init|
      ensures FillerAt(segs, pending, i) <==> FillerAt(init, p, i)
    {
      PendingOfSuffix(segs, pending, i);
    }
    assert segs[|segs|..] == [];
  }

  lemma {:induction false} MisspentWitness(segs: seq<Segment>, pending: nat)
    ensures Misspent(segs, pending) > 0 <==> exists i: nat :: FillerAt(segs, pending, i)
  {
    if segs != [] {
      var init, p := segs[..|segs| - 1], Counted(segs[|segs| - 1], pending);
      MisspentWitness(init, p);
      FillerAtEarlier(segs, pending);
      if Misspent(init, p) > 0 {
        var i: nat :| FillerAt(init, p, i);
        assert FillerAt(segs, pending, i);
      } else if exists i: nat :: FillerAt(segs, pending, i) {
        var i: nat :| FillerAt(segs, pending, i);
        assert !FillerAt(init, p, i);
      }
    }
  }

  lemma {:induction false} ScanFailsIffPending(segs: seq<Segment>, pending: nat)
    ensures Kept(segs, pending) == None <==> PendingAfter(segs, pending) > 0
  {
    if segs != [] {
      var init, x := segs[..|segs| - 1], segs[|segs| - 1];
      ScanFailsIffPending(init, Counted(x, pending));
    }
  }

  /** The scan fails exactly when the segments in front, up to some point, are `..` for more than a half. */
  lemma ScanFailsIff(segs: seq<Segment>)
    ensures Kept(segs, 0) == None <==> ClimbsOut(segs)
  {
    ScanFailsIffPending(segs, 0);
    LeftPendingIff(segs);
  }

  /** The scan drops `pending` segments off the top of the stack, unless it misspends some: a scan that
      fails means the stack fails; one that succeeds keeps as many segments more as it misspent. */
  lemma {:induction false} ScanAgainstStack(segs: seq<Segment>, pending: nat)
    ensures var k, st := Kept(segs, pending), Stacked(segs);
            && (k == None ==> st == None || |st.value| < pending)
            && (k.Some? && st.Some? ==> |k.value| == |st.value| - pending + Misspent(segs, pending))
  {
    if segs != [] {
      var init, x := segs[..|segs| - 1], segs[|segs| - 1];
      ScanAgainstStack(init, Counted(x, pending));
    }
  }

  function Popped(st: Option<seq<Segment>>, n: nat): Option<seq<Segment>> {
    if st == None || |st.value| < n then None else Some(st.value[..|st.value| - n])
  }

  lemma {:induction false} ScanIsPoppedStack(segs: seq<Segment>, pending: nat)
    requires Misspent(segs, pending) == 0
    ensures Kept(segs, pending) == Popped(Stacked(segs), pending)
  {
    if segs != [] {
      var init, x := segs[..|segs| - 1], segs[|segs| - 1];
      var p := Counted(x, pending);
      ScanIsPoppedStack(init, p);
      var st := Stacked(init);
      if st.Some? && |st.value| >= p {
        if IsParent(x) {
          assert st.value[..|st.value| - 1][..|st.value| - 1 - pending] == st.value[..|st.value| - p];
        } else if !IsFiller(x) {
          if pending > 0 {
            assert (st.value + [x])[..|st.value| + 1 - pending] == st.value[..|st.value| - p];
          } else {
            assert st.value[..|st.value|] == st.value && (st.value + [x])[..|st.value| + 1] == st.value + [x];
          }
        }
      }
    }
  }

  /** For every list of segments: the scan and the stack that refuses to underflow agree exactly when
      the path climbs out right behind no filler, or climbs out from its start (and then both fail). */
  lemma ScanIsStackIff(segs: seq<Segment>)
    ensures Kept(segs, 0) == Stacked(segs) <==>
            !FillerUnderPending(segs) || ClimbsOut(segs)
  {
    ScanAgainstStack(segs, 0);
    ScanFailsIff(segs);
    MisspentWitness(segs, 0);
    FillerUnderPendingIff(segs);
    if Misspent(segs, 0) == 0 {
      ScanIsPoppedStack(segs, 0);
      var st := Stacked(segs);
      assert st.Some? ==> st.value[..|st.value|] == st.value;
    }
  }

  /** CollapsePath on strings: without a filler under a pending `..` it fails exactly when the stack
      underflows, and otherwise keeps the segments that linux_real_path keeps. */
  lemma CollapseIsRealPath(s: seq<Byte>, sep: Byte)
    requires !FillerUnderPending(Segments(s, sep))
    ensures Collapse(s, sep) == None <==> Stacked(Segments(s, sep)) == None
    ensures Collapse(s, sep).Some? ==>
              && Split(Collapse(s, sep).value, sep)[0] == Split(s, sep)[0]
              && Named(Segments(Collapse(s, sep).value, sep)) == RealPath(Segments(s, sep))
  {
    CollapsedHasKept(s, sep, 0, [], true);
    EmptyTail(sep);
    ScanIsStackIff(Segments(s, sep));
    if Stacked(Segments(s, sep)).Some? {
      StackedIsRealPath(Segments(s, sep));
    }
  }

  /** The string CollapsePath leaves has the first component of `s` and the segments on the stack, and
      there is none when the stack underflows. */
  ghost predicate MeetsStack(s: seq<Byte>, sep: Byte) {
    var r, st := Collapse(s, sep), Stacked(Segments(s, sep));
    && (r == None <==> st == None)
    && (r.Some? ==> Split(r.value, sep)[0] == Split(s, sep)[0] && Named(Segments(r.value, sep)) == st.value)
  }

  /** For every string: CollapsePath meets the stack exactly when the path climbs out right behind no
      filler, or climbs out from its start. */
  lemma CollapseMeetsStackIff(s: seq<Byte>, sep: Byte)
    ensures MeetsStack(s, sep) <==>
            !FillerUnderPending(Segments(s, sep)) || ClimbsOut(Segments(s, sep))
  {
    CollapsedHasKept(s, sep, 0, [], true);
    EmptyTail(sep);
    ScanIsStackIff(Segments(s, sep));
    var k := Kept(Segments(s, sep), 0);
    assert k.Some? ==> k.value + [] == k.value;
    assert k == Stacked(Segments(s, sep)) <==> MeetsStack(s, sep);
  }

  /** For an absolute path the component before the first separator is empty, and linux_real_path skips it. */
  lemma {:induction false} AbsoluteHead(s: seq<Byte>, sep: Byte)
    requires s != [] && s[0] == sep
    ensures Split(s, sep)[0] == [] && RealPath(Split(s, sep)) == RealPath(Segments(s, sep))
    decreases |s|
  {
    var i := LastIndex(s, sep);
    LastIndexIs(s, sep, i);
    if i > 0 {
      AbsoluteHead(s[..i], sep);
    }
    SkipsEmptyHead(Segments(s, sep));
    assert Split(s, sep) == [Split(s, sep)[0]] + Segments(s, sep);
  }

  lemma {:induction false} SkipsEmptyHead(segs: seq<Segment>)
    ensures RealPath([[]] + segs) == RealPath(segs)
  {
    var all := [[]] + segs;
    if segs == [] {
      assert all[..0] == [] && RealPath(all[..0]) == [];
    } else {
      SkipsEmptyHead(segs[..|segs| - 1]);
      assert all[..|all| - 1] == [[]] + segs[..|segs| - 1];
    }
  }

  lemma MisspentSegments(a: Byte)
    requires a != DOT
    ensures var segs := [[a], [DOT], [DOT, DOT]];
            FillerUnderPending(segs) && RealPath(segs) == []
  {
    var segs := [[a], [DOT], [DOT, DOT]];
    var parent := [[DOT, DOT]];
    assert segs[2..] == parent && parent[..0] == [] && parent[..1] == parent && Parents(parent) == 1;
    assert MostlyUp(segs[2..], 1) && IsFiller(segs[1]);
    var s1, s2 := [[a]], [[a], [DOT]];
    assert s1[..0] == [] && s2[..1] == s1 && segs[..2] == s2;
    assert RealPath(s1) == s1 && RealPath(s2) == s1;
  }

  lemma MisspentCollapse(slash: Byte, a: Byte, s2: seq<Byte>, s4: seq<Byte>, s: seq<Byte>)
    requires a != DOT && LastIndex(s2, slash) == 0 && LastIndex(s4, slash) == 2 && LastIndex(s, slash) == 4
    requires |s| == 7 && |s4| == 4 && |s2| == 2
    requires s[..4] == s4 && s[5..] == [DOT, DOT] && s4[..2] == s2 && s4[3..] == [DOT]
    requires s2[..0] == [] && s2[1..] == [a]
    ensures Collapse(s, slash) == Some([slash, a, slash])
  {
    assert [] + [slash] + [a, slash] == [slash, a, slash] && [a] + [slash] + [] == [a, slash];
    assert Collapsed([], slash, 0, [a, slash], false) == Some([slash, a, slash]);
    assert Collapsed(s2, slash, 0, [], false) == Some([slash, a, slash]);
    assert Collapsed(s4, slash, 1, [], false) == Some([slash, a, slash]);
  }

  /** With one the result differs: `/a/./..` collapses to `/a/`, while the real path is the root. */
  lemma FillerUnderParentIsMisspent()
    ensures var slash: Byte, a: Byte := 47, 97;
            var s := [slash, a, slash, DOT, slash, DOT, DOT];
            && FillerUnderPending(Segments(s, slash))
            && Collapse(s, slash) == Some([slash, a, slash])
            && RealPath(Segments(s, slash)) == []
  {
    var slash: Byte, a: Byte := 47, 97;
    var s2 := [slash, a];
    var s4 := [slash, a, slash, DOT];
    var s := [slash, a, slash, DOT, slash, DOT, DOT];
    LastIndexIs(s2, slash, 0);
    LastIndexIs(s4, slash, 2);
    LastIndexIs(s, slash, 4);
    assert s[..4] == s4 && s[5..] == [DOT, DOT] && s4[..2] == s2 && s4[3..] == [DOT] && s2[..0] == [] && s2[1..] == [a];
    MisspentCollapse(slash, a, s2, s4, s);
    assert Segments(s, slash) == [[a], [DOT], [DOT, DOT]] by {
      SegmentsSnoc(s2, slash);
      SegmentsSnoc(s4, slash);
      SegmentsSnoc(s, slash);
      assert Segments([], slash) == [];
    }
    MisspentSegments(a);
  }
}
