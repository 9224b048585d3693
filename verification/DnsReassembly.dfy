/**
 Reassembly of DNS requests from a TCP byte stream: two length bytes, then the
 request (section 4.2.2 of RFC 1035, section 8 of RFC 7766). The read offset is a
 uint16_t while a request with its prefix can take 65537 bytes.
 */
module DnsReassembly {
  import opened Common

  /** c_byteCountTcpRequestLength. */
  const PREFIX := 2
  const OFFSET_MODULUS := 0x1_0000

  function Zeros(n: nat): seq<Byte> {
    seq(n, _ => 0)
  }

  /** std::vector::resize: keeps what fits, zero-fills the rest. */
  function Resized(s: seq<Byte>, n: nat): (r: seq<Byte>)
    ensures |r| == n && forall i :: 0 <= i < n && i < |s| ==> r[i] == s[i]
  {
    if n <= |s| then s[..n] else s + Zeros(n - |s|)
  }

  /** The declared length, stored in network byte order. */
  function DeclaredLength(s: seq<Byte>): (n: nat)
    requires |s| >= PREFIX
    ensures n < OFFSET_MODULUS
  {
    (s[0] as int) * 256 + s[1]
  }

  // ----- the connection as a value -----

  datatype Context = Context(offset: nat, buffer: seq<Byte>)

  const FRESH := Context(0, Zeros(PREFIX))

  function Room(c: Context): int {
    |c.buffer| - c.offset
  }

  /** The buffer once recv has written at the offset. */
  function Written(c: Context, data: seq<Byte>): (r: seq<Byte>)
    requires |data| <= Room(c)
    ensures |r| == |c.buffer|
  {
    c.buffer[..c.offset] + data + c.buffer[c.offset + |data|..]
  }

  /** What HandleNewTcpData makes of a non-empty recv: the next context and, perhaps, a request to tunnel. */
  function Received(c: Context, data: seq<Byte>): (Context, Option<seq<Byte>>)
    requires c.offset < OFFSET_MODULUS && |data| <= Room(c) && 2 <= |c.buffer|
  {
    var buffer := Written(c, data);
    var offset := (c.offset + |data|) % OFFSET_MODULUS;
    if offset != |buffer| then (Context(offset, buffer), None)
    else if |buffer| == PREFIX then (Context(offset, Resized(buffer, PREFIX + DeclaredLength(buffer))), None)
    else (FRESH, Some(buffer))
  }

  /** recv never returns more than it was asked for; nothing read means the peer closed. */
  ghost predicate Deliverable(c: Context, chunks: seq<seq<Byte>>)
    decreases |chunks|
  {
    chunks == [] ||
    (&& c.offset < OFFSET_MODULUS && 2 <= |c.buffer|
     && 1 <= |chunks[0]| <= Room(c)
     && Deliverable(Received(c, chunks[0]).0, chunks[1..]))
  }

  /** A connection fed chunk by chunk: its last context and the requests it tunnelled, in order. */
  ghost function Fed(c: Context, chunks: seq<seq<Byte>>): (Context, seq<seq<Byte>>)
    requires Deliverable(c, chunks)
    decreases |chunks|
  {
    if chunks == [] then (c, [])
    else
      var (c', out) := Received(c, chunks[0]);
      var (c'', rest) := Fed(c', chunks[1..]);
      (c'', (if out.Some? then [out.value] else []) + rest)
  }

  function Joined(chunks: seq<seq<Byte>>): seq<Byte>
    decreases |chunks|
  {
    if chunks == [] then [] else chunks[0] + Joined(chunks[1..])
  }

  // ----- the object -----

  datatype Outcome = Dropped | Kept(request: Option<seq<Byte>>)

  /** What recv does: fail, or read some bytes (none when the peer closed). */
  datatype Recv = Failed | Read(data: seq<Byte>)

  class TcpConnectionContext {
    var currentRequestOffset: nat
    var currentDnsRequest: seq<Byte>

    ghost function Value(): Context
      reads this
    {
      Context(currentRequestOffset, currentDnsRequest)
    }

    ghost predicate Valid()
      reads this
    {
      && currentRequestOffset < OFFSET_MODULUS
      && currentRequestOffset <= |currentDnsRequest| && PREFIX <= |currentDnsRequest|
    }

    constructor ()
      ensures Valid() && Value() == FRESH
    {
      currentRequestOffset := 0;
      currentDnsRequest := Zeros(PREFIX);
    }

    method HandleNewTcpData(recv: Recv) returns (outcome: Outcome)
      requires Valid()
      requires recv.Read? ==> |recv.data| <= Room(Value())
      modifies this
      ensures Valid()
      ensures outcome == Dropped <==> recv == Failed || recv.data == []
      ensures outcome == Dropped ==> Value() == old(Value())
      ensures outcome.Kept? ==> (Value(), outcome.request) == old(Received(Value(), recv.data))
    {
      if recv == Failed || |recv.data| == 0 {
        return Dropped;
      }
      var data := recv.data;
      var end := currentRequestOffset + |data|;
      currentDnsRequest := currentDnsRequest[..currentRequestOffset] + data + currentDnsRequest[end..];
      currentRequestOffset := end % OFFSET_MODULUS;
      outcome := Kept(None);
      if currentRequestOffset == |currentDnsRequest| {
        if |currentDnsRequest| == PREFIX {
          var length := DeclaredLength(currentDnsRequest);
          currentDnsRequest := Resized(currentDnsRequest, PREFIX + length);
        } else {
          outcome := Kept(Some(currentDnsRequest));
          currentRequestOffset := 0;
          currentDnsRequest := Zeros(PREFIX);
        }
      }
    }
  }

  // ----- the reference: frames of a stream -----

  /** The lengths for which prefix and request fit the 16-bit offset, and which leave something to read. */
  predicate Carriable(length: nat) {
    1 <= length <= 65533
  }

  predicate FrameArrived(s: seq<Byte>) {
    |s| >= PREFIX && |s| >= PREFIX + DeclaredLength(s)
  }

  /** The frames the standard cuts a stream into. */
  function RfcFrames(s: seq<Byte>): seq<seq<Byte>> {
    if !FrameArrived(s) then []
    else [s[..PREFIX + DeclaredLength(s)]] + RfcFrames(s[PREFIX + DeclaredLength(s)..])
  }

  predicate Ready(s: seq<Byte>) {
    FrameArrived(s) && Carriable(DeclaredLength(s))
  }

  /** The same cut, stopped at the first frame whose length is not carriable. */
  function Frames(s: seq<Byte>): seq<seq<Byte>> {
    if !Ready(s) then []
    else [s[..PREFIX + DeclaredLength(s)]] + Frames(s[PREFIX + DeclaredLength(s)..])
  }

  /** What is left of the stream after those frames. */
  function Rest(s: seq<Byte>): (r: seq<Byte>)
    ensures !Ready(r)
  {
    if !Ready(s) then s else Rest(s[PREFIX + DeclaredLength(s)..])
  }

  lemma {:induction false} FramesPartition(s: seq<Byte>)
    ensures Joined(Frames(s)) + Rest(s) == s
  {
    if Ready(s) {
      var n := PREFIX + DeclaredLength(s);
      var tail := s[n..];
      FramesPartition(tail);
      FrameInFront(s, tail, n);
      assert ([s[..n]] + Frames(tail))[1..] == Frames(tail);
      Associate(s[..n], Joined(Frames(tail)), Rest(tail));
    }
  }

  /** One frame in front of a stream. */
  lemma FrameInFront(s: seq<Byte>, tail: seq<Byte>, n: nat)
    requires |s| >= PREFIX && Carriable(DeclaredLength(s)) && n == PREFIX + DeclaredLength(s)
    requires |s| >= n && s[n..] == tail
    ensures Frames(s) == [s[..n]] + Frames(tail) && Rest(s) == Rest(tail)
  {
  }

  /** More bytes only ever continue the unfinished part. */
  lemma {:induction false} FramesExtend(s: seq<Byte>, d: seq<Byte>)
    ensures Frames(s + d) == Frames(s) + Frames(Rest(s) + d)
    ensures Rest(s + d) == Rest(Rest(s) + d)
  {
    if Ready(s) {
      var n := PREFIX + DeclaredLength(s);
      var tail := s[n..];
      FramesExtend(tail, d);
      assert (s + d)[..n] == s[..n] && (s + d)[n..] == tail + d;
      FrameInFront(s, tail, n);
      FrameInFront(s + d, tail + d, n);
      Associate([s[..n]], Frames(tail), Frames(Rest(tail) + d));
    } else {
      assert Frames(s) + Frames(s + d) == Frames(s + d);
    }
  }

  /** The cut agrees with the standard exactly when every frame that has arrived is carriable. */
  lemma {:induction false} FramesAreRfcFramesIff(s: seq<Byte>)
    ensures Frames(s) == RfcFrames(s) <==>
            forall f :: f in RfcFrames(s) ==> |f| >= PREFIX && Carriable(DeclaredLength(f))
  {
    if FrameArrived(s) {
      var n := PREFIX + DeclaredLength(s);
      var f, tail := s[..n], s[n..];
      assert DeclaredLength(f) == DeclaredLength(s);
      assert f in RfcFrames(s);
      if Ready(s) {
        FramesAreRfcFramesIff(tail);
        assert RfcFrames(s)[1..] == RfcFrames(tail) && Frames(s)[1..] == Frames(tail);
      }
    }
  }

  // ----- the context follows the reference -----

  /** The context after the whole of `s` has been received, in whatever pieces. */
  ghost predicate Holds(c: Context, s: seq<Byte>) {
    var r := Rest(s);
    if |r| < PREFIX then |c.buffer| == PREFIX && c.offset == |r| && c.buffer[..|r|] == r
    else
      var length := DeclaredLength(r);
      && |c.buffer| == PREFIX + length
      && c.offset == |r| % OFFSET_MODULUS
      && (length == 0 ==> |r| == PREFIX)
      && (length <= 65533 ==> |r| <= |c.buffer| && c.buffer[..|r|] == r)
  }

  lemma WriteAt(c: Context, r: seq<Byte>, d: seq<Byte>)
    requires |r| == c.offset && |r| + |d| <= |c.buffer| && c.buffer[..|r|] == r
    ensures Written(c, d)[..|r| + |d|] == r + d
  {
  }

  /** Reading within the two length bytes. */
  lemma HoldsInPrefix(c: Context, r: seq<Byte>, d: seq<Byte>)
    requires |r| < PREFIX && Holds(c, r) && 1 <= |d| <= Room(c)
    ensures var (c', out) := Received(c, d);
            Holds(c', r + d) && out == None && !Ready(r + d)
  {
    WriteAt(c, r, d);
    var r' := r + d;
    if |r'| == PREFIX {
      assert Written(c, d)[..PREFIX] == Written(c, d);
      var c' := Received(c, d).0;
      assert c'.buffer[..PREFIX] == r';
    }
  }

  /** Reading the last bytes of a request of carriable length. */
  lemma RequestCompletes(c: Context, r: seq<Byte>, d: seq<Byte>)
    requires |r| >= PREFIX && Carriable(DeclaredLength(r)) && |c.buffer| == PREFIX + DeclaredLength(r)
    requires c.offset == |r| && |r| + |d| == |c.buffer| && c.buffer[..|r|] == r
    ensures Received(c, d) == (FRESH, Some(r + d))
    ensures Frames(r + d) == [r + d] && Rest(r + d) == []
  {
    WriteAt(c, r, d);
    var r', n := r + d, |c.buffer|;
    assert Written(c, d)[..n] == Written(c, d);
    assert r'[..n] == r' && r'[n..] == [];
    FrameInFront(r', [], n);
  }

  lemma RequestGrows(c: Context, r: seq<Byte>, d: seq<Byte>)
    requires |r| >= PREFIX && Carriable(DeclaredLength(r)) && |c.buffer| == PREFIX + DeclaredLength(r)
    requires c.offset == |r| && |r| + |d| < |c.buffer| && c.buffer[..|r|] == r
    ensures Received(c, d) == (Context(|r + d|, Written(c, d)), None)
    ensures Holds(Received(c, d).0, r + d) && Frames(r + d) == []
  {
    WriteAt(c, r, d);
    assert DeclaredLength(r + d) == DeclaredLength(r);
    assert !Ready(r + d);
  }

  /** Reading within a request of carriable length. */
  lemma HoldsInRequest(c: Context, r: seq<Byte>, d: seq<Byte>)
    requires |r| >= PREFIX && !Ready(r) && Holds(c, r) && 1 <= |d| <= Room(c)
    requires DeclaredLength(r) <= 65533
    ensures var (c', out) := Received(c, d);
            Holds(c', r + d) && Frames(r + d) == if out.Some? then [out.value] else []
  {
    assert c.offset == |r| && Carriable(DeclaredLength(r));
    if |r| + |d| == |c.buffer| {
      RequestCompletes(c, r, d);
    } else {
      RequestGrows(c, r, d);
    }
  }

  /** Reading into a request too long for the offset. */
  lemma HoldsInOversized(c: Context, r: seq<Byte>, d: seq<Byte>)
    requires |r| >= PREFIX && Holds(c, r) && 1 <= |d| <= Room(c)
    requires DeclaredLength(r) > 65533
    ensures var (c', out) := Received(c, d);
            Holds(c', r + d) && out == None && !Ready(r + d)
  {
    assert DeclaredLength(r + d) == DeclaredLength(r);
    assert (|r| % OFFSET_MODULUS + |d|) % OFFSET_MODULUS == |r + d| % OFFSET_MODULUS;
  }

  lemma HoldsInsideFrame(c: Context, r: seq<Byte>, d: seq<Byte>)
    requires !Ready(r) && Holds(c, r) && 1 <= |d| <= Room(c)
    ensures c.offset < OFFSET_MODULUS && 2 <= |c.buffer|
    ensures var (c', out) := Received(c, d);
            Holds(c', r + d) && Frames(r + d) == if out.Some? then [out.value] else []
  {
    if |r| < PREFIX {
      HoldsInPrefix(c, r, d);
    } else if DeclaredLength(r) <= 65533 {
      HoldsInRequest(c, r, d);
    } else {
      HoldsInOversized(c, r, d);
    }
  }

  lemma HoldsAfterStep(c: Context, s: seq<Byte>, d: seq<Byte>)
    requires Holds(c, s) && 1 <= |d| <= Room(c)
    ensures c.offset < OFFSET_MODULUS && 2 <= |c.buffer|
    ensures var (c', out) := Received(c, d);
            Holds(c', s + d) && Frames(s + d) == Frames(s) + if out.Some? then [out.value] else []
  {
    var r := Rest(s);
    assert Rest(r) == r;
    HoldsInsideFrame(c, r, d);
    FramesExtend(s, d);
  }

  lemma {:induction false} FeedFollowsStream(c: Context, s: seq<Byte>, chunks: seq<seq<Byte>>)
    requires Holds(c, s) && Deliverable(c, chunks)
    ensures Holds(Fed(c, chunks).0, s + Joined(chunks))
    ensures Frames(s + Joined(chunks)) == Frames(s) + Fed(c, chunks).1
    decreases |chunks|
  {
    if chunks == [] {
      assert s + Joined(chunks) == s;
    } else {
      var d, tail := chunks[0], chunks[1..];
      HoldsAfterStep(c, s, d);
      var (c', out) := Received(c, d);
      var head := if out.Some? then [out.value] else [];
      FeedFollowsStream(c', s + d, tail);
      Associate(s, d, Joined(tail));
      Associate(Frames(s), head, Fed(c', tail).1);
    }
  }

  /** For every byte stream and every way recv splits it: the requests tunnelled are the stream's
      frames up to the first length that is not carriable, whole and with their prefixes. */
  lemma ReassemblyIsExact(chunks: seq<seq<Byte>>)
    requires Deliverable(FRESH, chunks)
    ensures Fed(FRESH, chunks).1 == Frames(Joined(chunks))
    ensures Holds(Fed(FRESH, chunks).0, Joined(chunks))
  {
    assert Holds(FRESH, []);
    FeedFollowsStream(FRESH, [], chunks);
    assert [] + Joined(chunks) == Joined(chunks);
  }

  /** So they are the frames of the standard if and only if every frame that has arrived declares 1..65533 bytes. */
  lemma ReassemblyMeetsStandardIff(chunks: seq<seq<Byte>>)
    requires Deliverable(FRESH, chunks)
    ensures Fed(FRESH, chunks).1 == RfcFrames(Joined(chunks)) <==>
            forall f :: f in RfcFrames(Joined(chunks)) ==> |f| >= PREFIX && Carriable(DeclaredLength(f))
  {
    ReassemblyIsExact(chunks);
    FramesAreRfcFramesIff(Joined(chunks));
  }

  /** While the request being read is carriable, no byte is lost and the offset has not wrapped. */
  lemma NothingLost(chunks: seq<seq<Byte>>)
    requires Deliverable(FRESH, chunks)
    requires var r := Rest(Joined(chunks)); |r| >= PREFIX ==> Carriable(DeclaredLength(r))
    ensures var (c, out) := Fed(FRESH, chunks);
            && c.offset <= |c.buffer| && c.offset == |Rest(Joined(chunks))|
            && Joined(out) + c.buffer[..c.offset] == Joined(chunks)
  {
    ReassemblyIsExact(chunks);
    FramesPartition(Joined(chunks));
  }

  /** A zero length leaves nothing to ask recv for, so the next read looks like a close. */
  lemma ZeroLengthStops(chunks: seq<seq<Byte>>)
    requires Deliverable(FRESH, chunks)
    requires var r := Rest(Joined(chunks)); |r| >= PREFIX && DeclaredLength(r) == 0
    ensures Room(Fed(FRESH, chunks).0) == 0
  {
    ReassemblyIsExact(chunks);
  }

  /** A length of 65534 or 65535 is never completed: whatever arrives later, nothing more is tunnelled. */
  lemma OversizedNeverCompletes(chunks: seq<seq<Byte>>, more: seq<seq<Byte>>)
    requires Deliverable(FRESH, chunks) && Deliverable(FRESH, chunks + more)
    requires var r := Rest(Joined(chunks)); |r| >= PREFIX && DeclaredLength(r) >= 65534
    ensures Fed(FRESH, chunks + more).1 == Fed(FRESH, chunks).1
  {
    ReassemblyIsExact(chunks);
    ReassemblyIsExact(chunks + more);
    JoinedConcat(chunks, more);
    FramesExtend(Joined(chunks), Joined(more));
    var r := Rest(Joined(chunks)) + Joined(more);
    assert DeclaredLength(r) == DeclaredLength(Rest(Joined(chunks)));
  }

  /** A stream that is one prefix of zero holds one empty request, which is never tunnelled. */
  lemma ZeroLengthIsLost()
    ensures var chunks: seq<seq<Byte>> := [[0, 0]];
            && Deliverable(FRESH, chunks) && Fed(FRESH, chunks).1 == []
            && RfcFrames(Joined(chunks)) == [[0, 0]]
  {
    var chunk: seq<Byte> := [0, 0];
    var chunks := [chunk];
    assert chunks[1..] == [] && Joined(chunks[1..]) == [] && chunk + [] == chunk;
    assert Deliverable(FRESH, chunks);
    ReassemblyIsExact(chunks);
    assert chunk[..2] == chunk && chunk[2..] == [];
  }

  /** A prefix of 65534 or 65535, read first, and then all the bytes it declares, in one read: one whole
      request has arrived, and nothing is tunnelled. */
  lemma OversizedIsLost(n: nat, request: seq<Byte>)
    requires 65534 <= n <= 65535 && |request| == n
    ensures var chunks := [[255, n - 65280], request];
            && Deliverable(FRESH, chunks) && Fed(FRESH, chunks).1 == []
            && RfcFrames(Joined(chunks)) == [[255, n - 65280] + request]
  {
    var prefix: seq<Byte> := [255, n - 65280];
    var chunks := [prefix, request];
    var c := Received(FRESH, prefix).0;
    assert Written(FRESH, prefix) == prefix;
    assert c.offset == PREFIX && |c.buffer| == PREFIX + n;
    assert chunks[1..] == [request] && [request][1..] == [];
    assert Deliverable(c, chunks[1..]);
    ReassemblyIsExact(chunks);
    assert Joined([request]) == request;
    OversizedFrame(prefix, request, prefix + request);
  }

  lemma OversizedFrame(prefix: seq<Byte>, request: seq<Byte>, s: seq<Byte>)
    requires |prefix| == PREFIX && |request| == DeclaredLength(prefix) && s == prefix + request
    ensures RfcFrames(s) == [s]
    ensures DeclaredLength(prefix) > 65533 ==> Frames(s) == []
  {
    assert DeclaredLength(s) == DeclaredLength(prefix) && |s| == PREFIX + DeclaredLength(s);
    assert s[..|s|] == s && s[|s|..] == [] && RfcFrames([]) == [];
  }

  lemma {:induction false} JoinedConcat(a: seq<seq<Byte>>, b: seq<seq<Byte>>)
    ensures Joined(a + b) == Joined(a) + Joined(b)
    decreases |a|
  {
    if a == [] {
      assert a + b == b;
    } else {
      JoinedConcat(a[1..], b);
      assert (a + b)[0] == a[0] && (a + b)[1..] == a[1..] + b;
      assert a[0] + (Joined(a[1..]) + Joined(b)) == (a[0] + Joined(a[1..])) + Joined(b);
    }
  }
}
