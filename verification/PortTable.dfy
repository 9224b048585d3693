/**
 The tracker's table of bound ports: the key order of `std::map`, the
 erase-while-iterating refresh loop and the first-insertion rule of `emplace`.
 */
module PortTable {
  import opened Common

  /** The 16 bytes of an in6_addr. */
  type Address = a: seq<Byte> | |a| == 16 witness seq(16, _ => 0)

  datatype PortAllocation = PortAllocation(address: Address, port: nat, family: int, protocol: int)

  /** c_bind_timeout_seconds. */
  const BIND_TIMEOUT := 60

  // ----- the key order -----

  /** Sign of memcmp on two byte strings of the same length. */
  function Memcmp(a: seq<Byte>, b: seq<Byte>): int
    requires |a| == |b|
  {
    if a == [] then 0
    else if a[0] != b[0] then (if a[0] < b[0] then -1 else 1)
    else Memcmp(a[1..], b[1..])
  }

  /** PortAllocation::operator<. */
  predicate Less(p: PortAllocation, q: PortAllocation) {
    if p.port != q.port then p.port < q.port
    else if p.family != q.family then p.family < q.family
    else if p.protocol != q.protocol then p.protocol < q.protocol
    else Memcmp(p.address, q.address) < 0
  }

  lemma {:induction false} MemcmpOrder(a: seq<Byte>, b: seq<Byte>)
    requires |a| == |b|
    ensures Memcmp(a, b) == 0 <==> a == b
    ensures Memcmp(a, b) == -Memcmp(b, a)
  {
    if a != [] {
      MemcmpOrder(a[1..], b[1..]);
      assert a == [a[0]] + a[1..] && b == [b[0]] + b[1..];
    }
  }

  lemma {:induction false} MemcmpTransitive(a: seq<Byte>, b: seq<Byte>, c: seq<Byte>)
    requires |a| == |b| == |c|
    requires Memcmp(a, b) < 0 && Memcmp(b, c) < 0
    ensures Memcmp(a, c) < 0
  {
    if a[0] == b[0] == c[0] {
      MemcmpTransitive(a[1..], b[1..], c[1..]);
    }
  }

  /** The fields of a key, most significant first. */
  function KeyWords(p: PortAllocation): seq<int> {
    [p.port, p.family, p.protocol] + p.address
  }

  /** The words agree up to `k`, and there `a` has the smaller one. */
  ghost predicate SmallerAt(a: seq<int>, b: seq<int>, k: int) {
    0 <= k < |a| && k < |b| && a[k] < b[k] && forall j :: 0 <= j < k ==> a[j] == b[j]
  }

  lemma FirstDifference(a: seq<int>, b: seq<int>, k: nat, x: int)
    requires k < |a| && k < |b| && a[k] != b[k] && (forall j :: 0 <= j < k ==> a[j] == b[j])
    requires SmallerAt(a, b, x)
    ensures x == k
  {
  }

  lemma {:induction false} MemcmpIff(a: seq<Byte>, b: seq<Byte>)
    requires |a| == |b|
    ensures Memcmp(a, b) < 0 <==> exists k :: SmallerAt(a, b, k)
  {
    if a != [] {
      MemcmpIff(a[1..], b[1..]);
      if a[0] < b[0] {
        assert SmallerAt(a, b, 0);
      } else if a[0] == b[0] {
        if exists k :: SmallerAt(a, b, k) {
          var k :| SmallerAt(a, b, k);
          assert SmallerAt(a[1..], b[1..], k - 1);
        }
        if exists k :: SmallerAt(a[1..], b[1..], k) {
          var k :| SmallerAt(a[1..], b[1..], k);
          assert forall j :: 0 < j <= k ==> a[j] == a[1..][j - 1] && b[j] == b[1..][j - 1];
          assert SmallerAt(a, b, k + 1);
        }
      }
    }
  }

  /** One key is less than another exactly when it has the smaller word where they first differ: port, family,
      protocol, then the address byte by byte. */
  lemma LessIsLexicographic(p: PortAllocation, q: PortAllocation)
    ensures Less(p, q) <==> exists k :: SmallerAt(KeyWords(p), KeyWords(q), k)
  {
    var a, b := KeyWords(p), KeyWords(q);
    MemcmpIff(p.address, q.address);
    if p.port == q.port && p.family == q.family && p.protocol == q.protocol {
      AddressDecides(p, q);
    } else {
      var k := if p.port != q.port then 0 else if p.family != q.family then 1 else 2;
      assert a[k] != b[k];
      assert Less(p, q) <==> SmallerAt(a, b, k);
      forall x | SmallerAt(a, b, x)
        ensures x == k
      {
        FirstDifference(a, b, k, x);
      }
    }
  }

  lemma AddressDecides(p: PortAllocation, q: PortAllocation)
    requires p.port == q.port && p.family == q.family && p.protocol == q.protocol
    ensures (exists k :: SmallerAt(p.address, q.address, k)) <==> exists k :: SmallerAt(KeyWords(p), KeyWords(q), k)
  {
    var a, b := KeyWords(p), KeyWords(q);
    if exists k :: SmallerAt(p.address, q.address, k) {
      var k :| SmallerAt(p.address, q.address, k);
      assert forall j :: 3 <= j < k + 3 ==> a[j] == p.address[j - 3] && b[j] == q.address[j - 3];
      assert SmallerAt(a, b, k + 3);
    }
    if exists k :: SmallerAt(a, b, k) {
      var k :| SmallerAt(a, b, k);
      assert k >= 3;
      assert forall j :: 0 <= j < k - 3 ==> p.address[j] == a[j + 3] && q.address[j] == b[j + 3];
      assert SmallerAt(p.address, q.address, k - 3);
    }
  }

  /** operator< is a strict total order whose incomparability is equality of all four
      fields, so `std::map` and `std::set` never merge two distinct allocations. */
  lemma LessIsStrictTotalOrder(p: PortAllocation, q: PortAllocation, r: PortAllocation)
    ensures !Less(p, p)
    ensures Less(p, q) && Less(q, r) ==> Less(p, r)
    ensures !Less(p, q) && !Less(q, p) <==> p == q
  {
    MemcmpOrder(p.address, p.address);
    MemcmpOrder(p.address, q.address);
    if p.port == q.port == r.port && p.family == q.family == r.family && p.protocol == q.protocol == r.protocol
       && Less(p, q) && Less(q, r) {
      MemcmpTransitive(p.address, q.address, r.address);
    }
  }

  // ----- the table as a map -----

  /** The pairs of the table: an empty deadline means the port has been seen bound. */
  datatype Entry = Entry(port: PortAllocation, deadline: Option<int>)

  type Ports = map<PortAllocation, Option<int>>

  /** A snapshot lets go of an entry it does not list once the deadline is gone or past. */
  predicate Expired(port: PortAllocation, deadline: Option<int>, bound: set<PortAllocation>, timestamp: int) {
    port !in bound && (deadline == None || deadline.value < timestamp)
  }

  /** What one snapshot does to the table, said at once for all entries. */
  function Refreshed(m: Ports, bound: set<PortAllocation>, timestamp: int): Ports {
    map p | p in m && !Expired(p, m[p], bound, timestamp) :: if p in bound then None else m[p]
  }

  /** What a snapshot leaves: a port it shows stays, without a deadline; any other stays, with its deadline, as
      long as that is not past; a port whose deadline has been cleared is let go of when it is not shown. */
  lemma RefreshedIff(m: Ports, bound: set<PortAllocation>, timestamp: int, p: PortAllocation)
    ensures p in Refreshed(m, bound, timestamp) <==>
            p in m && (p in bound || (m[p].Some? && timestamp <= m[p].value))
    ensures p in m && p in bound ==> Refreshed(m, bound, timestamp)[p] == None
    ensures p in Refreshed(m, bound, timestamp) && p !in bound ==> Refreshed(m, bound, timestamp)[p] == m[p]
  {
  }

  /** Line 101: emplace inserts but never overwrites. */
  function Emplaced(m: Ports, port: PortAllocation, deadline: int): Ports {
    if port in m then m else m[port := Some(deadline)]
  }

  // ----- the table as an ordered sequence of entries -----

  ghost predicate Sorted(es: seq<Entry>) {
    forall i, j :: 0 <= i < j < |es| ==> Less(es[i].port, es[j].port)
  }

  ghost function View(es: seq<Entry>): Ports {
    if es == [] then map[]
    else View(es[..|es| - 1])[es[|es| - 1].port := es[|es| - 1].deadline]
  }

  ghost predicate Has(es: seq<Entry>, p: PortAllocation) {
    exists i :: 0 <= i < |es| && es[i].port == p
  }

  /** In a sorted table no two entries share a key. */
  lemma SortedDistinct(es: seq<Entry>, i: int, j: int)
    requires Sorted(es) && 0 <= i < |es| && 0 <= j < |es|
    ensures i == j <==> es[i].port == es[j].port
  {
    LessIsStrictTotalOrder(es[i].port, es[j].port, es[i].port);
  }

  lemma {:induction false} ViewContents(es: seq<Entry>)
    requires Sorted(es)
    ensures forall p :: p in View(es) <==> Has(es, p)
  {
    if es != [] {
      var init, last := es[..|es| - 1], es[|es| - 1];
      ViewContents(init);
      forall p
        ensures p in View(es) <==> Has(es, p)
      {
        if Has(init, p) {
          var i :| 0 <= i < |init| && init[i].port == p;
          assert es[i].port == p;
        }
        assert es[|es| - 1].port == last.port;
        assert forall i :: 0 <= i < |init| ==> es[i] == init[i];
      }
    }
  }

  ghost function Inserted(es: seq<Entry>, k: nat, e: Entry): seq<Entry>
    requires k <= |es|
  {
    es[..k] + [e] + es[k..]
  }

  lemma InsertedSorted(es: seq<Entry>, k: nat, e: Entry)
    requires Sorted(es) && k <= |es|
    requires forall i :: 0 <= i < k ==> Less(es[i].port, e.port)
    requires forall i :: k <= i < |es| ==> Less(e.port, es[i].port)
    ensures Sorted(Inserted(es, k, e))
  {
    var r := Inserted(es, k, e);
    forall i, j | 0 <= i < j < |r|
      ensures Less(r[i].port, r[j].port)
    {
      var a := if i < k then es[i] else if i == k then e else es[i - 1];
      var b := if j < k then es[j] else if j == k then e else es[j - 1];
      assert r[i] == a && r[j] == b;
    }
  }

  lemma {:induction false} InsertedView(es: seq<Entry>, k: nat, e: Entry)
    requires k <= |es| && e.port !in View(es)
    ensures View(Inserted(es, k, e)) == View(es)[e.port := e.deadline]
  {
    var r := Inserted(es, k, e);
    if k == |es| {
      assert r == es + [e] && r[..|es|] == es;
    } else {
      var init, last := es[..|es| - 1], es[|es| - 1];
      InsertedView(init, k, e);
      assert r[..|es|] == Inserted(init, k, e) && r[|es|] == last;
    }
  }

  /** What the refresh loop leaves of the entries, in order. */
  ghost function Kept(es: seq<Entry>, bound: set<PortAllocation>, timestamp: int): seq<Entry> {
    if es == [] then []
    else
      var e := es[|es| - 1];
      var init := Kept(es[..|es| - 1], bound, timestamp);
      if Expired(e.port, e.deadline, bound, timestamp) then init
      else init + [Entry(e.port, if e.port in bound then None else e.deadline)]
  }

  /** The ports the refresh loop gives back to the host, in order. */
  ghost function Dropped(es: seq<Entry>, bound: set<PortAllocation>, timestamp: int): seq<PortAllocation> {
    if es == [] then []
    else
      var e := es[|es| - 1];
      var init := Dropped(es[..|es| - 1], bound, timestamp);
      if Expired(e.port, e.deadline, bound, timestamp) then init + [e.port] else init
  }

  /** One turn of the loop, on the entries. */
  lemma KeptTurn(es: seq<Entry>, n: nat, bound: set<PortAllocation>, timestamp: int)
    requires n < |es|
    ensures var e := es[n];
            if Expired(e.port, e.deadline, bound, timestamp) then
              && Kept(es[..n + 1], bound, timestamp) == Kept(es[..n], bound, timestamp)
              && Dropped(es[..n + 1], bound, timestamp) == Dropped(es[..n], bound, timestamp) + [e.port]
            else
              && Kept(es[..n + 1], bound, timestamp) ==
                   Kept(es[..n], bound, timestamp) + [Entry(e.port, if e.port in bound then None else e.deadline)]
              && Dropped(es[..n + 1], bound, timestamp) == Dropped(es[..n], bound, timestamp)
  {
    assert es[..n + 1][..n] == es[..n];
  }

  lemma {:induction false} KeptSorted(es: seq<Entry>, bound: set<PortAllocation>, timestamp: int)
    requires Sorted(es)
    ensures Sorted(Kept(es, bound, timestamp))
    ensures forall k :: 0 <= k < |Kept(es, bound, timestamp)| ==> Has(es, Kept(es, bound, timestamp)[k].port)
  {
    if es != [] {
      var init, e := es[..|es| - 1], es[|es| - 1];
      var kept := Kept(init, bound, timestamp);
      KeptSorted(init, bound, timestamp);
      forall k | 0 <= k < |kept|
        ensures Less(kept[k].port, e.port) && Has(es, kept[k].port)
      {
        assert Has(init, kept[k].port);
        var i :| 0 <= i < |init| && init[i].port == kept[k].port;
        assert es[i] == init[i];
      }
      assert Has(es, e.port);
    }
  }

  lemma RefreshedInsert(m: Ports, e: Entry, bound: set<PortAllocation>, timestamp: int)
    requires e.port !in m
    ensures Refreshed(m[e.port := e.deadline], bound, timestamp) ==
              if Expired(e.port, e.deadline, bound, timestamp) then Refreshed(m, bound, timestamp)
              else Refreshed(m, bound, timestamp)[e.port := if e.port in bound then None else e.deadline]
  {
  }

  /** The loop's result, read as a map, is the comprehension. */
  lemma {:induction false} KeptIsRefreshed(es: seq<Entry>, bound: set<PortAllocation>, timestamp: int)
    requires Sorted(es)
    ensures View(Kept(es, bound, timestamp)) == Refreshed(View(es), bound, timestamp)
  {
    if es != [] {
      var init, e := es[..|es| - 1], es[|es| - 1];
      KeptIsRefreshed(init, bound, timestamp);
      ViewContents(init);
      if Has(init, e.port) {
        var i :| 0 <= i < |init| && init[i].port == e.port;
        SortedDistinct(es, i, |es| - 1);
      }
      RefreshedInsert(View(init), e, bound, timestamp);
      var kept := Kept(init, bound, timestamp);
      var e' := Entry(e.port, if e.port in bound then None else e.deadline);
      assert (kept + [e'])[..|kept|] == kept;
    }
  }

  // ----- the host channel and the tracker object -----

  datatype HostMessage = HostMessage(port: PortAllocation, allocate: bool)

  /** The hvsocket channel: `answers` is what the host says to each transaction in turn. */
  class HostChannel {
    const answers: nat -> int
    var sent: seq<HostMessage>

    constructor (answers: nat -> int)
      ensures this.answers == answers && sent == []
    {
      this.answers := answers;
      sent := [];
    }

    method Transaction(port: PortAllocation, allocate: bool) returns (result: int)
      modifies this
      ensures sent == old(sent) + [HostMessage(port, allocate)]
      ensures result == answers(|old(sent)|)
    {
      result := answers(|sent|);
      sent := sent + [HostMessage(port, allocate)];
    }
  }

  ghost function ReleaseMessages(ports: seq<PortAllocation>): seq<HostMessage> {
    seq(|ports|, i requires 0 <= i < |ports| => HostMessage(ports[i], false))
  }

  lemma ErasedAt(es: seq<Entry>, i: nat)
    requires i < |es|
    ensures var r := es[..i] + es[i + 1..]; r[..i] == es[..i] && r[i..] == es[i..][1..]
  {
  }

  lemma PassedAt(es: seq<Entry>, i: nat, e: Entry)
    requires i < |es|
    ensures es[i := e][..i + 1] == es[..i] + [e] && es[i := e][i + 1..] == es[i..][1..]
    ensures e == es[i] ==> es[i := e] == es
  {
  }

  lemma MessagesSnoc(sent: seq<HostMessage>, ports: seq<PortAllocation>, p: PortAllocation)
    ensures sent + ReleaseMessages(ports + [p]) == sent + ReleaseMessages(ports) + [HostMessage(p, false)]
  {
    assert ReleaseMessages(ports + [p]) == ReleaseMessages(ports) + [HostMessage(p, false)];
  }

  class Tracker {
    var allocatedPorts: seq<Entry>
    const host: HostChannel

    ghost predicate Valid()
      reads this
    {
      Sorted(allocatedPorts)
    }

    constructor (host: HostChannel)
      ensures Valid() && View(allocatedPorts) == map[] && this.host == host
    {
      allocatedPorts := [];
      this.host := host;
    }

    /** First index whose key is not below the given one. */
    method LowerBound(port: PortAllocation) returns (k: nat)
      requires Valid()
      ensures k <= |allocatedPorts|
      ensures forall i :: 0 <= i < k ==> Less(allocatedPorts[i].port, port)
      ensures forall i :: k <= i < |allocatedPorts| ==> !Less(allocatedPorts[i].port, port)
    {
      k := 0;
      while k < |allocatedPorts| && Less(allocatedPorts[k].port, port)
        invariant k <= |allocatedPorts|
        invariant forall i :: 0 <= i < k ==> Less(allocatedPorts[i].port, port)
      {
        k := k + 1;
      }
      forall i | k <= i < |allocatedPorts|
        ensures !Less(allocatedPorts[i].port, port)
      {
        LessIsStrictTotalOrder(allocatedPorts[k].port, allocatedPorts[i].port, port);
      }
    }

    method Contains(port: PortAllocation) returns (found: bool)
      requires Valid()
      ensures found <==> port in View(allocatedPorts)
    {
      var k := LowerBound(port);
      found := k < |allocatedPorts| && allocatedPorts[k].port == port;
      ViewContents(allocatedPorts);
      if Has(allocatedPorts, port) {
        var i :| 0 <= i < |allocatedPorts| && allocatedPorts[i].port == port;
        LessIsStrictTotalOrder(port, port, port);
        assert k <= i;
        LessIsStrictTotalOrder(allocatedPorts[k].port, allocatedPorts[i].port, port);
      }
    }

    method Emplace(port: PortAllocation, deadline: int)
      requires Valid()
      modifies this
      ensures Valid()
      ensures View(allocatedPorts) == Emplaced(old(View(allocatedPorts)), port, deadline)
    {
      var found := Contains(port);
      if found {
        return;
      }
      var k := LowerBound(port);
      ViewContents(allocatedPorts);
      forall i | k <= i < |allocatedPorts|
        ensures Less(port, allocatedPorts[i].port)
      {
        LessIsStrictTotalOrder(allocatedPorts[i].port, port, port);
      }
      var e := Entry(port, Some(deadline));
      InsertedSorted(allocatedPorts, k, e);
      InsertedView(allocatedPorts, k, e);
      allocatedPorts := allocatedPorts[..k] + [e] + allocatedPorts[k..];
    }

    /** HandleRequest and the insertion that follows it in Run (lines 94-108). */
    method HandleRequest(port: PortAllocation, now: int) returns (result: int)
      requires Valid()
      modifies this, host
      ensures Valid()
      ensures port in old(View(allocatedPorts)) ==>
                result == 0 && host.sent == old(host.sent)
                && View(allocatedPorts) == old(View(allocatedPorts))
      ensures port !in old(View(allocatedPorts)) ==>
                result == host.answers(|old(host.sent)|)
                && host.sent == old(host.sent) + [HostMessage(port, true)]
                && View(allocatedPorts) ==
                     if result == 0 then old(View(allocatedPorts))[port := Some(now + BIND_TIMEOUT)]
                     else old(View(allocatedPorts))
    {
      var found := Contains(port);
      if found {
        result := 0;
      } else {
        result := host.Transaction(port, true);
      }
      if result == 0 {
        Emplace(port, now + BIND_TIMEOUT);
      }
    }

    /** The loop of OnRefreshAllocatedPorts: `i` is the iterator, erase leaves it on the next entry. */
    method OnRefreshAllocatedPorts(bound: set<PortAllocation>, timestamp: int)
      requires Valid()
      modifies this, host
      ensures Valid()
      ensures View(allocatedPorts) == Refreshed(old(View(allocatedPorts)), bound, timestamp)
      ensures host.sent == old(host.sent) + ReleaseMessages(Dropped(old(allocatedPorts), bound, timestamp))
    {
      ghost var before := allocatedPorts;
      ghost var done := 0;
      var i := 0;
      while i < |allocatedPorts|
        invariant 0 <= done <= |before| && 0 <= i <= |allocatedPorts|
        invariant allocatedPorts[..i] == Kept(before[..done], bound, timestamp)
        invariant allocatedPorts[i..] == before[done..]
        invariant host.sent == old(host.sent) + ReleaseMessages(Dropped(before[..done], bound, timestamp))
        decreases |allocatedPorts| - i
      {
        var e := allocatedPorts[i];
        assert e == before[done];
        KeptTurn(before, done, bound, timestamp);
        if e.port !in bound {
          if e.deadline == None || e.deadline.value < timestamp {
            MessagesSnoc(old(host.sent), Dropped(before[..done], bound, timestamp), e.port);
            var result := host.Transaction(e.port, false);
            ErasedAt(allocatedPorts, i);
            allocatedPorts := allocatedPorts[..i] + allocatedPorts[i + 1..];
            done := done + 1;
            continue;
          }
          PassedAt(allocatedPorts, i, e);
        } else {
          PassedAt(allocatedPorts, i, Entry(e.port, None));
          allocatedPorts := allocatedPorts[i := Entry(e.port, None)];
        }
        i := i + 1;
        done := done + 1;
      }
      assert before[..done] == before && allocatedPorts[..i] == allocatedPorts;
      KeptSorted(before, bound, timestamp);
      KeptIsRefreshed(before, bound, timestamp);
    }
  }
}
