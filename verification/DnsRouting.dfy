/**
 Routing of DNS replies by a 32-bit id: UDP requests to their clients, TCP
 connections to their sockets. Replies come back in any order (section 7 of
 RFC 7766). Each method of the source holds its lock throughout, so it is one step.
 */
module DnsRouting {
  import opened Common

  const ID_MODULUS := 0x1_0000_0000

  // ----- the id table and its history -----

  /** An id counter and the map from live ids to whoever gets the reply. */
  datatype Table<C> = Table(next: nat, live: map<nat, C>)

  datatype Event<C> =
    | Issued(id: nat, c: C)      // the next id was taken for c
    | Closed(id: nat)            // the id was given up: tunnelling failed, or the connection ended
    | Answered(id: nat, c: C)    // a reply for the id went to c

  /** emplace keeps an entry that is already there; the counter wraps by itself. */
  function Issue<C>(t: Table<C>, c: C): Table<C> {
    Table((t.next + 1) % ID_MODULUS, if t.next in t.live then t.live else t.live[t.next := c])
  }

  /** `oneShot` tables (UDP) forget an id with its reply; TCP connections outlive theirs. */
  function Apply<C>(oneShot: bool, t: Table<C>, e: Event<C>): Table<C> {
    match e
    case Issued(_, c) => Issue(t, c)
    case Closed(id) => t.(live := t.live - {id})
    case Answered(id, _) => if oneShot then t.(live := t.live - {id}) else t
  }

  ghost function TableAfter<C>(oneShot: bool, log: seq<Event<C>>): Table<C> {
    if log == [] then Table(0, map[])
    else Apply(oneShot, TableAfter(oneShot, log[..|log| - 1]), log[|log| - 1])
  }

  ghost predicate Allowed<C>(t: Table<C>, e: Event<C>) {
    match e
    case Issued(id, _) => id == t.next
    case Closed(_) => true
    case Answered(id, c) => id in t.live && t.live[id] == c
  }

  ghost predicate Legal<C>(oneShot: bool, log: seq<Event<C>>) {
    log == [] ||
    (Legal(oneShot, log[..|log| - 1]) && Allowed(TableAfter(oneShot, log[..|log| - 1]), log[|log| - 1]))
  }

  lemma Extended<C>(oneShot: bool, log: seq<Event<C>>, e: Event<C>)
    ensures TableAfter(oneShot, log + [e]) == Apply(oneShot, TableAfter(oneShot, log), e)
    ensures Legal(oneShot, log + [e]) <==> Legal(oneShot, log) && Allowed(TableAfter(oneShot, log), e)
  {
    assert (log + [e])[..|log|] == log;
  }

  // ----- the server -----

  class DnsServer<Client, Socket> {
    var currentUdpRequestId: nat
    var udpRequests: map<nat, Client>
    var currentTcpConnectionId: nat
    var tcpConnections: map<nat, Socket>
    ghost var udpLog: seq<Event<Client>>
    ghost var tcpLog: seq<Event<Socket>>

    /** Both tables are exactly what their legal histories make of them. */
    ghost predicate Valid()
      reads this
    {
      && Legal(true, udpLog) && TableAfter(true, udpLog) == Table(currentUdpRequestId, udpRequests)
      && Legal(false, tcpLog) && TableAfter(false, tcpLog) == Table(currentTcpConnectionId, tcpConnections)
    }

    constructor ()
      ensures Valid() && udpLog == [] && tcpLog == []
    {
      currentUdpRequestId, udpRequests := 0, map[];
      currentTcpConnectionId, tcpConnections := 0, map[];
      udpLog, tcpLog := [], [];
    }

    /** HandleUdpDnsRequest up to the end of its first locked scope. */
    method HandleUdpDnsRequest(remote: Client, bytesReceived: nat) returns (requestId: Option<nat>)
      requires Valid()
      modifies this
      ensures Valid() && tcpLog == old(tcpLog)
      ensures bytesReceived == 0 ==> requestId == None && udpLog == old(udpLog)
      ensures bytesReceived > 0 ==>
                requestId == Some(old(currentUdpRequestId))
                && udpLog == old(udpLog) + [Issued(old(currentUdpRequestId), remote)]
    {
      if bytesReceived == 0 {
        return None;
      }
      var id := currentUdpRequestId;
      currentUdpRequestId := (currentUdpRequestId + 1) % ID_MODULUS;
      if id !in udpRequests {
        udpRequests := udpRequests[id := remote];
      }
      Extended(true, udpLog, Issued(id, remote));
      udpLog := udpLog + [Issued(id, remote)];
      requestId := Some(id);
    }

    /** The scope guard of HandleUdpDnsRequest when tunnelling throws. */
    method RemoveRequestOnError(id: nat)
      requires Valid()
      modifies this
      ensures Valid() && udpLog == old(udpLog) + [Closed(id)] && tcpLog == old(tcpLog)
      ensures udpRequests == old(udpRequests) - {id}
    {
      udpRequests := udpRequests - {id};
      Extended(true, udpLog, Closed(id));
      udpLog := udpLog + [Closed(id)];
    }

    method HandleUdpDnsResponse(id: nat) returns (to: Option<Client>)
      requires Valid()
      modifies this
      ensures Valid() && tcpLog == old(tcpLog)
      ensures to == (if id in old(udpRequests) then Some(old(udpRequests)[id]) else None)
      ensures udpLog == old(udpLog) + if to.Some? then [Answered(id, to.value)] else []
      ensures udpRequests == old(udpRequests) - {id}
      ensures to.Some? <==> Open(true, old(udpLog), id)
    {
      LiveIff(true, udpLog, id);
      if id !in udpRequests {
        return None;
      }
      to := Some(udpRequests[id]);
      udpRequests := udpRequests - {id};
      Extended(true, udpLog, Answered(id, to.value));
      udpLog := udpLog + [Answered(id, to.value)];
    }

    /** When the id is live, emplace drops the new socket and the guard erases the old one if epoll refuses. */
    method HandleNewTcpConnection(socket: Socket, registered: bool)
      requires Valid()
      modifies this
      ensures Valid() && udpLog == old(udpLog)
      ensures tcpLog == old(tcpLog) + [Issued(old(currentTcpConnectionId), socket)]
                        + if registered then [] else [Closed(old(currentTcpConnectionId))]
    {
      var id := currentTcpConnectionId;
      currentTcpConnectionId := (currentTcpConnectionId + 1) % ID_MODULUS;
      if id !in tcpConnections {
        tcpConnections := tcpConnections[id := socket];
      }
      Extended(false, tcpLog, Issued(id, socket));
      tcpLog := tcpLog + [Issued(id, socket)];
      if !registered {
        RemoveConnection(id);
      }
    }

    /** The scope guards that stop tracking a connection. */
    method RemoveConnection(id: nat)
      requires Valid()
      modifies this
      ensures Valid() && udpLog == old(udpLog) && tcpLog == old(tcpLog) + [Closed(id)]
      ensures tcpConnections == old(tcpConnections) - {id}
    {
      tcpConnections := tcpConnections - {id};
      Extended(false, tcpLog, Closed(id));
      tcpLog := tcpLog + [Closed(id)];
    }

    method HandleTcpDnsResponse(id: nat) returns (to: Option<Socket>)
      requires Valid()
      modifies this
      ensures Valid() && udpLog == old(udpLog)
      ensures to == (if id in old(tcpConnections) then Some(old(tcpConnections)[id]) else None)
      ensures tcpLog == old(tcpLog) + if to.Some? then [Answered(id, to.value)] else []
      ensures tcpConnections == old(tcpConnections)
      ensures to.Some? <==> Open(false, old(tcpLog), id)
    {
      LiveIff(false, tcpLog, id);
      if id !in tcpConnections {
        return None;
      }
      to := Some(tcpConnections[id]);
      Extended(false, tcpLog, Answered(id, to.value));
      tcpLog := tcpLog + [Answered(id, to.value)];
    }
  }

  // ----- the counter -----

  function Issues<C>(log: seq<Event<C>>): nat {
    if log == [] then 0 else Issues(log[..|log| - 1]) + if log[|log| - 1].Issued? then 1 else 0
  }

  lemma {:induction false} CounterCountsIssues<C>(oneShot: bool, log: seq<Event<C>>)
    ensures TableAfter(oneShot, log).next == Issues(log) % ID_MODULUS && ID_MODULUS == 0x1_0000_0000
  {
    if log != [] {
      CounterCountsIssues(oneShot, log[..|log| - 1]);
    }
  }

  lemma {:induction false} IssuesGrow<C>(log: seq<Event<C>>, j: nat)
    requires j < |log| && log[j].Issued?
    ensures Issues(log) > Issues(log[..j])
  {
    var init := log[..|log| - 1];
    if j < |init| {
      IssuesGrow(init, j);
      assert init[..j] == log[..j];
    }
  }

  // ----- who holds an id -----

  /** An event that ends what an id stood for. */
  ghost predicate Ends<C>(oneShot: bool, e: Event<C>, id: nat) {
    e.id == id && (e.Closed? || (oneShot && e.Answered?))
  }

  ghost predicate LiveBefore<C>(oneShot: bool, log: seq<Event<C>>, j: nat)
    requires j < |log|
  {
    log[j].id in TableAfter(oneShot, log[..j]).live
  }

  /** A live id was put there by one issue that found it free, and nothing has ended it since. */
  lemma {:induction false} HolderOrigin<C>(oneShot: bool, log: seq<Event<C>>, id: nat) returns (j: nat)
    requires Legal(oneShot, log) && id in TableAfter(oneShot, log).live
    ensures j < |log| && log[j] == Issued(id, TableAfter(oneShot, log).live[id])
    ensures !LiveBefore(oneShot, log, j)
    ensures forall k :: j < k < |log| ==> !Ends(oneShot, log[k], id)
    ensures forall k :: j < k < |log| && log[k].Issued? && log[k].id == id ==> LiveBefore(oneShot, log, k)
  {
    var init, e := log[..|log| - 1], log[|log| - 1];
    if id !in TableAfter(oneShot, init).live {
      j := |log| - 1;
    } else {
      j := HolderOrigin(oneShot, init, id);
      assert forall k :: 0 <= k < |init| ==> init[..k] == log[..k] && init[k] == log[k];
    }
  }

  /** Issue `j` found the id free and has not been ended since. */
  ghost predicate Holds<C>(oneShot: bool, log: seq<Event<C>>, id: nat, j: int) {
    && 0 <= j < |log| && log[j].Issued? && log[j].id == id && !LiveBefore(oneShot, log, j)
    && forall k :: j < k < |log| ==> !Ends(oneShot, log[k], id)
  }

  /** And the other way: an issue that found its id free holds it until something ends that very id. */
  lemma {:induction false} HolderStays<C>(oneShot: bool, log: seq<Event<C>>, id: nat, j: int)
    requires Legal(oneShot, log)
    ensures var t := TableAfter(oneShot, log);
            Holds(oneShot, log, id, j) ==> id in t.live && t.live[id] == log[j].c
  {
    if Holds(oneShot, log, id, j) && j < |log| - 1 {
      var init := log[..|log| - 1];
      assert init[j] == log[j] && init[..j] == log[..j];
      HolderStays(oneShot, init, id, j);
    }
  }

  ghost predicate Open<C>(oneShot: bool, log: seq<Event<C>>, id: nat) {
    exists j :: Holds(oneShot, log, id, j)
  }

  /** So an id is live exactly when some issue holds it. */
  lemma LiveIff<C>(oneShot: bool, log: seq<Event<C>>, id: nat)
    requires Legal(oneShot, log)
    ensures id in TableAfter(oneShot, log).live <==> Open(oneShot, log, id)
  {
    if id in TableAfter(oneShot, log).live {
      var j := HolderOrigin(oneShot, log, id);
      assert Holds(oneShot, log, id, j);
    } else if Open(oneShot, log, id) {
      var j :| Holds(oneShot, log, id, j);
      HolderStays(oneShot, log, id, j);
    }
  }

  /** The id about to be issued is live only if its holder is a whole number of wraps old: at least
      2^32 issues ago. While every live id is younger than that, wrapping breaks nothing. */
  lemma WrapIsHarmless<C>(oneShot: bool, log: seq<Event<C>>) returns (j: nat)
    requires Legal(oneShot, log) && TableAfter(oneShot, log).next in TableAfter(oneShot, log).live
    ensures j < |log| && log[j].Issued? && log[j].id == TableAfter(oneShot, log).next
    ensures !LiveBefore(oneShot, log, j)
    ensures forall k :: j < k < |log| ==> !Ends(oneShot, log[k], log[j].id)
    ensures Issues(log) >= Issues(log[..j]) + ID_MODULUS && (Issues(log) - Issues(log[..j])) % ID_MODULUS == 0
  {
    var t := TableAfter(oneShot, log);
    j := HolderOrigin(oneShot, log, t.next);
    EventIsAllowed(oneShot, log, j);
    CounterCountsIssues(oneShot, log);
    CounterCountsIssues(oneShot, log[..j]);
    IssuesGrow(log, j);
    assert Issues(log) % ID_MODULUS == Issues(log[..j]) % ID_MODULUS;
  }

  // ----- replies -----

  /** Every reply goes to the holder of its id: one issue that found the id free, not ended since.
      For UDP no reply lies in between, so each such issue is answered at most once. */
  lemma ReplyGoesToHolder<C>(oneShot: bool, log: seq<Event<C>>, i: nat) returns (j: nat)
    requires i < |log| && log[i].Answered?
    requires Legal(oneShot, log)
    ensures j < i && log[j] == Issued(log[i].id, log[i].c) && !LiveBefore(oneShot, log, j)
    ensures forall k :: j < k < i ==> !Ends(oneShot, log[k], log[i].id)
    ensures forall k :: j < k < i && log[k].Issued? && log[k].id == log[i].id ==> LiveBefore(oneShot, log, k)
  {
    EventIsAllowed(oneShot, log, i);
    j := HolderOrigin(oneShot, log[..i], log[i].id);
    assert forall k :: 0 <= k < i ==> log[..i][k] == log[k] && log[..i][..k] == log[..k];
  }

  ghost predicate LatestIssue<C>(log: seq<Event<C>>, i: nat, l: nat) {
    l < i < |log| && log[l].Issued? && log[l].id == log[i].id
    && forall k :: l < k < i ==> !(log[k].Issued? && log[k].id == log[i].id)
  }

  /** A reply reaches whoever was issued its id last, exactly when that issue found the id free or
      held by that same party. */
  lemma ReplyReachesLatestIff<C>(oneShot: bool, log: seq<Event<C>>, i: nat, l: nat)
    requires Legal(oneShot, log) && i < |log| && log[i].Answered? && LatestIssue(log, i, l)
    ensures log[i].c == log[l].c <==>
            !LiveBefore(oneShot, log, l) || TableAfter(oneShot, log[..l]).live[log[l].id] == log[l].c
  {
    var j := ReplyGoesToHolder(oneShot, log, i);
    if j < l {
      EventIsAllowed(oneShot, log, l);
      var j' := HolderOrigin(oneShot, log[..l], log[l].id);
      assert forall k :: 0 <= k < l ==> log[..l][k] == log[k] && log[..l][..k] == log[..k];
      assert j == j';
    }
  }

  /** Two requests are open, and the reply to the first leaves the second one open: both replies go out. */
  lemma TwoOpenRequests<C>(c: C, d: C)
    ensures var log := [Issued(0, c), Issued(1, d), Answered(0, c), Answered(1, d)];
            && Legal(true, log) && TableAfter(true, log) == Table(2, map[])
            && TableAfter(true, log[..3]) == Table(2, map[1 := d])
  {
    var a, b := [Issued(0, c)], [Issued(0, c), Issued(1, d)];
    var e, f := b + [Answered(0, c)], b + [Answered(0, c)] + [Answered(1, d)];
    Extended(true, [], Issued(0, c));
    assert [] + [Issued(0, c)] == a && TableAfter(true, a) == Table(1, map[0 := c]);
    Extended(true, a, Issued(1, d));
    assert a + [Issued(1, d)] == b && TableAfter(true, b) == Table(2, map[0 := c, 1 := d]);
    Extended(true, b, Answered(0, c));
    assert TableAfter(true, e) == Table(2, map[1 := d]);
    Extended(true, e, Answered(1, d));
    assert f == [Issued(0, c), Issued(1, d), Answered(0, c), Answered(1, d)] && f[..3] == e;
  }

  // ----- parts of a history -----

  lemma {:induction false} FrontIsLegal<C>(oneShot: bool, log: seq<Event<C>>, n: nat)
    requires Legal(oneShot, log) && n <= |log|
    ensures Legal(oneShot, log[..n])
  {
    if n == |log| {
      assert log[..n] == log;
    } else {
      FrontIsLegal(oneShot, log[..|log| - 1], n);
      assert log[..|log| - 1][..n] == log[..n];
    }
  }

  lemma EventIsAllowed<C>(oneShot: bool, log: seq<Event<C>>, i: nat)
    requires Legal(oneShot, log) && i < |log|
    ensures Legal(oneShot, log[..i]) && Allowed(TableAfter(oneShot, log[..i]), log[i])
  {
    FrontIsLegal(oneShot, log, i);
    FrontIsLegal(oneShot, log, i + 1);
    assert log[..i + 1][..i] == log[..i] && log[..i + 1][i] == log[i];
  }
}
