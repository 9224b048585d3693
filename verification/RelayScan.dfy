/** ScanProcNetTCP: keeping the host's relays in step with the listening sockets. */
module RelayScan {
  import opened Common

  /** The part of a sockaddr_storage that IsSameSockAddr compares: structural equality is that comparison. */
  datatype SockAddr = V4(address: nat, port: nat) | V6(parts: (nat, nat, nat, nat), port: nat)

  datatype Message = Start(a: SockAddr) | Stop(a: SockAddr)

  // ----- what a list of messages means to the host -----

  ghost function Relayed(log: seq<Message>): set<SockAddr> {
    if log == [] then {}
    else
      var s, m := Relayed(log[..|log| - 1]), log[|log| - 1];
      if m.Start? then s + {m.a} else s - {m.a}
  }

  /** A relay is started only when it is not running and stopped only when it is. */
  ghost predicate Sensible(log: seq<Message>) {
    log == [] ||
    (&& Sensible(log[..|log| - 1])
     && (log[|log| - 1].Start? <==> log[|log| - 1].a !in Relayed(log[..|log| - 1])))
  }

  lemma Sent(log: seq<Message>, m: Message)
    ensures Relayed(log + [m]) == if m.Start? then Relayed(log) + {m.a} else Relayed(log) - {m.a}
    ensures Sensible(log + [m]) <==> Sensible(log) && (m.Start? <==> m.a !in Relayed(log))
  {
    assert (log + [m])[..|log|] == log;
  }

  /** The messages about one address. */
  ghost function About(log: seq<Message>, a: SockAddr): seq<Message> {
    if log == [] then []
    else About(log[..|log| - 1], a) + if log[|log| - 1].a == a then [log[|log| - 1]] else []
  }

  /** For every address a sensible log alternates Start, Stop, Start, ... */
  lemma {:induction false} MessagesAlternate(log: seq<Message>, a: SockAddr)
    requires Sensible(log)
    ensures forall k :: 0 <= k < |About(log, a)| ==> (About(log, a)[k].Start? <==> k % 2 == 0)
    ensures a in Relayed(log) <==> |About(log, a)| % 2 == 1
  {
    if log != [] {
      MessagesAlternate(log[..|log| - 1], a);
    }
  }

  ghost predicate NoDuplicates(s: seq<SockAddr>) {
    forall i, j :: 0 <= i < j < |s| ==> s[i] != s[j]
  }

  ghost function Elements(s: seq<SockAddr>): set<SockAddr> {
    set a | a in s
  }

  // ----- the scanner -----

  class Scanner {
    var relays: seq<SockAddr>
    /** Whether the n-th message can be sent. */
    const sendable: nat -> bool
    ghost var log: seq<Message>  // what was sent
    var attempts: nat

    /** The relay list has no duplicates and is what the messages sent so far amount to. */
    ghost predicate Valid()
      reads this
    {
      NoDuplicates(relays) && Elements(relays) == Relayed(log) && Sensible(log)
    }

    /** What is left of that when a Stop could not be sent: the host may relay more than the list says, but
        nothing that is listening now. */
    ghost predicate Sound(sockets: seq<SockAddr>)
      reads this
    {
      && NoDuplicates(relays) && Sensible(log) && Elements(relays) <= Relayed(log)
      && Relayed(log) * Elements(sockets) <= Elements(relays)
    }

    constructor (sendable: nat -> bool)
      ensures Valid() && relays == [] && log == [] && attempts == 0 && this.sendable == sendable
    {
      relays, attempts, log := [], 0, [];
      this.sendable := sendable;
    }

    method Send(m: Message) returns (ok: bool)
      modifies this`log, this`attempts
      ensures attempts == old(attempts) + 1
      ensures ok == sendable(old(attempts))
      ensures log == if ok then old(log) + [m] else old(log)
    {
      ok := sendable(attempts);
      attempts := attempts + 1;
      if ok {
        log := log + [m];
      }
    }

    /** Every message tried since the count was `from` went out. */
    ghost predicate AllSent(from: nat)
      reads this
    {
      Sendable(from, attempts)
    }

    ghost predicate Sendable(from: nat, to: nat) {
      forall k :: from <= k < to ==> sendable(k)
    }

    lemma SendableNext(from: nat, to: nat)
      requires from <= to
      ensures Sendable(from, to + 1) <==> Sendable(from, to) && sendable(to)
    {
    }

    /** StopHostListener for one entry, with `others` the relays that stay. */
    method StopEntry(entry: SockAddr, sockets: seq<SockAddr>, ghost others: set<SockAddr>) returns (ok: bool)
      requires Sensible(log) && entry in Relayed(log) && entry !in others && entry !in sockets
      requires others <= Relayed(log) && Relayed(log) * Elements(sockets) <= others
      modifies this`log, this`attempts
      ensures attempts == old(attempts) + 1 && ok == sendable(old(attempts))
      ensures log == if ok then old(log) + [Stop(entry)] else old(log)
      ensures Sensible(log) && others <= Relayed(log) && Relayed(log) * Elements(sockets) <= others
      ensures Relayed(log) == if ok then old(Relayed(log)) - {entry} else old(Relayed(log))
    {
      Sent(log, Stop(entry));
      ok := Send(Stop(entry));
    }

    /** erase_if: stops the relays whose socket is gone. A relay is dropped even if Stop cannot be sent. */
    method StopMissing(sockets: seq<SockAddr>) returns (ok: bool)
      requires Valid()
      modifies this
      ensures NoDuplicates(relays) && Elements(relays) == Elements(old(relays)) * Elements(sockets)
      ensures Sound(sockets) && (ok ==> Valid())
      ensures attempts >= old(attempts) && (ok <==> AllSent(old(attempts)))
      ensures old(log) <= log
      ensures forall k :: |old(log)| <= k < |log| ==>
                log[k].Stop? && log[k].a in old(relays) && log[k].a !in sockets
    {
      ok := true;
      ghost var before := relays;
      var kept := [];
      for i := 0 to |relays|
        invariant relays == before
        invariant NoDuplicates(kept) && Elements(kept) == Elements(before[..i]) * Elements(sockets)
        invariant Sensible(log) && Elements(kept) + Elements(before[i..]) <= Relayed(log)
        invariant Relayed(log) * Elements(sockets) <= Elements(kept) + Elements(before[i..])
        invariant ok ==> Relayed(log) == Elements(kept) + Elements(before[i..])
        invariant attempts >= old(attempts) && (ok <==> AllSent(old(attempts)))
        invariant old(log) <= log
        invariant forall k :: |old(log)| <= k < |log| ==> log[k].Stop? && log[k].a in before && log[k].a !in sockets
      {
        var entry := relays[i];
        Split(before, i);
        if entry in sockets {
          assert entry !in Elements(kept);
          Appended(kept, entry);
          kept := kept + [entry];
        } else {
          SendableNext(old(attempts), attempts);
          var sent := StopEntry(entry, sockets, Elements(kept) + Elements(before[i + 1..]));
          ok := ok && sent;
        }
      }
      assert before[..|before|] == before;
      relays := kept;
    }

    /** for_each: starts a relay for every socket that has none. */
    method StartNew(sockets: seq<SockAddr>) returns (ok: bool)
      requires Sound(sockets) && Elements(relays) <= Elements(sockets)
      modifies this
      ensures Sound(sockets) && (old(Valid()) ==> Valid())
      ensures ok ==> Elements(relays) == Elements(sockets)
      ensures attempts >= old(attempts) && (ok <==> AllSent(old(attempts)))
      ensures old(log) <= log && old(relays) <= relays
      ensures forall k :: |old(log)| <= k < |log| ==>
                log[k].Start? && log[k].a in sockets && log[k].a !in old(relays)
    {
      ok := true;
      for i := 0 to |sockets|
        invariant Sound(sockets) && Elements(relays) <= Elements(sockets)
        invariant old(Valid()) ==> Valid()
        invariant ok ==> Elements(sockets[..i]) <= Elements(relays)
        invariant attempts >= old(attempts) && (ok <==> AllSent(old(attempts)))
        invariant old(log) <= log && old(relays) <= relays
        invariant forall k :: |old(log)| <= k < |log| ==>
                    log[k].Start? && log[k].a in sockets && log[k].a !in old(relays)
      {
        var socket := sockets[i];
        assert sockets[..i + 1] == sockets[..i] + [socket];
        if socket !in relays {
          Sent(log, Start(socket));
          SendableNext(old(attempts), attempts);
          var sent := Send(Start(socket));
          if sent {
            Appended(relays, socket);
            relays := relays + [socket];
          } else {
            ok := false;
          }
        }
      }
      assert sockets[..|sockets|] == sockets;
    }

    /** One turn of the loop. When every message is sent, the relays are exactly the listening sockets
        and the messages sent over the whole run amount to them. Start and Stop alternate for every address,
        sent or not, and a socket that goes on listening gets no message. */
    method Scan(sockets: seq<SockAddr>) returns (ok: bool)
      requires Valid()
      modifies this
      ensures NoDuplicates(relays) && Sensible(log)
      ensures ok ==> Valid() && Elements(relays) == Elements(sockets)
      ensures attempts >= old(attempts) && (ok <==> AllSent(old(attempts)))
      ensures old(log) <= log
      ensures forall k :: |old(log)| <= k < |log| ==>
                if log[k].Start? then log[k].a in sockets && log[k].a !in old(relays)
                else log[k].a in old(relays) && log[k].a !in sockets
    {
      var stopped := StopMissing(sockets);
      ghost var middle, tried := log, attempts;
      assert forall a :: a in sockets && a in old(relays) ==> a in Elements(relays);
      var started := StartNew(sockets);
      assert forall k :: 0 <= k < |middle| ==> log[k] == middle[k];
      ok := stopped && started;
      assert Sendable(old(attempts), attempts) <==> Sendable(old(attempts), tried) && Sendable(tried, attempts);
    }

    /** Every run of scans; a scan that could open neither file is None and ends the run with 1. While
        every message can be sent, after each scan the relays have no duplicates, are the current
        listening sockets and are what the messages amount to; the first scan with a failure ends the run
        with -1. The messages sent are sensible in any case. */
    method Run(scans: seq<Option<seq<SockAddr>>>) returns (result: Option<int>, done: nat)
      requires Valid()
      modifies this
      ensures done <= |scans| && forall k :: 0 <= k < done ==> scans[k].Some?
      ensures result == Some(-1) <==> !AllSent(old(attempts))
      ensures Sensible(log)
      ensures result != Some(-1) ==>
                Valid() && (done > 0 ==> Elements(relays) == Elements(scans[done - 1].value))
      ensures result == Some(1) ==> done < |scans| && scans[done] == None
      ensures result == None ==> done == |scans|
      ensures result in {None, Some(1), Some(-1)}
    {
      done := 0;
      while done < |scans|
        invariant done <= |scans| && Valid() && AllSent(old(attempts)) && attempts >= old(attempts)
        invariant forall k :: 0 <= k < done ==> scans[k].Some?
        invariant done > 0 ==> Elements(relays) == Elements(scans[done - 1].value)
      {
        if scans[done] == None {
          return Some(1), done;
        }
        ghost var tried := attempts;
        var ok := Scan(scans[done].value);
        if !ok {
          ghost var k :| tried <= k < attempts && !sendable(k);
          return Some(-1), done;
        }
        done := done + 1;
      }
      result := None;
    }
  }

  lemma Appended(s: seq<SockAddr>, a: SockAddr)
    requires NoDuplicates(s) && a !in s
    ensures NoDuplicates(s + [a]) && Elements(s + [a]) == Elements(s) + {a}
  {
  }

  lemma Split(s: seq<SockAddr>, i: nat)
    requires i < |s| && NoDuplicates(s)
    ensures Elements(s[..i + 1]) == Elements(s[..i]) + {s[i]}
    ensures Elements(s[i..]) == Elements(s[i + 1..]) + {s[i]}
    ensures s[i] !in s[..i] && s[i] !in s[i + 1..]
  {
    assert s[..i + 1] == s[..i] + [s[i]] && s[i..] == [s[i]] + s[i + 1..];
  }
}
