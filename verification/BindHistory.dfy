/** Where the events of the log come from: the steps of a run, and the listings behind a release. */
module BindHistory {
  import opened Common
  import opened PortTable
  import opened SeccompFilter
  import opened BindProtocol
  import opened BindInvariants
  import opened BindTheorems

  // ----- events -----

  /** The step that wrote an event: nothing else writes the log. */
  ghost predicate WrittenAt(s: State, a: Action, e: Event) {
    match e
    case Grant(p) => a == T(AskHost(0)) && s.tracker.Handling? && s.tracker.n.request == Some(p)
    case Track(p, at) => a == T(Emplace) && s.tracker.Granted? && s.tracker.p == p && s.clock == at
    case Confirm(p, snap) => a.T? && a.t.RefreshEntry? && a.t.q == p && s.held == Some(snap)
    case Release(p, snap, answer) => a == T(RefreshEntry(p, answer)) && s.held == Some(snap)
  }

  ghost predicate LogFollows(s: State, a: Action, s': State) {
    s'.log == s.log
    || (|s'.log| == |s.log| + 1 && s'.log[..|s.log|] == s.log && WrittenAt(s, a, s'.log[|s.log|]))
  }

  lemma RefreshWrites(s: State, a: TrackerAction)
    requires TrackerEnabled(s, a) && a.RefreshEntry?
    ensures LogFollows(s, T(a), TrackerStep(s, a))
  {
  }

  lemma TrackerWrites(s: State, a: TrackerAction)
    requires TrackerEnabled(s, a)
    ensures LogFollows(s, T(a), TrackerStep(s, a))
  {
    if a.RefreshEntry? {
      RefreshWrites(s, a);
    }
  }

  lemma LogStep(states: seq<State>, actions: seq<Action>, i: nat)
    requires IsRun(states, actions) && i < |actions|
    ensures LogFollows(states[i], actions[i], states[i + 1])
  {
    if actions[i].T? {
      TrackerWrites(states[i], actions[i].t);
    }
  }

  /** A run as far as the log is concerned. */
  ghost predicate LogRun(states: seq<State>, actions: seq<Action>) {
    && |states| == |actions| + 1 && states[0].log == []
    && forall i :: 0 <= i < |actions| ==> LogFollows(states[i], actions[i], states[i + 1])
  }

  lemma RunHasLog(states: seq<State>, actions: seq<Action>)
    requires IsRun(states, actions) && Init(states[0])
    ensures LogRun(states, actions)
  {
    forall i | 0 <= i < |actions|
      ensures LogFollows(states[i], actions[i], states[i + 1])
    {
      LogStep(states, actions, i);
    }
  }

  /** The log only grows. */
  lemma {:induction false} LogGrows(states: seq<State>, actions: seq<Action>, a: nat, b: nat)
    requires LogRun(states, actions) && a <= b < |states|
    ensures states[a].log <= states[b].log
  {
    if a < b {
      LogGrows(states, actions, a, b - 1);
      assert LogFollows(states[b - 1], actions[b - 1], states[b]);
    }
  }

  /** Every event was written at one step. */
  lemma {:induction false} EventOrigin(states: seq<State>, actions: seq<Action>, k: nat, i: nat) returns (j: nat)
    requires LogRun(states, actions) && k < |states| && i < |states[k].log|
    ensures j < k && |states[j].log| == i && WrittenAt(states[j], actions[j], states[k].log[i])
  {
    assert LogFollows(states[k - 1], actions[k - 1], states[k]);
    if i < |states[k - 1].log| {
      j := EventOrigin(states, actions, k - 1, i);
    } else {
      j := k - 1;
    }
  }

  // ----- snapshots -----

  /** The snapshot is on its way from the refresher to the tracker, or has arrived. */
  ghost predicate Underway(s: State, snap: Snapshot) {
    || s.refresher == Publishing(snap)
    || s.held == Some(snap)
    || Published(s, snap)
  }

  ghost predicate Published(s: State, snap: Snapshot) {
    exists i :: 0 <= i < |s.shared| && s.shared[i].value == Some(snap)
  }

  lemma TrackerTakesSnapshot(s: State, a: TrackerAction, snap: Snapshot)
    requires TrackerEnabled(s, a) && Underway(TrackerStep(s, a), snap)
    ensures Underway(s, snap)
  {
    if a.TakeResult? {
      assert s.shared[s.future.value].value.Some?;
    } else if a.ReplacePromise? || a.Start? || a.Rearm? {
      TrackerPublishesNothing(s, a, snap);
    }
  }

  lemma TrackerPublishesNothing(s: State, a: TrackerAction, snap: Snapshot)
    requires TrackerEnabled(s, a) && (a.ReplacePromise? || a.Start? || a.Rearm?)
    ensures Published(TrackerStep(s, a), snap) ==> Published(s, snap)
  {
    var s' := TrackerStep(s, a);
    if Published(s', snap) {
      var i :| 0 <= i < |s'.shared| && s'.shared[i].value == Some(snap);
      assert i < |s.shared| && s.shared[i].value == Some(snap);
    }
  }

  /** The refresher has the snapshot made at this very step. */
  ghost predicate StampedAt(s: State, a: Action, snap: Snapshot) {
    && a == R(Stamp) && s.refresher == Stamping(snap.ports)
    && s.clock == snap.timestamp && |s.resumes| == snap.resume + 1
  }

  lemma RefresherMakesSnapshot(s: State, a: RefresherAction, snap: Snapshot)
    requires RefresherEnabled(s, a) && Underway(RefresherStep(s, a), snap)
    ensures Underway(s, snap) || StampedAt(s, R(a), snap)
  {
    var s' := RefresherStep(s, a);
    if a.Publish? && Published(s', snap) {
      var i :| 0 <= i < |s'.shared| && s'.shared[i].value == Some(snap);
      assert i == Current(s.shared) || s.shared[i].value == Some(snap);
    }
  }

  lemma UnderwayStep(s: State, a: Action, snap: Snapshot)
    requires Enabled(s, a) && Underway(Step(s, a), snap)
    ensures Underway(s, snap) || StampedAt(s, a, snap)
  {
    match a
    case T(t) => TrackerTakesSnapshot(s, t, snap);
    case R(r) => RefresherMakesSnapshot(s, r, snap);
    case D(_) =>
    case Clock(_) =>
  }

  lemma {:induction false} StampOrigin(states: seq<State>, actions: seq<Action>, k: nat, snap: Snapshot)
    returns (m: nat)
    requires IsRun(states, actions) && Init(states[0]) && k < |states| && Underway(states[k], snap)
    ensures m < k && StampedAt(states[m], actions[m], snap)
  {
    UnderwayStep(states[k - 1], actions[k - 1], snap);
    if Underway(states[k - 1], snap) {
      m := StampOrigin(states, actions, k - 1, snap);
    } else {
      m := k - 1;
    }
  }

  lemma TrackerLeavesRefresher(s: State, a: TrackerAction)
    requires TrackerEnabled(s, a)
    ensures TrackerStep(s, a).refresher == s.refresher && |TrackerStep(s, a).resumes| == |s.resumes|
  {
  }

  /** How many dumps of the current listing are in, while it is being made or stamped. */
  ghost function DumpsIn(s: State): nat {
    match s.refresher
    case Listing(n, _) => n
    case Stamping(_) => DUMPS
    case _ => 0
  }

  ghost predicate Gathering(s: State) {
    s.refresher.Listing? || s.refresher.Stamping?
  }

  /** Nothing happened to the listing, or a dump came in, or it began. */
  ghost predicate GatheringFollows(s: State, a: Action, s': State) {
    Gathering(s') ==>
      || (s'.refresher == s.refresher && |s'.resumes| == |s.resumes|)
      || (&& a.R? && a.r.Dump? && s.refresher.Listing? && |s'.resumes| == |s.resumes|
          && DumpsIn(s') == DumpsIn(s) + 1 && s'.refresher.ports == s.refresher.ports + a.r.ports)
      || s'.refresher == Listing(0, {})
  }

  ghost predicate GatheringRun(states: seq<State>, actions: seq<Action>) {
    && |states| == |actions| + 1 && states[0].refresher == Listing(0, {})
    && forall i :: 0 <= i < |actions| ==> GatheringFollows(states[i], actions[i], states[i + 1])
  }

  lemma GatheringStep(s: State, a: Action)
    requires Enabled(s, a)
    ensures GatheringFollows(s, a, Step(s, a))
  {
    if a.T? {
      TrackerLeavesRefresher(s, a.t);
    }
  }

  lemma RunGathers(states: seq<State>, actions: seq<Action>)
    requires IsRun(states, actions) && Init(states[0])
    ensures GatheringRun(states, actions)
  {
    forall i | 0 <= i < |actions|
      ensures GatheringFollows(states[i], actions[i], states[i + 1])
    {
      GatheringStep(states[i], actions[i]);
    }
  }

  /** Step `d` is the dump of number `n` in the lap with that many promises. */
  ghost predicate DumpedAt(states: seq<State>, actions: seq<Action>, d: nat, n: nat, lap: nat) {
    && d < |actions| && d < |states| && actions[d].R? && actions[d].r.Dump?
    && states[d].refresher.Listing? && states[d].refresher.dumped == n && |states[d].resumes| == lap
  }

  /** What some dumps found, taken together. */
  ghost function Gathered(actions: seq<Action>, ds: seq<nat>): set<PortAllocation> {
    if ds == [] then {}
    else
      var d := ds[|ds| - 1];
      Gathered(actions, ds[..|ds| - 1])
      + if d < |actions| && actions[d].R? && actions[d].r.Dump? then actions[d].r.ports else {}
  }

  lemma {:induction false} DumpOrigin(states: seq<State>, actions: seq<Action>, x: nat) returns (ds: seq<nat>)
    requires GatheringRun(states, actions) && x < |states| && Gathering(states[x])
    ensures |ds| == DumpsIn(states[x]) && states[x].refresher.ports == Gathered(actions, ds)
    ensures forall n :: 0 <= n < |ds| ==> ds[n] < x && DumpedAt(states, actions, ds[n], n, |states[x].resumes|)
  {
    if states[x].refresher == Listing(0, {}) {
      ds := [];
    } else {
      assert GatheringFollows(states[x - 1], actions[x - 1], states[x]);
      ds := DumpOrigin(states, actions, x - 1);
      if states[x].refresher != states[x - 1].refresher {
        assert DumpedAt(states, actions, x - 1, |ds|, |states[x].resumes|);
        assert (ds + [x - 1])[..|ds|] == ds;
        ds := ds + [x - 1];
      }
    }
  }

  // ----- laps of the refresher -----

  /** How far the refresher has come: its laps, each of nine stages. */
  ghost function Progress(s: State): nat {
    9 * |s.resumes| + match s.refresher
                      case Listing(n, _) => n
                      case Stamping(_) => 4
                      case Publishing(_) => 5
                      case GettingFuture => 6
                      case Parked => 7
                      case Sleeping => 8
  }

  ghost predicate Advances(s: State, a: Action, s': State) {
    Progress(s) <= Progress(s') && (a.R? ==> Progress(s) < Progress(s'))
  }

  ghost predicate Advancing(states: seq<State>, actions: seq<Action>) {
    && |states| == |actions| + 1
    && forall i :: 0 <= i < |actions| ==> Advances(states[i], actions[i], states[i + 1])
  }

  lemma ProgressStep(s: State, a: Action)
    requires Enabled(s, a)
    ensures Advances(s, a, Step(s, a))
  {
    if a.T? {
      TrackerLeavesRefresher(s, a.t);
    }
  }

  lemma RunAdvances(states: seq<State>, actions: seq<Action>)
    requires IsRun(states, actions)
    ensures Advancing(states, actions)
  {
    forall i | 0 <= i < |actions|
      ensures Advances(states[i], actions[i], states[i + 1])
    {
      ProgressStep(states[i], actions[i]);
    }
  }

  lemma {:induction false} ProgressGrows(states: seq<State>, actions: seq<Action>, a: nat, b: nat)
    requires Advancing(states, actions) && a <= b < |states|
    ensures Progress(states[a]) <= Progress(states[b])
    ensures a < b && actions[a].R? ==> Progress(states[a]) < Progress(states[b])
  {
    if a < b {
      ProgressGrows(states, actions, a, b - 1);
      assert Advances(states[b - 1], actions[b - 1], states[b]);
    }
  }

  /** Steps `ds` are the dumps of the listing, and step `m` the reading of the time, that made the snapshot. */
  ghost predicate MadeAt(states: seq<State>, actions: seq<Action>, snap: Snapshot, ds: seq<nat>, m: nat) {
    && |states| == |actions| + 1 && m < |actions| && |ds| == DUMPS
    && (forall n :: 0 <= n < DUMPS ==> ds[n] < m && DumpedAt(states, actions, ds[n], n, snap.resume + 1))
    && snap.ports == Gathered(actions, ds)
    && actions[m] == R(Stamp) && states[m].refresher.Stamping?
    && |states[m].resumes| == snap.resume + 1 && states[m].clock == snap.timestamp
  }

  /** In the lap of that number the dump `n` is in and the time not yet read. */
  ghost predicate PastDump(s: State, resume: nat, n: nat) {
    Gathering(s) && |s.resumes| == resume + 1 && DumpsIn(s) > n
  }

  /** In every run, every snapshot stems from the four dumps of one listing and one later reading of the
      clock; the refresher is past a dump and before that reading exactly from the one step to the other. */
  lemma SnapshotOrigin(states: seq<State>, actions: seq<Action>, k: nat, snap: Snapshot)
    returns (ds: seq<nat>, m: nat)
    requires IsRun(states, actions) && Init(states[0]) && k < |states| && Underway(states[k], snap)
    ensures m < k && MadeAt(states, actions, snap, ds, m)
    ensures forall n, x :: 0 <= n < DUMPS && 0 <= x < |states| ==>
              (ds[n] < x <= m <==> PastDump(states[x], snap.resume, n))
  {
    m := StampOrigin(states, actions, k, snap);
    RunGathers(states, actions);
    ds := DumpOrigin(states, actions, m);
    RunAdvances(states, actions);
    forall n, x | 0 <= n < DUMPS && 0 <= x < |states|
      ensures ds[n] < x <= m <==> PastDump(states[x], snap.resume, n)
    {
      GatheringSpan(states, actions, snap, ds, m, n, x);
    }
  }

  lemma GatheringSpan(states: seq<State>, actions: seq<Action>, snap: Snapshot, ds: seq<nat>, m: nat, n: nat, x: nat)
    requires Advancing(states, actions) && MadeAt(states, actions, snap, ds, m) && n < DUMPS && x < |states|
    ensures ds[n] < x <= m <==> PastDump(states[x], snap.resume, n)
  {
    assert DumpedAt(states, actions, ds[n], n, snap.resume + 1);
    if x <= ds[n] {
      ProgressGrows(states, actions, x, ds[n]);
    } else {
      ProgressGrows(states, actions, ds[n], x);
      if x <= m {
        ProgressGrows(states, actions, x, m);
      } else {
        ProgressGrows(states, actions, m, x);
      }
    }
  }

  /** One lap makes one listing. */
  lemma OneListingPerLap(states: seq<State>, actions: seq<Action>,
                         a: Snapshot, da: seq<nat>, ma: nat, b: Snapshot, db: seq<nat>, mb: nat)
    requires Advancing(states, actions) && MadeAt(states, actions, a, da, ma) && MadeAt(states, actions, b, db, mb)
    requires a.resume == b.resume
    ensures a.ports == b.ports
  {
    forall n | 0 <= n < DUMPS
      ensures da[n] == db[n]
    {
      assert DumpedAt(states, actions, da[n], n, a.resume + 1) && DumpedAt(states, actions, db[n], n, b.resume + 1);
      if da[n] < db[n] {
        ProgressGrows(states, actions, da[n], db[n]);
      } else if db[n] < da[n] {
        ProgressGrows(states, actions, db[n], da[n]);
      }
    }
    assert da == db;
  }

  /** A held snapshot is that of the current lap, whose stamping is over. */
  lemma HeldIsCurrent(s: State)
    requires Handshake(s) && s.held.Some?
    ensures |s.resumes| == s.held.value.resume + 1 && Progress(s) >= 9 * |s.resumes| + 6
  {
  }

  /** Once a held snapshot has shown a port, only a listing made later can lack it. */
  lemma LackingIsLater(states: seq<State>, actions: seq<Action>, c: nat, r: nat, ds: seq<nat>, m: nat,
                       p: PortAllocation)
    requires IsRun(states, actions) && Init(states[0]) && c < r < |states|
    requires states[c].held.Some? && p in states[c].held.value.ports
    requires states[r].held.Some? && p !in states[r].held.value.ports
    requires MadeAt(states, actions, states[r].held.value, ds, m)
    ensures forall n :: 0 <= n < DUMPS ==> c < ds[n]
  {
    RunsKeepInv(states, actions, c);
    RunsKeepInv(states, actions, r);
    RunAdvances(states, actions);
    var da, ma := SnapshotOrigin(states, actions, c, states[c].held.value);
    LaterLap(states, actions, c, r, da, ma, ds, m, p);
  }

  lemma LaterLap(states: seq<State>, actions: seq<Action>, c: nat, r: nat, da: seq<nat>, ma: nat,
                 ds: seq<nat>, m: nat, p: PortAllocation)
    requires Advancing(states, actions) && c < r < |states| && Handshake(states[c]) && Handshake(states[r])
    requires states[c].held.Some? && p in states[c].held.value.ports
    requires states[r].held.Some? && p !in states[r].held.value.ports
    requires MadeAt(states, actions, states[c].held.value, da, ma)
    requires MadeAt(states, actions, states[r].held.value, ds, m)
    ensures forall n :: 0 <= n < DUMPS ==> c < ds[n]
  {
    var a, b := states[c].held.value, states[r].held.value;
    HeldIsCurrent(states[c]);
    HeldIsCurrent(states[r]);
    ProgressGrows(states, actions, c, r);
    if a.resume == b.resume {
      OneListingPerLap(states, actions, a, da, ma, b, ds, m);
    } else {
      forall n | 0 <= n < DUMPS
        ensures c < ds[n]
      {
        assert DumpedAt(states, actions, ds[n], n, b.resume + 1);
        if ds[n] <= c {
          ProgressGrows(states, actions, ds[n], c);
        }
      }
    }
  }

  // ----- releases -----

  ghost predicate ClockNeverGoesBack(states: seq<State>) {
    forall a, b :: 0 <= a <= b < |states| ==> states[a].clock <= states[b].clock
  }

  /** The steps behind a release of port `p`, the event `i` of the log: it was inserted at step `t` and not
      touched until step `r` released it, on what was listed at the steps `ds` and stamped at step `m`. */
  ghost predicate ReleasedBy(states: seq<State>, actions: seq<Action>, log: seq<Event>, i: nat,
                             t: nat, ds: seq<nat>, m: nat, r: nat) {
    && |states| == |actions| + 1 && i < |log| && log[i].Release? && t < r < |actions| && m < r
    && |states[t].log| < i == |states[r].log|
    && actions[t] == T(Emplace) && states[t].tracker.Granted? && states[t].tracker.p == log[i].p
    && actions[r] == T(RefreshEntry(log[i].p, log[i].answer)) && states[r].held == Some(log[i].snap)
    && (forall e :: |states[t].log| < e < i ==> !Touches(log[e], log[i].p))
    && MadeAt(states, actions, log[i].snap, ds, m)
  }

  /** In every run, every release has such steps; the listing lacks the port; and unless a snapshot has shown
      the port since it was inserted, the stamp is more than sixty seconds later than the insertion. */
  lemma ReleaseInRun(states: seq<State>, actions: seq<Action>, k: nat, i: nat)
    returns (t: nat, ds: seq<nat>, m: nat, r: nat)
    requires IsRun(states, actions) && Init(states[0]) && k < |states|
    requires i < |states[k].log| && states[k].log[i].Release?
    ensures r < k && ReleasedBy(states, actions, states[k].log, i, t, ds, m, r)
    ensures var log, p := states[k].log, states[k].log[i].p;
            && p !in log[i].snap.ports
            && (ConfirmedBetween(log, |states[t].log|, i, p) || states[t].clock + BIND_TIMEOUT < states[m].clock)
  {
    RunsKeepInv(states, actions, k);
    RunHasLog(states, actions);
    var j := ReleaseIsJustified(states[k].log, i);
    r := EventOrigin(states, actions, k, i);
    t := EventOrigin(states, actions, k, j);
    ds, m := SnapshotOrigin(states, actions, r, states[k].log[i].snap);
    if r <= t {
      LogGrows(states, actions, r, t);
    }
  }

  /** A port that a snapshot has shown is released only on a listing made after that snapshot was used. */
  lemma ConfirmedIsListedLater(states: seq<State>, actions: seq<Action>, k: nat, i: nat,
                               t: nat, ds: seq<nat>, m: nat, r: nat)
    requires IsRun(states, actions) && Init(states[0]) && r < k < |states|
    requires ReleasedBy(states, actions, states[k].log, i, t, ds, m, r)
    requires ConfirmedBetween(states[k].log, |states[t].log|, i, states[k].log[i].p)
    ensures forall n :: 0 <= n < DUMPS ==> t < ds[n]
  {
    var log, p := states[k].log, states[k].log[i].p;
    RunsKeepInv(states, actions, k);
    RunHasLog(states, actions);
    var e :| |states[t].log| < e < i && 0 <= e < |log| && log[e].Confirm? && log[e].p == p;
    LegalPrefix(log, e);
    LegalPrefix(log, i);
    var c := EventOrigin(states, actions, k, e);
    if c <= t {
      LogGrows(states, actions, c, t);
    }
    if r <= c {
      LogGrows(states, actions, r, c);
    }
    LackingIsLater(states, actions, c, r, ds, m, p);
  }

  /** In every run whose clock does not go back: a dump of the listing a port is released on was made before
      the port was inserted, if and only if at the insertion the refresher was past that very dump and had
      not yet read the time for its listing. */
  lemma ListedBeforeInsertedIff(states: seq<State>, actions: seq<Action>, k: nat, i: nat)
    returns (t: nat, ds: seq<nat>, m: nat, r: nat)
    requires IsRun(states, actions) && Init(states[0]) && k < |states| && ClockNeverGoesBack(states)
    requires i < |states[k].log| && states[k].log[i].Release?
    ensures r < k && ReleasedBy(states, actions, states[k].log, i, t, ds, m, r)
    ensures forall n :: 0 <= n < DUMPS ==>
              (ds[n] < t <==> PastDump(states[t], states[k].log[i].snap.resume, n))
  {
    t, ds, m, r := ReleaseInRun(states, actions, k, i);
    RunAdvances(states, actions);
    forall n | 0 <= n < DUMPS
      ensures ds[n] < t <==> PastDump(states[t], states[k].log[i].snap.resume, n)
    {
      GatheringSpan(states, actions, states[k].log[i].snap, ds, m, n, t);
      if ConfirmedBetween(states[k].log, |states[t].log|, i, states[k].log[i].p) {
        ConfirmedIsListedLater(states, actions, k, i, t, ds, m, r);
      }
    }
  }
}
