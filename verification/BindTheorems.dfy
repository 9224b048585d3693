/** What every run of the bind-tracking protocol guarantees. */
module BindTheorems {
  import opened Common
  import opened PortTable
  import opened SeccompFilter
  import opened BindProtocol
  import opened BindInvariants

  // ----- legal logs -----

  /** The grants and releases of one port, in order. */
  ghost function Dealings(log: seq<Event>, p: PortAllocation): seq<Event> {
    if log == [] then []
    else
      var e := log[|log| - 1];
      Dealings(log[..|log| - 1], p) + if (e.Grant? || e.Release?) && e.p == p then [e] else []
  }

  ghost predicate PendingGrant(log: seq<Event>, p: PortAllocation) {
    log != [] && log[|log| - 1] == Grant(p)
  }

  /** Grants and releases of a port strictly alternate, grant first; the port is tracked (or about
      to be) exactly after an odd number of them, and reserved exactly when the last was a grant or
      a release the host refused. */
  lemma {:induction false} DealingsAlternate(log: seq<Event>, p: PortAllocation)
    requires LegalLog(log)
    ensures var ds := Dealings(log, p);
            && (forall k :: 0 <= k < |ds| ==> (ds[k].Grant? <==> k % 2 == 0))
            && (|ds| % 2 == 1 <==> p in TrackedAfter(log) || PendingGrant(log, p))
            && (forall k :: 0 <= k < |ds| ==> ds[k].Grant? || ds[k].Release?)
            && (p in ReservedAfter(log) <==>
                  ds != [] && (ds[|ds| - 1].Grant? || ds[|ds| - 1].answer != 0))
  {
    if log != [] {
      DealingsAlternate(log[..|log| - 1], p);
    }
  }

  /** So every tracked port is reserved, whatever the host does with releases. */
  lemma TrackedIsReserved(log: seq<Event>)
    requires LegalLog(log)
    ensures TrackedAfter(log).Keys <= ReservedAfter(log)
  {
    forall p | p in TrackedAfter(log)
      ensures p in ReservedAfter(log)
    {
      DealingsAlternate(log, p);
    }
  }

  /** The host holds a port the tracker has let go of exactly when it refused the last release. */
  lemma LeakedIffReleaseRefused(log: seq<Event>, p: PortAllocation)
    requires LegalLog(log)
    ensures var ds := Dealings(log, p);
            p in ReservedAfter(log) && p !in TrackedAfter(log) && !PendingGrant(log, p) <==>
            ds != [] && ds[|ds| - 1].Release? && ds[|ds| - 1].answer != 0
  {
    DealingsAlternate(log, p);
  }

  ghost predicate HostHonoursReleases(log: seq<Event>) {
    forall i :: 0 <= i < |log| && log[i].Release? ==> log[i].answer == 0
  }

  lemma {:induction false} DealingsInLog(log: seq<Event>, p: PortAllocation)
    ensures forall k :: 0 <= k < |Dealings(log, p)| ==> Dealings(log, p)[k] in log
  {
    if log != [] {
      DealingsInLog(log[..|log| - 1], p);
    }
  }

  /** With a host that honours releases, both sides hold the same ports. */
  lemma HonestHostMirrorsTracker(log: seq<Event>)
    requires LegalLog(log) && HostHonoursReleases(log)
    ensures forall p :: p in ReservedAfter(log) <==> p in TrackedAfter(log) || PendingGrant(log, p)
  {
    forall p
      ensures p in ReservedAfter(log) <==> p in TrackedAfter(log) || PendingGrant(log, p)
    {
      DealingsAlternate(log, p);
      DealingsInLog(log, p);
    }
  }

  ghost predicate Touches(e: Event, p: PortAllocation) {
    e.p == p && (e.Track? || e.Release?)
  }

  ghost predicate ConfirmedBetween(log: seq<Event>, lo: int, hi: int, p: PortAllocation) {
    exists k :: lo < k < hi && 0 <= k < |log| && log[k].Confirm? && log[k].p == p
  }

  /** Where a tracked entry comes from: its one insertion, and whether it has been seen bound since. */
  lemma {:induction false} EntryOrigin(log: seq<Event>, p: PortAllocation) returns (j: nat)
    requires LegalLog(log) && p in TrackedAfter(log)
    ensures j < |log| && log[j].Track? && log[j].p == p
    ensures forall k :: j < k < |log| ==> !Touches(log[k], p)
    ensures TrackedAfter(log)[p] ==
              if ConfirmedBetween(log, j, |log|, p) then None else Some(log[j].at + BIND_TIMEOUT)
  {
    var init, e := log[..|log| - 1], log[|log| - 1];
    if e.Track? && e.p == p {
      j := |log| - 1;
    } else {
      j := EntryOrigin(init, p);
      assert forall k :: 0 <= k < |init| ==> log[k] == init[k];
      if e.Confirm? && e.p == p {
        assert log[|log| - 1].Confirm?;
      } else if ConfirmedBetween(init, j, |init|, p) {
        var k :| j < k < |init| && init[k].Confirm? && init[k].p == p;
        assert log[k].Confirm? && log[k].p == p;
      }
    }
  }

  lemma {:induction false} LegalPrefix(log: seq<Event>, i: nat)
    requires LegalLog(log) && i <= |log|
    ensures LegalLog(log[..i])
    ensures i < |log| ==> Allowed(log[..i], log[i])
  {
    if i == |log| {
      assert log[..i] == log;
    } else if i + 1 == |log| {
    } else {
      LegalPrefix(log[..|log| - 1], i);
      assert log[..|log| - 1][..i] == log[..i];
    }
  }

  /** A port is released only by a snapshot that lacks it, and, unless some snapshot has shown it
      since its insertion, only by one stamped later than the insertion plus sixty seconds. */
  lemma ReleaseIsJustified(log: seq<Event>, i: nat) returns (j: nat)
    requires LegalLog(log) && i < |log| && log[i].Release?
    ensures j < i && log[j].Track? && log[j].p == log[i].p
    ensures forall k :: j < k < i ==> !Touches(log[k], log[i].p)
    ensures log[i].p !in log[i].snap.ports
    ensures ConfirmedBetween(log, j, i, log[i].p) || log[j].at + BIND_TIMEOUT < log[i].snap.timestamp
  {
    LegalPrefix(log, i);
    j := EntryOrigin(log[..i], log[i].p);
    assert forall k :: 0 <= k < i ==> log[..i][k] == log[k];
    if ConfirmedBetween(log[..i], j, i, log[i].p) {
      var k :| j < k < i && log[..i][k].Confirm? && log[..i][k].p == log[i].p;
      assert log[k].Confirm?;
    }
  }

  // ----- every run -----

  /** In every state of every run, every tracked port is reserved on the host, the grants and releases
      of each port alternate, and with a host that honours releases nothing else is reserved. */
  lemma PortSafety(states: seq<State>, actions: seq<Action>, k: nat)
    requires IsRun(states, actions) && Init(states[0]) && k < |states|
    ensures var s := states[k];
            && s.tracked.Keys <= s.reserved
            && (forall p, i :: 0 <= i < |Dealings(s.log, p)| ==> (Dealings(s.log, p)[i].Grant? <==> i % 2 == 0))
            && (HostHonoursReleases(s.log) ==>
                  s.reserved == s.tracked.Keys + if s.tracker.Granted? then {s.tracker.p} else {})
  {
    RunsKeepInv(states, actions, k);
    var s := states[k];
    TrackedIsReserved(s.log);
    forall p
      ensures forall i :: 0 <= i < |Dealings(s.log, p)| ==> (Dealings(s.log, p)[i].Grant? <==> i % 2 == 0)
    {
      DealingsAlternate(s.log, p);
    }
    if HostHonoursReleases(s.log) {
      HonestHostMirrorsTracker(s.log);
    }
  }

  /** State `s` and action `a` are those in which a bind was decided for the reason given: it named no
      port, its port was in the table, the host had just granted it, or the host refused it now. */
  ghost predicate DecidedAt(s: State, a: Action, d: Decision) {
    match d.basis
    case LetThrough => a == T(PassUnparsed) && s.tracker == Handling(d.n) && d.n.request == None && d.result == 0
    case AlreadyTracked =>
      && a == T(PassTracked) && s.tracker == Handling(d.n) && d.result == 0
      && d.n.request.Some? && d.n.request.value in s.tracked
    case HostAnswered(answer) =>
      && d.n.request.Some? && d.n.request.value !in s.tracked && d.result == answer
      && if answer == 0 then a == T(Emplace) && s.tracker == Granted(d.n, d.n.request.value)
                             && PendingGrant(s.log, d.n.request.value)
         else a == T(AskHost(answer)) && s.tracker == Handling(d.n)
  }

  ghost predicate DecisionsFollow(s: State, a: Action, s': State) {
    s'.decisions == s.decisions
    || (|s'.decisions| == |s.decisions| + 1 && s'.decisions[..|s.decisions|] == s.decisions
        && DecidedAt(s, a, s'.decisions[|s.decisions|]))
  }

  lemma TrackerDecides(s: State, a: TrackerAction)
    requires PhaseFits(s) && TrackerEnabled(s, a)
    requires a.PassUnparsed? || a.PassTracked? || a.AskHost? || a.Emplace?
    ensures DecisionsFollow(s, T(a), TrackerStep(s, a))
  {
  }

  lemma TrackerOnlyThenDecides(s: State, a: TrackerAction)
    requires TrackerEnabled(s, a) && !a.PassUnparsed? && !a.PassTracked? && !a.AskHost? && !a.Emplace?
    ensures TrackerStep(s, a).decisions == s.decisions
  {
  }

  lemma DecisionStep(states: seq<State>, actions: seq<Action>, i: nat)
    requires IsRun(states, actions) && i < |actions| && PhaseFits(states[i])
    ensures DecisionsFollow(states[i], actions[i], states[i + 1])
  {
    var s, a := states[i], actions[i];
    if a.T? {
      if a.t.PassUnparsed? || a.t.PassTracked? || a.t.AskHost? || a.t.Emplace? {
        TrackerDecides(s, a.t);
      } else {
        TrackerOnlyThenDecides(s, a.t);
      }
    }
  }

  /** In every run, the i-th decision was taken at one step, for the reason it records. */
  lemma {:induction false} DecisionOrigin(states: seq<State>, actions: seq<Action>, k: nat, i: nat) returns (j: nat)
    requires IsRun(states, actions) && Init(states[0]) && k < |states| && i < |states[k].decisions|
    ensures j < k && |states[j].decisions| == i && DecidedAt(states[j], actions[j], states[k].decisions[i])
  {
    RunsKeepInv(states, actions, k - 1);
    DecisionStep(states, actions, k - 1);
    if i < |states[k - 1].decisions| {
      j := DecisionOrigin(states, actions, k - 1, i);
    } else {
      j := k - 1;
    }
  }

  ghost predicate DecidedEarlier(states: seq<State>, actions: seq<Action>, k: nat, i: nat)
    requires |states| == |actions| + 1 && k < |states| && i < |states[k].decisions|
  {
    exists j :: 0 <= j < k && |states[j].decisions| == i
                && DecidedAt(states[j], actions[j], states[k].decisions[i])
  }

  /** In every state of every run, the mailboxes are never both full, every notification received
      but the one in hand has been answered once and in order, and the answers to binds are, in
      order, the tracker's decisions on those same notifications, each taken at one earlier step for
      the reason it records. */
  lemma EveryCallAnsweredOnce(states: seq<State>, actions: seq<Action>, k: nat)
    requires IsRun(states, actions) && Init(states[0]) && k < |states|
    ensures var s := states[k];
            && !(s.request.Some? && s.reply.Some?)
            && |s.received| == |s.answers| + (if s.dispatcher == Waiting then 0 else 1)
            && (forall i :: 0 <= i < |s.answers| ==> s.answers[i].n == s.received[i])
            && BindAnswers(s.handlers, s.answers) <= Verdicts(s.decisions)
            && |s.decisions| <= |BindAnswers(s.handlers, s.answers)| + 1
            && (forall i :: 0 <= i < |s.decisions| ==> DecidedEarlier(states, actions, k, i))
  {
    RunsKeepInv(states, actions, k);
    forall i | 0 <= i < |states[k].decisions|
      ensures DecidedEarlier(states, actions, k, i)
    {
      var j := DecisionOrigin(states, actions, k, i);
      assert DecidedAt(states[j], actions[j], states[k].decisions[i]);
    }
  }

  /** In every run, what the kernel was told about the i-th bind carries that call's id. At the step that
      decided it, the call goes ahead exactly when it named no port, or its port was in the table, or the
      host had just granted it; otherwise that step was the host's refusal, with the error told. */
  lemma BindProceedsIff(states: seq<State>, actions: seq<Action>, k: nat, i: nat) returns (j: nat)
    requires IsRun(states, actions) && Init(states[0]) && k < |states|
    requires i < |BindAnswers(states[k].handlers, states[k].answers)|
    ensures j < k && |states[j].decisions| == i
    ensures var answer := BindAnswers(states[k].handlers, states[k].answers)[i];
            var n, response, s := answer.n, Respond(answer), states[j];
            && InHand(s.tracker) && s.tracker.n == n && response.id == n.id && response.val == 0
            && (response.continues <==>
                  || n.request == None
                  || n.request.value in s.tracked
                  || PendingGrant(s.log, n.request.value))
            && (!response.continues ==> actions[j] == T(AskHost(-response.error)))
  {
    RunsKeepInv(states, actions, k);
    var s := states[k];
    assert BindAnswers(s.handlers, s.answers)[i] == Verdicts(s.decisions)[i];
    j := DecisionOrigin(states, actions, k, i);
    RunsKeepInv(states, actions, j);
  }

  /** Whenever a zero reply is posted for a parsed port, that port is tracked and reserved. */
  lemma ZeroReplyMeansReserved(states: seq<State>, actions: seq<Action>, k: nat)
    requires IsRun(states, actions) && Init(states[0]) && k < |actions| && actions[k] == T(PostReply)
    ensures var n := states[k].tracker.n;
            && states[k].dispatcher == AwaitingReply(n)
            && (states[k + 1].reply == Some(0) && n.request.Some? ==>
                  n.request.value in states[k + 1].tracked && n.request.value in states[k + 1].reserved)
  {
    RunsKeepInv(states, actions, k);
    PortSafety(states, actions, k);
  }

  /** In every state of every run, no promise has had two get_future or two set_value calls; the
      refresher waits to be resumed exactly while a result is published or held; and at the loop
      head a held result means no port is tracked, so with ports tracked a snapshot is on its way. */
  lemma RefresherNeverStranded(states: seq<State>, actions: seq<Action>, k: nat)
    requires IsRun(states, actions) && Init(states[0]) && k < |states|
    ensures var s := states[k];
            && (forall i :: 0 <= i < |s.shared| ==> s.shared[i].futures <= 1 && s.shared[i].sets <= 1)
            && (forall i :: 0 <= i < |s.resumes| ==> s.resumes[i].futures <= 1 && s.resumes[i].sets <= 1)
            && s.shared != [] && s.resumes != []
            && (AwaitingResume(s) <==> s.held.Some? || s.shared[Current(s.shared)].value.Some?)
            && (AtLoopHead(s.tracker) && s.tracked != map[] ==>
                  s.held == None && (ResultReady(s) || !AwaitingResume(s)))
  {
    RunsKeepInv(states, actions, k);
  }

  /** The tracker replaces or re-reads the shared promise only while the refresher cannot touch it. */
  lemma PromiseNeverContended(states: seq<State>, actions: seq<Action>, k: nat)
    requires IsRun(states, actions) && Init(states[0]) && k < |actions|
    requires actions[k] in {T(ReplacePromise), T(Rearm), T(Resume)}
    ensures states[k].resumes != [] && AwaitingResume(states[k])
  {
    RunsKeepInv(states, actions, k);
  }

  // ----- progress -----

  /** An action the tracker can take now. */
  ghost function SomeTrackerAction(s: State): TrackerAction {
    match s.tracker
    case Starting => Start
    case LoopHead => if s.request.Some? then ReadRequest else BeginWait
    case InTryGet => ReadTimeout
    case Handling(n) =>
      if n.request == None then PassUnparsed
      else if n.request.value in s.tracked then PassTracked else AskHost(0)
    case Granted(_, _) => Emplace
    case Replying(_, _) => PostReply
    case Polling(_) => if ResultReady(s) then TakeResult else NoResult
    case Replacing(_) => ReplacePromise
    case Refreshing(todo) => if todo == {} then RefreshEnd else var q :| q in todo; RefreshEntry(q, 0)
    case Rearming => if s.held.Some? && s.tracked != map[] then Rearm else StayParked
    case Resuming => Resume
  }

  /** The tracker never blocks: in every state it has a step, and posting never waits. */
  lemma TrackerNeverBlocks(s: State)
    requires Inv(s)
    ensures TrackerEnabled(s, SomeTrackerAction(s))
    ensures s.dispatcher.Posting? ==> DispatcherEnabled(s, Post)
    ensures s.dispatcher.AwaitingReply? && s.reply.Some? ==> DispatcherEnabled(s, GetReply)
  {
  }

  /** How many tracker steps can pass before the reply to the call in flight is posted. */
  ghost function Distance(s: State): nat {
    match s.tracker
    case Replying(_, _) => 1
    case Granted(_, _) => 2
    case Handling(_) => 3
    case LoopHead => 4
    case Starting => 5
    case Resuming => 5
    case Rearming => 6
    case Refreshing(todo) => 7 + |todo|
    case Replacing(_) => 8 + |s.tracked|
    case Polling(_) => 9 + |s.tracked|
    case InTryGet => 10 + |s.tracked|
  }

  ghost predicate Unanswered(s: State) {
    s.dispatcher.AwaitingReply? && s.reply == None
  }

  /** While a call waits, each tracker step brings the reply nearer and no other step moves it away. */
  lemma DistanceShrinks(s: State, a: Action)
    requires OneCallInFlight(s) && Enabled(s, a) && Unanswered(s)
    ensures a.T? && Unanswered(Step(s, a)) ==> Distance(Step(s, a)) < Distance(s)
    ensures a == T(PostReply) <==> !Unanswered(Step(s, a))
    ensures !a.T? ==> Distance(Step(s, a)) == Distance(s)
  {
    if a.T? {
      if a.t.TakeResult? || a.t.ReplacePromise? || a.t.RefreshEntry? || a.t.RefreshEnd? {
        RefreshShrinks(s, a.t);
      } else {
        LoopShrinks(s, a.t);
      }
    } else {
      OthersKeepDistance(s, a);
    }
  }

  lemma RefreshShrinks(s: State, a: TrackerAction)
    requires TrackerEnabled(s, a) && Unanswered(s)
    requires a.TakeResult? || a.ReplacePromise? || a.RefreshEntry? || a.RefreshEnd?
    ensures Unanswered(TrackerStep(s, a)) && Distance(TrackerStep(s, a)) < Distance(s)
  {
    if a.ReplacePromise? {
      assert |s.tracked.Keys| == |s.tracked|;
    } else if a.RefreshEntry? {
      EntryShrinks(s, a);
    }
  }

  lemma EntryShrinks(s: State, a: TrackerAction)
    requires TrackerEnabled(s, a) && Unanswered(s) && a.RefreshEntry?
    ensures Unanswered(TrackerStep(s, a)) && Distance(TrackerStep(s, a)) < Distance(s)
  {
    var s' := TrackerStep(s, a);
    assert s'.tracker == Refreshing(s.tracker.todo - {a.q}) && s'.dispatcher == s.dispatcher && s'.reply == s.reply;
  }

  lemma LoopShrinks(s: State, a: TrackerAction)
    requires OneCallInFlight(s) && TrackerEnabled(s, a) && Unanswered(s)
    requires !a.TakeResult? && !a.ReplacePromise? && !a.RefreshEntry? && !a.RefreshEnd?
    ensures Unanswered(TrackerStep(s, a)) <==> a != PostReply
    ensures a != PostReply ==> Distance(TrackerStep(s, a)) < Distance(s)
  {
  }

  lemma OthersKeepDistance(s: State, a: Action)
    requires Enabled(s, a) && Unanswered(s) && !a.T?
    ensures Unanswered(Step(s, a)) && Distance(Step(s, a)) == Distance(s)
  {
  }

  function TrackerSteps(actions: seq<Action>): nat {
    if actions == [] then 0
    else TrackerSteps(actions[..|actions| - 1]) + if actions[|actions| - 1].T? then 1 else 0
  }

  /** Each tracker step shortens the way to the reply, and no other step changes it. */
  ghost predicate Shrinking(states: seq<State>, actions: seq<Action>) {
    && |states| == |actions| + 1
    && forall i :: 0 <= i < |actions| ==> ShrinksAt(states[i], actions[i], states[i + 1])
  }

  ghost predicate ShrinksAt(s: State, a: Action, s': State) {
    if a.T? then Distance(s') < Distance(s) else Distance(s') == Distance(s)
  }

  lemma {:induction false} StepsCounted(states: seq<State>, actions: seq<Action>)
    requires Shrinking(states, actions)
    ensures TrackerSteps(actions) + Distance(states[|actions|]) <= Distance(states[0])
    decreases |actions|
  {
    if actions != [] {
      var k := |actions| - 1;
      assert ShrinksAt(states[k], actions[k], states[k + 1]);
      ShrinkingPrefix(states, actions, k);
      StepsCounted(states[..k + 1], actions[..k]);
    }
  }

  lemma ShrinkingPrefix(states: seq<State>, actions: seq<Action>, k: nat)
    requires Shrinking(states, actions) && k <= |actions|
    ensures Shrinking(states[..k + 1], actions[..k])
  {
    var states', actions' := states[..k + 1], actions[..k];
    forall i | 0 <= i < |actions'|
      ensures ShrinksAt(states'[i], actions'[i], states'[i + 1])
    {
      assert states'[i] == states[i] && states'[i + 1] == states[i + 1] && actions'[i] == actions[i];
    }
  }

  lemma {:induction false} InvAlong(states: seq<State>, actions: seq<Action>, k: nat)
    requires IsRun(states, actions) && Inv(states[0]) && k < |states|
    ensures Inv(states[k])
  {
    if k > 0 {
      InvAlong(states, actions, k - 1);
      InvKept(states[k - 1], actions[k - 1]);
    }
  }

  lemma WaitShrinks(states: seq<State>, actions: seq<Action>)
    requires IsRun(states, actions) && Inv(states[0])
    requires forall i :: 0 <= i < |states| ==> Unanswered(states[i])
    ensures Shrinking(states, actions)
  {
    forall i | 0 <= i < |actions|
      ensures ShrinksAt(states[i], actions[i], states[i + 1])
    {
      InvAlong(states, actions, i);
      assert Unanswered(states[i]) && Unanswered(states[i + 1]);
      DistanceShrinks(states[i], actions[i]);
    }
  }

  /** Every posted bind is answered: in any continuation of a run, whatever the other parties do,
      the reply is posted before the tracker has taken Distance many steps. */
  lemma BindAnsweredInTime(states: seq<State>, actions: seq<Action>)
    requires IsRun(states, actions) && Inv(states[0])
    requires forall i :: 0 <= i < |states| ==> Unanswered(states[i])
    ensures TrackerSteps(actions) + Distance(states[|actions|]) <= Distance(states[0])
    ensures TrackerSteps(actions) < 11 + |states[0].tracked|
    ensures Inv(states[|actions|])
  {
    InvAlong(states, actions, |actions|);
    WaitShrinks(states, actions);
    StepsCounted(states, actions);
    TodoBound(states[0]);
  }

  lemma TodoBound(s: State)
    requires Inv(s)
    ensures s.tracker.Refreshing? ==> |s.tracker.todo| <= |s.tracked|
    ensures Distance(s) <= 10 + |s.tracked|
  {
    if s.tracker.Refreshing? {
      SubsetSize(s.tracker.todo, s.tracked.Keys);
      assert |s.tracked.Keys| == |s.tracked|;
    }
  }

  lemma {:induction false} SubsetSize<T>(a: set<T>, b: set<T>)
    requires a <= b
    ensures |a| <= |b|
  {
    assert b == a + (b - a);
  }

  // ----- the refresh phase as one map operation -----

  /** The table once the entries still to be visited have been treated. */
  ghost function Treated(m: Ports, todo: set<PortAllocation>, snap: Snapshot): Ports {
    map p | p in m && !(p in todo && Expired(p, m[p], snap.ports, snap.timestamp)) ::
      if p in todo && p in snap.ports then None else m[p]
  }

  lemma RefreshEntryTreated(s: State, q: PortAllocation, answer: int)
    requires TrackerEnabled(s, RefreshEntry(q, answer))
    ensures var s' := TrackerStep(s, RefreshEntry(q, answer));
            Treated(s'.tracked, s'.tracker.todo, s.held.value) == Treated(s.tracked, s.tracker.todo, s.held.value)
  {
  }

  lemma {:induction false} RefreshPhaseTreats(states: seq<State>, actions: seq<Action>, k: nat)
    requires IsRun(states, actions) && states[0].held.Some? && 1 <= k < |states|
    requires actions[0] == T(ReplacePromise)
    requires forall i :: 1 <= i <= k ==> states[i].tracker.Refreshing?
    ensures states[k].held == states[0].held
    ensures var snap := states[0].held.value;
            Treated(states[k].tracked, states[k].tracker.todo, snap)
              == Refreshed(states[0].tracked, snap.ports, snap.timestamp)
  {
    if k > 1 {
      RefreshPhaseTreats(states, actions, k - 1);
      var a := actions[k - 1];
      assert Enabled(states[k - 1], a) && states[k] == Step(states[k - 1], a);
      if a.T? {
        assert a.t.RefreshEntry?;
        RefreshEntryTreated(states[k - 1], a.t.q, a.t.answer);
      }
    }
  }

  /** From taking a snapshot to the end of the loop, in any order of entries and however the other
      parties interleave, the table becomes exactly its comprehension over the snapshot. */
  lemma RefreshPhaseIsRefreshed(states: seq<State>, actions: seq<Action>, k: nat)
    requires IsRun(states, actions) && Inv(states[0]) && 1 <= k < |states|
    requires actions[0] == T(ReplacePromise)
    requires forall i :: 1 <= i <= k ==> states[i].tracker.Refreshing?
    requires states[k].tracker.todo == {}
    ensures states[0].held.Some? && states[k].held == states[0].held
    ensures var snap := states[0].held.value;
            states[k].tracked == Refreshed(states[0].tracked, snap.ports, snap.timestamp)
  {
    RefreshPhaseTreats(states, actions, k);
    assert Treated(states[k].tracked, {}, states[0].held.value) == states[k].tracked;
  }

  // ----- what a zero reply is worth -----

  /** No snapshot stamped up to `limit` can make the tracker give up the port. */
  ghost predicate ShieldedUntil(m: Ports, p: PortAllocation, limit: int) {
    forall bound, timestamp :: p !in bound && timestamp <= limit ==> p in Refreshed(m, bound, timestamp)
  }

  /** The comment on HandleRequest says a zero reply renews the port's timeout. It does so exactly
      when the port was not tracked, or its deadline already was at least that far away. */
  lemma ZeroReplyShieldsIff(m: Ports, p: PortAllocation, now: int)
    ensures ShieldedUntil(Emplaced(m, p, now + BIND_TIMEOUT), p, now + BIND_TIMEOUT) <==>
            p !in m || (m[p].Some? && m[p].value >= now + BIND_TIMEOUT)
  {
    var m', limit := Emplaced(m, p, now + BIND_TIMEOUT), now + BIND_TIMEOUT;
    if p in m && !(m[p].Some? && m[p].value >= limit) {
      assert p !in Refreshed(m', {}, limit);
    }
  }

  /** The state a list of actions leads to, if each is enabled in its turn. */
  ghost function Final(s: State, actions: seq<Action>): Option<State> {
    if actions == [] then Some(s)
    else
      var u := Final(s, actions[..|actions| - 1]);
      var a := actions[|actions| - 1];
      if u.Some? && Enabled(u.value, a) then Some(Step(u.value, a)) else None
  }

  lemma Follow(s: State, actions: seq<Action>, t: State, a: Action) returns (actions': seq<Action>, t': State)
    requires Final(s, actions) == Some(t) && Enabled(t, a)
    ensures t' == Step(t, a) && actions' == actions + [a] && Final(s, actions') == Some(t')
  {
    actions', t' := actions + [a], Step(t, a);
    assert actions'[..|actions|] == actions;
  }

  ghost predicate Idle(s: State) {
    && s.dispatcher == Waiting && s.request == None && s.reply == None
    && s.tracker == LoopHead && s.held == None && !ResultReady(s)
  }

  lemma GrantedTurn(s0: State, prefix: seq<Action>, s: State, n: Notification)
    returns (actions: seq<Action>, t: State)
    requires Final(s0, prefix) == Some(s) && Idle(s) && BindHandled(s, n)
    requires n.request.Some? && n.request.value !in s.tracked
    ensures prefix <= actions && Final(s0, actions) == Some(t)
    ensures var p := n.request.value;
            t == s.(dispatcher := AwaitingReply(n), received := s.received + [n], tracker := Replying(n, 0),
                    reserved := s.reserved + {p}, tracked := s.tracked[p := Some(s.clock + BIND_TIMEOUT)],
                    log := s.log + [Grant(p), Track(p, s.clock)],
                    decisions := s.decisions + [Decision(n, 0, HostAnswered(0))])
  {
    actions, t := Follow(s0, prefix, s, D(Receive(n, 0)));
    actions, t := Follow(s0, actions, t, D(Post));
    actions, t := Follow(s0, actions, t, T(ReadRequest));
    actions, t := Follow(s0, actions, t, T(AskHost(0)));
    actions, t := Follow(s0, actions, t, T(Emplace));
  }

  lemma PassedTurn(s0: State, prefix: seq<Action>, s: State, n: Notification)
    returns (actions: seq<Action>, t: State)
    requires Final(s0, prefix) == Some(s) && Idle(s) && BindHandled(s, n)
    requires n.request.Some? && n.request.value in s.tracked
    ensures prefix <= actions && Final(s0, actions) == Some(t)
    ensures t == s.(dispatcher := AwaitingReply(n), received := s.received + [n], tracker := Replying(n, 0),
                    decisions := s.decisions + [Decision(n, 0, AlreadyTracked)])
  {
    actions, t := Follow(s0, prefix, s, D(Receive(n, 0)));
    actions, t := Follow(s0, actions, t, D(Post));
    actions, t := Follow(s0, actions, t, T(ReadRequest));
    actions, t := Follow(s0, actions, t, T(PassTracked));
  }

  lemma DeliveredTurn(s0: State, prefix: seq<Action>, s: State) returns (actions: seq<Action>, t: State)
    requires Final(s0, prefix) == Some(s) && s.dispatcher.AwaitingReply? && s.reply == None
    requires s.tracker.Replying? && s.held == None && !ResultReady(s)
    ensures prefix <= actions && Final(s0, actions) == Some(t)
    ensures t == s.(dispatcher := Waiting, tracker := LoopHead,
                    answers := s.answers + [Answer(s.dispatcher.n, s.tracker.result)])
  {
    actions, t := Follow(s0, prefix, s, T(PostReply));
    actions, t := Follow(s0, actions, t, D(GetReply));
    actions, t := Follow(s0, actions, t, D(Send));
    actions, t := Follow(s0, actions, t, T(NoResult));
    actions, t := Follow(s0, actions, t, T(StayParked));
  }

  lemma TakenTurn(s0: State, prefix: seq<Action>, s: State) returns (actions: seq<Action>, t: State)
    requires Final(s0, prefix) == Some(s) && Idle(s) && s.refresher.Publishing?
    requires s.shared != [] && s.future == Some(Current(s.shared))
    ensures prefix <= actions && Final(s0, actions) == Some(t)
    ensures t.tracker == Replacing(false) && t.held == Some(s.refresher.snap)
    ensures t.tracked == s.tracked && t.log == s.log && t.decisions == s.decisions && t.clock == s.clock
  {
    actions, t := Follow(s0, prefix, s, R(Publish));
    actions, t := Follow(s0, actions, t, T(BeginWait));
    actions, t := Follow(s0, actions, t, T(ReadTimeout));
    actions, t := Follow(s0, actions, t, T(TakeResult));
  }

  lemma ReleaseTurn(s0: State, prefix: seq<Action>, s: State, p: PortAllocation)
    returns (actions: seq<Action>, t: State)
    requires Final(s0, prefix) == Some(s) && Idle(s) && s.refresher.Publishing?
    requires s.shared != [] && s.future == Some(Current(s.shared))
    requires p in s.tracked && Expired(p, s.tracked[p], s.refresher.snap.ports, s.refresher.snap.timestamp)
    ensures prefix <= actions && Final(s0, actions) == Some(t)
    ensures t.log == s.log + [Release(p, s.refresher.snap, 0)] && t.decisions == s.decisions && t.clock == s.clock
  {
    actions, t := TakenTurn(s0, prefix, s);
    actions, t := Follow(s0, actions, t, T(ReplacePromise));
    actions, t := Follow(s0, actions, t, T(RefreshEntry(p, 0)));
  }

  lemma ListingTurn(s0: State, prefix: seq<Action>, s: State) returns (actions: seq<Action>, t: State)
    requires Final(s0, prefix) == Some(s) && s.refresher == Listing(0, {})
    ensures actions == prefix + [R(Dump({})), R(Dump({})), R(Dump({})), R(Dump({}))]
    ensures Final(s0, actions) == Some(t) && t == s.(refresher := Stamping({}))
  {
    EmptyDump(s);
    actions, t := Follow(s0, prefix, s, R(Dump({})));
    EmptyDump(t);
    actions, t := Follow(s0, actions, t, R(Dump({})));
    EmptyDump(t);
    actions, t := Follow(s0, actions, t, R(Dump({})));
    EmptyDump(t);
    actions, t := Follow(s0, actions, t, R(Dump({})));
  }

  lemma EmptyDump(s: State)
    requires s.refresher.Listing? && s.refresher.ports == {}
    ensures RefresherStep(s, Dump({})) ==
              s.(refresher := if s.refresher.dumped == 3 then Stamping({}) else Listing(s.refresher.dumped + 1, {}))
  {
    assert s.refresher.ports + {} == {};
  }

  lemma FirstBind(s0: State, n: Notification) returns (actions: seq<Action>, t: State)
    requires Init(s0) && s0.clock == 0 && BindHandled(s0, n) && n.request.Some?
    ensures Final(s0, actions) == Some(t)
    ensures var p := n.request.value;
            t == s0.(tracker := LoopHead, future := Some(0), shared := [Promise(1, 0, None)],
                     received := [n], answers := [Answer(n, 0)], reserved := {p},
                     tracked := map[p := Some(60)], log := [Grant(p), Track(p, 0)],
                     decisions := [Decision(n, 0, HostAnswered(0))])
  {
    actions, t := Follow(s0, [], s0, T(Start));
    assert t == s0.(tracker := LoopHead, future := Some(0), shared := [Promise(1, 0, None)]);
    actions, t := GrantedTurn(s0, actions, t, n);
    assert t.tracked == map[n.request.value := Some(60)] && t.reserved == {n.request.value};
    actions, t := DeliveredTurn(s0, actions, t);
  }

  /** A run that contradicts the comment: at time 61 a port tracked since time 0 gets a zero reply,
      and the next turn of the loop releases it on a snapshot stamped at that same time. */
  lemma ZeroReplyThenRelease(s0: State, p: PortAllocation, n: Notification)
    returns (actions: seq<Action>, s: State)
    requires Init(s0) && s0.clock == 0 && BindHandled(s0, n) && n.request == Some(p)
    ensures Final(s0, actions) == Some(s) && s.clock == 61
    ensures s.decisions == [Decision(n, 0, HostAnswered(0)), Decision(n, 0, AlreadyTracked)]
    ensures s.log == [Grant(p), Track(p, 0), Release(p, Snapshot({}, 61, 0), 0)]
  {
    actions, s := FirstBind(s0, n);
    actions, s := Follow(s0, actions, s, Clock(61));
    actions, s := ListingTurn(s0, actions, s);
    actions, s := Follow(s0, actions, s, R(Stamp));
    actions, s := PassedTurn(s0, actions, s, n);
    actions, s := DeliveredTurn(s0, actions, s);
    actions, s := ReleaseTurn(s0, actions, s, p);
  }

  /** Start, and then the whole of a listing that finds nothing. */
  ghost function EarlyListing(): seq<Action> {
    [T(Start), R(Dump({})), R(Dump({})), R(Dump({})), R(Dump({}))]
  }

  lemma StartThenList(s0: State) returns (actions: seq<Action>, t: State)
    requires Init(s0)
    ensures actions == EarlyListing() && Final(s0, actions) == Some(t)
    ensures t == s0.(tracker := LoopHead, future := Some(0), shared := [Promise(1, 0, None)],
                     refresher := Stamping({}))
  {
    actions, t := Follow(s0, [], s0, T(Start));
    assert t == s0.(tracker := LoopHead, future := Some(0), shared := [Promise(1, 0, None)]);
    actions, t := ListingTurn(s0, actions, t);
  }

  lemma BindAfterListing(s0: State, n: Notification) returns (actions: seq<Action>, t: State)
    requires Init(s0) && s0.clock == 0 && BindHandled(s0, n) && n.request.Some?
    ensures EarlyListing() <= actions && Final(s0, actions) == Some(t)
    ensures var p := n.request.value;
            t == s0.(tracker := LoopHead, future := Some(0), shared := [Promise(1, 0, None)], refresher := Stamping({}),
                     received := [n], answers := [Answer(n, 0)], reserved := {p},
                     tracked := map[p := Some(60)], log := [Grant(p), Track(p, 0)],
                     decisions := [Decision(n, 0, HostAnswered(0))])
  {
    actions, t := StartThenList(s0);
    actions, t := GrantedTurn(s0, actions, t, n);
    assert t.tracked == map[n.request.value := Some(60)] && t.reserved == {n.request.value};
    actions, t := DeliveredTurn(s0, actions, t);
  }

  /** A run in which a port is released on a listing made before the port was even asked for: the sockets
      are listed at time 0, and the time of the listing is read at time 61. */
  lemma ListedBeforeInserted(s0: State, p: PortAllocation, n: Notification)
    returns (actions: seq<Action>, s: State)
    requires Init(s0) && s0.clock == 0 && BindHandled(s0, n) && n.request == Some(p)
    ensures EarlyListing() <= actions && Final(s0, actions) == Some(s)
    ensures s.log == [Grant(p), Track(p, 0), Release(p, Snapshot({}, 61, 0), 0)]
  {
    actions, s := BindAfterListing(s0, n);
    actions, s := Follow(s0, actions, s, Clock(61));
    actions, s := Follow(s0, actions, s, R(Stamp));
    actions, s := ReleaseTurn(s0, actions, s, p);
  }

  // ----- the hook and the protocol -----

  /** With the registered handlers, the dispatcher hands a notified call to the tracker exactly when it is a bind. */
  lemma NotifiedBindsReachTracker(s: State, t: Target, d: SeccompData, n: Notification, ioctlResult: int)
    requires s.handlers == Handlers(t) && s.dispatcher == Waiting
    requires WellFormed(d) && n.nr == d.nr && Execute(Filter(t), d, 0, 0) == Some(RET_USER_NOTIF)
    ensures var s' := DispatcherStep(s, Receive(n, ioctlResult));
            s'.dispatcher == if IsBind(t, d) then Posting(n) else Sending(n, ioctlResult)
  {
    NotifiedCallsAreHandled(t, d);
  }
}
