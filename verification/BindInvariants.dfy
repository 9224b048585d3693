/** Inductive invariants of the bind-tracking protocol, over every interleaving. */
module BindInvariants {
  import opened Common
  import opened PortTable
  import opened SeccompFilter
  import opened BindProtocol

  // ----- one call in flight -----

  predicate AtLoopHead(t: TrackerPhase) {
    t.LoopHead? || t.InTryGet?
  }

  predicate InHand(t: TrackerPhase) {
    t.Handling? || t.Granted? || t.Replying?
  }

  /** A posted call is in exactly one place: the request mailbox, the tracker's hands or the reply mailbox. */
  ghost predicate OneCallInFlight(s: State) {
    match s.dispatcher
    case AwaitingReply(n) =>
      && BindHandled(s, n)
      && (|| (s.request == Some(n) && s.reply == None && !InHand(s.tracker))
          || (s.request == None && s.reply == None && InHand(s.tracker) && s.tracker.n == n)
          || (s.request == None && s.reply.Some? && !InHand(s.tracker)))
    case _ =>
      && s.request == None && s.reply == None && !InHand(s.tracker)
      && (s.dispatcher.Posting? ==> BindHandled(s, s.dispatcher.n))
  }

  // ----- notifications, decisions and answers -----

  function Asked(answers: seq<Answer>): seq<Notification> {
    seq(|answers|, i requires 0 <= i < |answers| => answers[i].n)
  }

  function Verdicts(ds: seq<Decision>): seq<Answer> {
    seq(|ds|, i requires 0 <= i < |ds| => Answer(ds[i].n, ds[i].result))
  }

  /** The answers that went through the tracker. */
  function BindAnswers(handlers: map<Word, Handler>, answers: seq<Answer>): seq<Answer> {
    if answers == [] then []
    else
      var last := answers[|answers| - 1];
      BindAnswers(handlers, answers[..|answers| - 1])
      + if last.n.nr in handlers && handlers[last.n.nr] == BindHandler then [last] else []
  }

  /** The verdict that has been reached but not yet sent. */
  function Undelivered(s: State): seq<Answer> {
    match s.dispatcher
    case Sending(n, result) => if BindHandled(s, n) then [Answer(n, result)] else []
    case AwaitingReply(n) =>
      if s.reply.Some? then [Answer(n, s.reply.value)]
      else if s.tracker.Replying? then [Answer(n, s.tracker.result)]
      else []
    case _ => []
  }

  predicate Justified(d: Decision) {
    match d.basis
    case LetThrough => d.n.request == None && d.result == 0
    case AlreadyTracked => d.n.request.Some? && d.result == 0
    case HostAnswered(answer) => d.n.request.Some? && d.result == answer
  }

  ghost predicate Accounted(s: State) {
    && s.received == Asked(s.answers) + (if s.dispatcher == Waiting then [] else [s.dispatcher.n])
    && Verdicts(s.decisions) == BindAnswers(s.handlers, s.answers) + Undelivered(s)
    && forall i :: 0 <= i < |s.decisions| ==> Justified(s.decisions[i])
  }

  // ----- ports -----

  ghost function TableAfter(m: Ports, e: Event): Ports {
    match e
    case Grant(_) => m
    case Track(p, at) => m[p := Some(at + BIND_TIMEOUT)]
    case Confirm(p, _) => m[p := None]
    case Release(p, _, _) => m - {p}
  }

  /** A refused release leaves the port reserved. */
  ghost function HostAfter(r: set<PortAllocation>, e: Event): set<PortAllocation> {
    match e
    case Grant(p) => r + {p}
    case Release(p, _, answer) => if answer == 0 then r - {p} else r
    case _ => r
  }

  /** The tracker's table, recomputed from the log alone. */
  ghost function TrackedAfter(log: seq<Event>): Ports {
    if log == [] then map[] else TableAfter(TrackedAfter(log[..|log| - 1]), log[|log| - 1])
  }

  /** What the host holds, recomputed from the log alone. */
  ghost function ReservedAfter(log: seq<Event>): set<PortAllocation> {
    if log == [] then {} else HostAfter(ReservedAfter(log[..|log| - 1]), log[|log| - 1])
  }

  /** What a log must have seen before an event may follow it. */
  ghost predicate Allowed(log: seq<Event>, e: Event) {
    match e
    case Grant(p) => p !in TrackedAfter(log) && !(log != [] && log[|log| - 1].Grant?)
    case Track(p, _) => log != [] && log[|log| - 1] == Grant(p) && p !in TrackedAfter(log)
    case Confirm(p, snap) => p in TrackedAfter(log) && p in snap.ports && !(log != [] && log[|log| - 1].Grant?)
    case Release(p, snap, _) =>
      p in TrackedAfter(log) && Expired(p, TrackedAfter(log)[p], snap.ports, snap.timestamp)
      && !(log != [] && log[|log| - 1].Grant?)
  }

  ghost predicate LegalLog(log: seq<Event>) {
    log == [] || (LegalLog(log[..|log| - 1]) && Allowed(log[..|log| - 1], log[|log| - 1]))
  }

  lemma LogExtended(log: seq<Event>, e: Event)
    ensures TrackedAfter(log + [e]) == TableAfter(TrackedAfter(log), e)
    ensures ReservedAfter(log + [e]) == HostAfter(ReservedAfter(log), e)
    ensures LegalLog(log + [e]) <==> LegalLog(log) && Allowed(log, e)
  {
    assert (log + [e])[..|log|] == log;
  }

  /** How the current phase of the tracker fits the log and the table. */
  ghost predicate PhaseFits(s: State) {
    && (s.tracker.Granted? <==> s.log != [] && s.log[|s.log| - 1].Grant?)
    && (s.tracker.Granted? ==>
          s.tracker.n.request == Some(s.tracker.p) && s.log[|s.log| - 1] == Grant(s.tracker.p)
          && s.tracker.p !in s.tracked)
    && (s.tracker.Replying? && s.tracker.result == 0 && s.tracker.n.request.Some? ==>
          s.tracker.n.request.value in s.tracked)
    && (s.tracker.Refreshing? ==> s.tracker.todo <= s.tracked.Keys)
  }

  /** Both tables are what the log says, and the log is legal. */
  ghost predicate Logged(s: State) {
    s.tracked == TrackedAfter(s.log) && s.reserved == ReservedAfter(s.log) && LegalLog(s.log)
  }

  ghost predicate PortsConsistent(s: State) {
    Logged(s) && PhaseFits(s)
  }

  // ----- the refresh handshake -----

  /** The refresher has handed over its snapshot and waits to be resumed. */
  ghost predicate AwaitingResume(s: State)
    requires s.resumes != []
  {
    (s.refresher == GettingFuture || s.refresher == Parked) && s.resumes[Current(s.resumes)].sets == 0
  }

  ghost predicate PromisesUsedOnce(s: State) {
    && s.shared != [] && s.resumes != []
    && (forall i :: 0 <= i < |s.shared| ==> s.shared[i].futures <= 1 && s.shared[i].sets <= 1)
    && (forall i :: 0 <= i < |s.resumes| ==> s.resumes[i].futures <= 1 && s.resumes[i].sets <= 1)
    && (forall i :: 0 <= i < |s.shared| ==> (s.shared[i].value.Some? <==> s.shared[i].sets > 0))
    && (forall i :: 0 <= i < |s.resumes| ==> (s.resumes[i].value.Some? <==> s.resumes[i].sets > 0))
  }

  ghost predicate RefresherOrder(s: State)
    requires s.shared != [] && s.resumes != []
  {
    var resume := s.resumes[Current(s.resumes)];
    match s.refresher
    case Listing(_, _) => resume.futures == 0 && resume.sets == 0
    case Stamping(_) => resume.futures == 0 && resume.sets == 0
    case Publishing(snap) => resume.futures == 0 && resume.sets == 0 && snap.resume == Current(s.resumes)
    case GettingFuture => resume.futures == 0
    case Parked => resume.futures == 1
    case Sleeping => true
  }

  ghost predicate HandshakeOrder(s: State)
    requires s.shared != [] && s.resumes != []
  {
    var k := Current(s.shared);
    var cur := s.shared[k];
    if s.held.Some? then
      && AwaitingResume(s) && s.held.value.resume == Current(s.resumes)
      && (match s.tracker
          case Starting => false
          case Replacing(_) => s.future == None && cur.futures == 1 && cur.sets == 1
          case Resuming => s.future == Some(k) && cur.futures == 1 && cur.sets == 0
          case LoopHead | InTryGet => s.future == None && cur.futures == 0 && cur.sets == 0 && s.tracked == map[]
          case _ => s.future == None && cur.futures == 0 && cur.sets == 0)
    else
      && !s.tracker.Replacing? && !s.tracker.Refreshing? && !s.tracker.Resuming?
      && (if s.tracker == Starting then s.future == None && cur.futures == 0
          else s.future == Some(k) && cur.futures == 1)
      && (cur.sets > 0 <==> AwaitingResume(s))
      && (cur.sets > 0 ==> cur.value.Some? && cur.value.value.resume == Current(s.resumes))
  }

  ghost predicate Handshake(s: State) {
    PromisesUsedOnce(s) && RefresherOrder(s) && HandshakeOrder(s)
  }

  ghost predicate Inv(s: State) {
    OneCallInFlight(s) && Accounted(s) && PortsConsistent(s) && Handshake(s)
  }

  // ----- every step keeps every part -----

  lemma InitHolds(s: State)
    requires Init(s)
    ensures Inv(s)
  {
  }

  lemma OneCallKeptByDispatcher(s: State, a: DispatcherAction)
    requires OneCallInFlight(s) && DispatcherEnabled(s, a)
    ensures OneCallInFlight(DispatcherStep(s, a))
  {
  }

  /** The steps of the tracker that take, decide or answer a call. */
  predicate MovesCall(a: TrackerAction) {
    a.ReadRequest? || a.PassUnparsed? || a.PassTracked? || a.AskHost? || a.Emplace? || a.PostReply?
  }

  /** The other steps have no call in hand and leave everything about calls as it was. */
  lemma OthersLeaveCalls(s: State, a: TrackerAction)
    requires TrackerEnabled(s, a) && !MovesCall(a)
    ensures var s' := TrackerStep(s, a);
            && !InHand(s.tracker) && !InHand(s'.tracker)
            && s'.handlers == s.handlers && s'.dispatcher == s.dispatcher
            && s'.request == s.request && s'.reply == s.reply
            && s'.decisions == s.decisions && s'.received == s.received && s'.answers == s.answers
  {
  }

  lemma OneCallMoved(s: State, a: TrackerAction)
    requires OneCallInFlight(s) && TrackerEnabled(s, a) && MovesCall(a)
    ensures OneCallInFlight(TrackerStep(s, a))
  {
  }

  lemma OneCallWaiting(s: State, s': State)
    requires OneCallInFlight(s) && !InHand(s.tracker) && !InHand(s'.tracker) && s'.handlers == s.handlers
    requires s'.dispatcher == s.dispatcher && s'.request == s.request && s'.reply == s.reply
    ensures OneCallInFlight(s')
  {
  }

  lemma OneCallKeptByTracker(s: State, a: TrackerAction)
    requires OneCallInFlight(s) && TrackerEnabled(s, a)
    ensures OneCallInFlight(TrackerStep(s, a))
  {
    if MovesCall(a) {
      OneCallMoved(s, a);
    } else {
      OthersLeaveCalls(s, a);
      OneCallWaiting(s, TrackerStep(s, a));
    }
  }

  lemma OneCallFramed(s: State, s': State)
    requires OneCallInFlight(s) && s'.handlers == s.handlers && s'.tracker == s.tracker
    requires s'.dispatcher == s.dispatcher && s'.request == s.request && s'.reply == s.reply
    ensures OneCallInFlight(s')
  {
  }

  /** Steps that move a call or a table entry leave the handshake alone. */
  lemma HandshakeKeptByPhase(s: State, s': State)
    requires Handshake(s) && LeavesHandshake(s, s')
    ensures Handshake(s')
  {
  }

  lemma HandshakeKeptByTaking(s: State, a: TrackerAction)
    requires Handshake(s) && TrackerEnabled(s, a) && (a.TakeResult? || a.ReplacePromise?)
    ensures Handshake(TrackerStep(s, a))
  {
    var s', k := TrackerStep(s, a), Current(s.shared);
    if a.ReplacePromise? {
      assert s'.shared[k + 1] == Promise(0, 0, None);
    }
  }

  lemma HandshakeKeptByResuming(s: State, a: TrackerAction)
    requires Handshake(s) && TrackerEnabled(s, a) && (a.Start? || a.Rearm? || a.Resume?)
    ensures Handshake(TrackerStep(s, a))
  {
    var s', k, r := TrackerStep(s, a), Current(s.shared), Current(s.resumes);
    if a.Resume? {
      assert s'.resumes[r] == SetValue(s.resumes[r], ());
    } else {
      assert s'.shared[k] == GetFuture(s.shared[k]);
    }
  }

  lemma HandshakeKeptByTracker(s: State, a: TrackerAction)
    requires Handshake(s) && TrackerEnabled(s, a)
    ensures Handshake(TrackerStep(s, a))
  {
    if a.TakeResult? || a.ReplacePromise? {
      HandshakeKeptByTaking(s, a);
    } else if a.Start? || a.Rearm? || a.Resume? {
      HandshakeKeptByResuming(s, a);
    } else {
      PhaseLeavesHandshake(s, a);
      HandshakeKeptByPhase(s, TrackerStep(s, a));
    }
  }

  /** What HandshakeKeptByPhase asks of a step. */
  ghost predicate LeavesHandshake(s: State, s': State) {
    && s'.future == s.future && s'.held == s.held
    && s'.refresher == s.refresher && s'.shared == s.shared && s'.resumes == s.resumes
    && !s.tracker.Starting? && !s.tracker.Replacing? && !s.tracker.Resuming?
    && !s'.tracker.Starting? && !s'.tracker.Replacing? && !s'.tracker.Resuming?
    && (s'.tracker.Refreshing? ==> s.tracker.Refreshing?)
    && (AtLoopHead(s'.tracker) && s'.held.Some? ==> s'.tracked == map[])
  }

  lemma CallLeavesHandshake(s: State, a: TrackerAction)
    requires TrackerEnabled(s, a) && MovesCall(a)
    ensures LeavesHandshake(s, TrackerStep(s, a))
  {
  }

  lemma PhaseLeavesHandshake(s: State, a: TrackerAction)
    requires Handshake(s) && TrackerEnabled(s, a)
    requires !a.Start? && !a.TakeResult? && !a.ReplacePromise? && !a.Rearm? && !a.Resume?
    ensures LeavesHandshake(s, TrackerStep(s, a))
  {
    if MovesCall(a) {
      CallLeavesHandshake(s, a);
    }
  }

  lemma HandshakeKeptByRefresher(s: State, a: RefresherAction)
    requires Handshake(s) && RefresherEnabled(s, a)
    ensures Handshake(RefresherStep(s, a))
  {
    var s' := RefresherStep(s, a);
    var k, r := Current(s.shared), Current(s.resumes);
    match a
    case Dump(_) =>
    case ListFails =>
    case Stamp =>
    case Publish =>
      assert s'.resumes == s.resumes && s'.shared[k] == SetValue(s.shared[k], s.refresher.snap);
    case GetResumeFuture =>
      assert s'.shared == s.shared && s'.resumes[r] == GetFuture(s.resumes[r]);
    case Wake =>
    case Restart =>
      assert s'.shared == s.shared && s'.resumes[r + 1] == Promise(0, 0, None);
  }

  lemma PhaseFitsKept(s: State, a: TrackerAction)
    requires PhaseFits(s) && TrackerEnabled(s, a)
    ensures PhaseFits(TrackerStep(s, a))
  {
  }

  lemma LoggedStep(s: State, s': State, e: Event)
    requires Logged(s) && s'.log == s.log + [e] && Allowed(s.log, e)
    requires s'.tracked == TableAfter(s.tracked, e) && s'.reserved == HostAfter(s.reserved, e)
    ensures Logged(s')
  {
    LogExtended(s.log, e);
  }

  /** The event a tracker step adds, if any, is allowed and accounts for the change of both tables. */
  lemma LogKept(s: State, a: TrackerAction)
    requires Logged(s) && PhaseFits(s) && TrackerEnabled(s, a)
    ensures Logged(TrackerStep(s, a))
  {
    var s' := TrackerStep(s, a);
    match a
    case AskHost(answer) =>
      if answer == 0 {
        LoggedStep(s, s', Grant(s.tracker.n.request.value));
      }
    case Emplace =>
      LoggedStep(s, s', Track(s.tracker.p, s.clock));
    case RefreshEntry(q, answer) =>
      var snap := s.held.value;
      if Expired(q, s.tracked[q], snap.ports, snap.timestamp) {
        LoggedStep(s, s', Release(q, snap, answer));
      } else if q in snap.ports {
        LoggedStep(s, s', Confirm(q, snap));
      }
    case _ =>
  }

  lemma PortsKeptByTracker(s: State, a: TrackerAction)
    requires PortsConsistent(s) && TrackerEnabled(s, a)
    ensures PortsConsistent(TrackerStep(s, a))
  {
    LogKept(s, a);
    PhaseFitsKept(s, a);
  }

  lemma AnswersExtended(handlers: map<Word, Handler>, answers: seq<Answer>, x: Answer)
    ensures Asked(answers + [x]) == Asked(answers) + [x.n]
    ensures BindAnswers(handlers, answers + [x]) ==
              BindAnswers(handlers, answers)
              + if x.n.nr in handlers && handlers[x.n.nr] == BindHandler then [x] else []
  {
    assert (answers + [x])[..|answers|] == answers;
  }

  lemma AccountedKeptByDispatcher(s: State, a: DispatcherAction)
    requires OneCallInFlight(s) && Accounted(s) && DispatcherEnabled(s, a)
    ensures Accounted(DispatcherStep(s, a))
  {
    if a == Send {
      AccountedKeptBySend(s);
    } else {
      AccountedKeptByPassing(s, a);
    }
  }

  lemma AccountedKeptBySend(s: State)
    requires OneCallInFlight(s) && Accounted(s) && DispatcherEnabled(s, Send)
    ensures Accounted(DispatcherStep(s, Send))
  {
    AnswersExtended(s.handlers, s.answers, Answer(s.dispatcher.n, s.dispatcher.result));
  }

  lemma AccountedKeptByPassing(s: State, a: DispatcherAction)
    requires OneCallInFlight(s) && Accounted(s) && DispatcherEnabled(s, a) && a != Send
    ensures Accounted(DispatcherStep(s, a))
  {
    var s' := DispatcherStep(s, a);
    assert s'.answers == s.answers && s'.decisions == s.decisions;
    assert Undelivered(s') == Undelivered(s);
  }

  lemma AccountedDecision(s: State, s': State, d: Decision)
    requires Accounted(s) && Undelivered(s) == [] && Undelivered(s') == [Answer(d.n, d.result)]
    requires s'.handlers == s.handlers && s'.dispatcher == s.dispatcher
    requires s'.received == s.received && s'.answers == s.answers
    requires s'.decisions == s.decisions + [d] && Justified(d)
    ensures Accounted(s')
  {
    assert Verdicts(s'.decisions) == Verdicts(s.decisions) + [Answer(d.n, d.result)];
  }

  lemma AccountedFramed(s: State, s': State)
    requires Accounted(s) && Undelivered(s) == Undelivered(s')
    requires s'.handlers == s.handlers && s'.dispatcher == s.dispatcher && s'.decisions == s.decisions
    requires s'.received == s.received && s'.answers == s.answers
    ensures Accounted(s')
  {
  }

  lemma AccountedKeptByTracker(s: State, a: TrackerAction)
    requires OneCallInFlight(s) && Accounted(s) && TrackerEnabled(s, a)
    requires s.tracker.Granted? ==> s.tracker.n.request.Some?
    ensures Accounted(TrackerStep(s, a))
  {
    if a.PassUnparsed? || a.PassTracked? || a.AskHost? || a.Emplace? {
      AccountedKeptByDeciding(s, a);
    } else if MovesCall(a) {
      AccountedFramed(s, TrackerStep(s, a));
    } else {
      OthersLeaveCalls(s, a);
      AccountedFramed(s, TrackerStep(s, a));
    }
  }

  lemma AccountedKeptByDeciding(s: State, a: TrackerAction)
    requires OneCallInFlight(s) && Accounted(s) && TrackerEnabled(s, a)
    requires a.PassUnparsed? || a.PassTracked? || a.AskHost? || a.Emplace?
    requires s.tracker.Granted? ==> s.tracker.n.request.Some?
    ensures Accounted(TrackerStep(s, a))
  {
    var s' := TrackerStep(s, a);
    if a.AskHost? && a.answer == 0 {
      AccountedFramed(s, s');
    } else {
      AccountedDecision(s, s', s'.decisions[|s.decisions|]);
    }
  }

  lemma PortsFramed(s: State, s': State)
    requires PortsConsistent(s)
    requires s'.tracked == s.tracked && s'.reserved == s.reserved && s'.log == s.log && s'.tracker == s.tracker
    ensures PortsConsistent(s')
  {
  }

  lemma HandshakeFramed(s: State, s': State)
    requires Handshake(s)
    requires s'.tracked == s.tracked && s'.tracker == s.tracker && s'.future == s.future && s'.held == s.held
    requires s'.refresher == s.refresher && s'.shared == s.shared && s'.resumes == s.resumes
    ensures Handshake(s')
  {
  }

  lemma InvKeptByDispatcher(s: State, a: DispatcherAction)
    requires Inv(s) && DispatcherEnabled(s, a)
    ensures Inv(DispatcherStep(s, a))
  {
    var s' := DispatcherStep(s, a);
    OneCallKeptByDispatcher(s, a);
    AccountedKeptByDispatcher(s, a);
    PortsFramed(s, s');
    HandshakeFramed(s, s');
  }

  lemma InvKeptByTracker(s: State, a: TrackerAction)
    requires Inv(s) && TrackerEnabled(s, a)
    ensures Inv(TrackerStep(s, a))
  {
    OneCallKeptByTracker(s, a);
    AccountedKeptByTracker(s, a);
    PortsKeptByTracker(s, a);
    HandshakeKeptByTracker(s, a);
  }

  lemma InvKeptByRefresher(s: State, a: RefresherAction)
    requires Inv(s) && RefresherEnabled(s, a)
    ensures Inv(RefresherStep(s, a))
  {
    var s' := RefresherStep(s, a);
    OneCallFramed(s, s');
    AccountedFramed(s, s');
    PortsFramed(s, s');
    HandshakeKeptByRefresher(s, a);
  }

  /** One step of any party keeps the whole invariant. */
  lemma InvKept(s: State, a: Action)
    requires Inv(s) && Enabled(s, a)
    ensures Inv(Step(s, a))
  {
    match a
    case D(d) => InvKeptByDispatcher(s, d);
    case T(t) => InvKeptByTracker(s, t);
    case R(r) => InvKeptByRefresher(s, r);
    case Clock(_) =>
      OneCallFramed(s, Step(s, a));
      AccountedFramed(s, Step(s, a));
      PortsFramed(s, Step(s, a));
      HandshakeFramed(s, Step(s, a));
  }

  /** In every run from an initial state, of any length and interleaving, the invariant holds throughout. */
  lemma {:induction false} RunsKeepInv(states: seq<State>, actions: seq<Action>, k: nat)
    requires IsRun(states, actions) && Init(states[0]) && k < |states|
    ensures Inv(states[k])
  {
    if k == 0 {
      InitHolds(states[0]);
    } else {
      RunsKeepInv(states, actions, k - 1);
      InvKept(states[k - 1], actions[k - 1]);
    }
  }
}
