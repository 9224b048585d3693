/** What one turn of the tracker loop does with the call it reads and the snapshot it takes. */
module BindTurns {
  import opened Common
  import opened PortTable
  import opened SeccompFilter
  import opened BindProtocol
  import opened BindInvariants

  // ----- turns with a bind -----

  /** The rest of a turn that has answered a bind: the snapshot may be taken, but is not used. */
  predicate AfterBind(t: TrackerPhase) {
    t == Polling(true) || t == Replacing(true) || t == Rearming || t == Resuming
  }

  ghost predicate SamePorts(s: State, s': State) {
    s'.tracked == s.tracked && s'.reserved == s.reserved && s'.log == s.log
  }

  lemma TurnKeepsPorts(s: State, a: TrackerAction)
    requires TrackerEnabled(s, a) && AfterBind(s.tracker)
    ensures var s' := TrackerStep(s, a);
            SamePorts(s, s') && (AfterBind(s'.tracker) || AtLoopHead(s'.tracker))
  {
  }

  lemma OthersKeepPorts(s: State, a: Action)
    requires Enabled(s, a) && !a.T?
    ensures SamePorts(s, Step(s, a)) && Step(s, a).tracker == s.tracker
  {
  }

  lemma PostKeepsPorts(s: State)
    requires TrackerEnabled(s, PostReply)
    ensures SamePorts(s, TrackerStep(s, PostReply)) && TrackerStep(s, PostReply).tracker == Polling(true)
  {
  }

  ghost predicate NoLoopHead(states: seq<State>, a: int, b: int) {
    forall x :: a < x < b && 0 <= x < |states| ==> !AtLoopHead(states[x].tracker)
  }

  /** In every run, from the step that answers a bind to the next loop head no port is released, confirmed or
      tracked, whatever snapshot arrives in that turn. */
  lemma {:induction false} NoRefreshAfterBind(states: seq<State>, actions: seq<Action>, a: nat, b: nat)
    requires IsRun(states, actions) && a < b < |states| && actions[a] == T(PostReply)
    requires NoLoopHead(states, a, b)
    ensures SamePorts(states[a], states[b])
    ensures AfterBind(states[b].tracker) || AtLoopHead(states[b].tracker)
  {
    if b == a + 1 {
      PostKeepsPorts(states[a]);
    } else {
      NoRefreshAfterBind(states, actions, a, b - 1);
      assert !AtLoopHead(states[b - 1].tracker);
      if actions[b - 1].T? {
        TurnKeepsPorts(states[b - 1], actions[b - 1].t);
      } else {
        OthersKeepPorts(states[b - 1], actions[b - 1]);
      }
    }
  }

  // ----- where a turn comes from -----

  /** The step that opened the rest of a turn: a reply, or a read that timed out. */
  predicate Opens(a: Action, hadBind: bool) {
    a == if hadBind then T(PostReply) else T(ReadTimeout)
  }

  /** A snapshot has been or can be taken in a turn with or without a bind. */
  predicate Taking(t: TrackerPhase, hadBind: bool) {
    t == Polling(hadBind) || t == Replacing(hadBind) || (!hadBind && t.Refreshing?)
  }

  lemma TakingTracker(s: State, a: TrackerAction, hadBind: bool)
    requires TrackerEnabled(s, a) && Taking(TrackerStep(s, a).tracker, hadBind)
    ensures Opens(T(a), hadBind) || Taking(s.tracker, hadBind)
  {
  }

  lemma {:induction false} TurnOrigin(states: seq<State>, actions: seq<Action>, b: nat, hadBind: bool) returns (a: nat)
    requires IsRun(states, actions) && Init(states[0]) && b < |states| && Taking(states[b].tracker, hadBind)
    ensures a < b && Opens(actions[a], hadBind)
    ensures forall x :: a < x <= b ==> Taking(states[x].tracker, hadBind)
  {
    var s, act := states[b - 1], actions[b - 1];
    if act.T? {
      TakingTracker(s, act.t, hadBind);
    } else {
      OthersKeepPorts(s, act);
    }
    if Opens(act, hadBind) {
      a := b - 1;
    } else {
      a := TurnOrigin(states, actions, b - 1, hadBind);
    }
  }

  /** In every run, a snapshot that is taken is used on the whole table when the read of that turn timed out,
      and not at all when the turn answered a bind. */
  lemma SnapshotUsedIff(states: seq<State>, actions: seq<Action>, b: nat) returns (a: nat)
    requires IsRun(states, actions) && Init(states[0]) && b < |actions| && actions[b] == T(ReplacePromise)
    ensures a < b && (actions[a] == T(PostReply) || actions[a] == T(ReadTimeout))
    ensures forall x :: a < x <= b ==> Waits(states[x].tracker)
    ensures states[b + 1].tracker ==
              if actions[a] == T(ReadTimeout) then Refreshing(states[b + 1].tracked.Keys) else Rearming
  {
    var hadBind := states[b].tracker.hadBind;
    a := TurnOrigin(states, actions, b, hadBind);
    if !hadBind {
      RunInOrder(states, actions);
      ReplacingIsLast(states, a, b);
    }
  }

  lemma TakesInOrder(s: State, a: TrackerAction)
    requires TrackerEnabled(s, a) && s.tracker.Refreshing?
    ensures !TrackerStep(s, a).tracker.Polling? && !TrackerStep(s, a).tracker.Replacing?
  {
  }

  predicate Waits(t: TrackerPhase) {
    t.Polling? || t.Replacing?
  }

  ghost predicate InOrder(states: seq<State>) {
    forall x :: 0 <= x < |states| - 1 && Waits(states[x + 1].tracker) ==> !states[x].tracker.Refreshing?
  }

  lemma RunInOrder(states: seq<State>, actions: seq<Action>)
    requires IsRun(states, actions)
    ensures InOrder(states)
  {
    forall x | 0 <= x < |states| - 1 && Waits(states[x + 1].tracker)
      ensures !states[x].tracker.Refreshing?
    {
      NotAfterRefreshing(states[x], actions[x]);
    }
  }

  lemma NotAfterRefreshing(s: State, a: Action)
    requires Enabled(s, a) && Waits(Step(s, a).tracker)
    ensures !s.tracker.Refreshing?
  {
    if s.tracker.Refreshing? {
      if a.T? {
        TakesInOrder(s, a.t);
      } else {
        OthersKeepPorts(s, a);
      }
    }
  }

  lemma {:induction false} ReplacingIsLast(states: seq<State>, a: nat, b: nat)
    requires InOrder(states) && a < b < |states| && Waits(states[b].tracker)
    requires forall x :: a < x <= b ==> Taking(states[x].tracker, false)
    ensures forall x :: a < x <= b ==> Waits(states[x].tracker)
  {
    if a < b - 1 {
      ReplacingIsLast(states, a, b - 1);
    }
  }

  /** In every run, a port is released or confirmed only in a turn whose read timed out: that step comes before,
      and no bind is answered and no turn begins in between. */
  lemma RefreshFollowsTimeout(states: seq<State>, actions: seq<Action>, b: nat) returns (a: nat)
    requires IsRun(states, actions) && Init(states[0]) && b < |actions|
    requires actions[b].T? && actions[b].t.RefreshEntry?
    ensures a < b && actions[a] == T(ReadTimeout)
    ensures forall x :: a < x <= b ==> actions[x] != T(PostReply) && !AtLoopHead(states[x].tracker)
  {
    a := TurnOrigin(states, actions, b, false);
    forall x | a < x <= b
      ensures actions[x] != T(PostReply) && !AtLoopHead(states[x].tracker)
    {
      assert Taking(states[x].tracker, false) && Enabled(states[x], actions[x]);
    }
  }

  // ----- the end of a turn -----

  lemma ResumingTracker(s: State, a: TrackerAction)
    requires TrackerEnabled(s, a) && TrackerStep(s, a).tracker == Resuming
    ensures a == Rearm && TrackerStep(s, a).tracked != map[]
  {
  }

  ghost predicate ResumeFollows(s: State, s': State) {
    s'.tracker == Resuming ==> s'.tracked != map[] || (s.tracker == Resuming && s'.tracked == s.tracked)
  }

  lemma ResumeStep(s: State, a: Action)
    requires Enabled(s, a)
    ensures ResumeFollows(s, Step(s, a))
  {
    if a.T? {
      if TrackerStep(s, a.t).tracker == Resuming {
        ResumingTracker(s, a.t);
      }
    } else {
      OthersKeepPorts(s, a);
    }
  }

  ghost predicate ResumeRun(states: seq<State>) {
    forall i :: 0 <= i < |states| - 1 ==> ResumeFollows(states[i], states[i + 1])
  }

  lemma {:induction false} ResumingHasPorts(states: seq<State>, k: nat)
    requires ResumeRun(states) && k < |states| && states[k].tracker == Resuming && states[0].tracker != Resuming
    ensures states[k].tracked != map[]
  {
    assert ResumeFollows(states[k - 1], states[k]);
    if states[k - 1].tracker == Resuming {
      ResumingHasPorts(states, k - 1);
    }
  }

  /** In every run, the refresher is resumed only while there are ports to look for. */
  lemma ResumedOnlyForPorts(states: seq<State>, actions: seq<Action>, k: nat)
    requires IsRun(states, actions) && Init(states[0]) && k < |states| && states[k].tracker == Resuming
    ensures states[k].tracked != map[]
  {
    forall i | 0 <= i < |states| - 1
      ensures ResumeFollows(states[i], states[i + 1])
    {
      ResumeStep(states[i], actions[i]);
    }
    ResumingHasPorts(states, k);
  }

  // ----- calls that are not binds -----

  /** State `s` and action `a` are those in which a call other than a bind was received; without a handler it
      is let through, with one it gets what the handler returned. */
  ghost predicate ReceivedAt(s: State, a: Action, x: Answer) {
    && s.dispatcher == Waiting && a.D? && a.d.Receive? && a.d.n == x.n
    && x.result == if x.n.nr in s.handlers then a.d.ioctlResult else 0
  }

  /** The answer in hand or the last one sent. */
  ghost predicate InHandOrSent(s: State, i: nat, x: Answer) {
    || (i < |s.answers| && s.answers[i] == x)
    || (i == |s.answers| && s.dispatcher == Sending(x.n, x.result))
  }

  lemma AnswerStep(s: State, a: Action, i: nat, x: Answer)
    requires OneCallInFlight(s) && Enabled(s, a) && !BindHandled(s, x.n) && InHandOrSent(Step(s, a), i, x)
    ensures InHandOrSent(s, i, x) || (i == |s.answers| && ReceivedAt(s, a, x))
    ensures Step(s, a).handlers == s.handlers
  {
    if a.T? {
      TrackerLeavesAnswers(s, a.t);
    } else if a.D? {
      DispatcherAnswers(s, a.d, i, x);
    }
  }

  lemma TrackerLeavesAnswers(s: State, a: TrackerAction)
    requires TrackerEnabled(s, a)
    ensures var s' := TrackerStep(s, a);
            s'.answers == s.answers && s'.dispatcher == s.dispatcher && s'.handlers == s.handlers
  {
  }

  lemma DispatcherAnswers(s: State, a: DispatcherAction, i: nat, x: Answer)
    requires OneCallInFlight(s) && DispatcherEnabled(s, a) && !BindHandled(s, x.n)
    requires InHandOrSent(DispatcherStep(s, a), i, x)
    ensures InHandOrSent(s, i, x) || (i == |s.answers| && ReceivedAt(s, D(a), x))
  {
  }

  lemma AnswerInRun(states: seq<State>, actions: seq<Action>, k: nat, i: nat, x: Answer)
    requires IsRun(states, actions) && k < |actions| && OneCallInFlight(states[k])
    requires InHandOrSent(states[k + 1], i, x) && !BindHandled(states[k + 1], x.n)
    ensures !BindHandled(states[k], x.n)
    ensures InHandOrSent(states[k], i, x) || (|states[k].answers| == i && ReceivedAt(states[k], actions[k], x))
  {
    HandlersStay(states[k], actions[k]);
    AnswerStep(states[k], actions[k], i, x);
  }

  /** In every run, every answer to a call that is not a bind is the result its handler returned when it was
      received, or zero if the number has no handler. */
  lemma {:induction false} AnswerOrigin(states: seq<State>, actions: seq<Action>, k: nat, i: nat, x: Answer)
    returns (j: nat)
    requires IsRun(states, actions) && Init(states[0]) && k < |states|
    requires InHandOrSent(states[k], i, x) && !BindHandled(states[k], x.n)
    ensures j < k && |states[j].answers| == i && ReceivedAt(states[j], actions[j], x)
  {
    RunsKeepInv(states, actions, k - 1);
    AnswerInRun(states, actions, k - 1, i, x);
    if InHandOrSent(states[k - 1], i, x) {
      j := AnswerOrigin(states, actions, k - 1, i, x);
    } else {
      j := k - 1;
    }
  }

  lemma HandlersStay(s: State, a: Action)
    requires Enabled(s, a)
    ensures Step(s, a).handlers == s.handlers
  {
    if a.T? {
      TrackerLeavesAnswers(s, a.t);
    }
  }

  // ----- what the others may do -----

  /** Nothing is asked of the host, of the calls or of the clock: in every phase where one of them has a say,
      anything may happen. */
  lemma NothingIsAsked(s: State, n: Notification, x: int, q: PortAllocation)
    ensures s.dispatcher == Waiting ==> Enabled(s, D(Receive(n, x)))
    ensures s.tracker.Handling? && s.tracker.n.request.Some? && s.tracker.n.request.value !in s.tracked ==>
              Enabled(s, T(AskHost(x)))
    ensures s.tracker.Refreshing? && s.held.Some? && q in s.tracker.todo && q in s.tracked ==>
              Enabled(s, T(RefreshEntry(q, x)))
    ensures Enabled(s, Clock(x))
  {
  }

  /** A call that has been posted can be read at once, and also just misses a read that times out. */
  lemma PostedCallIsRead(s: State)
    requires AtLoopHead(s.tracker) && s.request.Some?
    ensures Enabled(s, T(ReadRequest)) && (s.tracker == InTryGet ==> Enabled(s, T(ReadTimeout)))
    ensures s.tracker == LoopHead ==> !Enabled(s, T(BeginWait)) && !Enabled(s, T(ReadTimeout))
  {
  }

  // ----- the refresher -----

  /** An action the refresher can take now, unless it waits to be resumed. */
  ghost function SomeRefresherAction(s: State): RefresherAction {
    match s.refresher
    case Listing(_, _) => Dump({})
    case Stamping(_) => Stamp
    case Publishing(_) => Publish
    case GettingFuture => GetResumeFuture
    case Parked => Wake
    case Sleeping => Restart
  }

  /** In every state, the refresher has a step, except exactly when it is parked and not yet resumed; and the
      listing can fail at any dump. */
  lemma RefresherBlocksIff(s: State)
    requires Inv(s)
    ensures !RefresherEnabled(s, SomeRefresherAction(s)) <==> s.refresher == Parked && AwaitingResume(s)
    ensures s.refresher.Listing? ==> RefresherEnabled(s, ListFails)
    ensures forall ports :: s.refresher.Listing? ==> RefresherEnabled(s, Dump(ports))
  {
  }
}
