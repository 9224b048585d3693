/**
 The bind-tracking protocol as a step relation. Four parties move: the seccomp
 dispatcher, the tracker loop, the sock_diag refresher and the clock. They share
 two one-slot mailboxes, a promise/future pair that carries a snapshot of the
 bound ports, and a second promise that resumes the refresher. The host answers
 every transaction as it likes.

 Every blocking wait of the source is the guard of a step. A step never guards
 against misuse of a promise or against a port that is already reserved: that
 misuse cannot happen is proved, not assumed.
 */
module BindProtocol {
  import opened Common
  import opened PortTable
  import opened SeccompFilter

  // ----- the parties -----

  /** A seccomp notification; `request` is what GetCallInfo makes of it, None when the call is let through. */
  datatype Notification = Notification(id: nat, nr: Word, request: Option<PortAllocation>)

  /** SecCompDispatcher::Run, with ProcessSecCompNotification inlined. */
  datatype Dispatcher =
    | Waiting
    | Posting(n: Notification)
    | AwaitingReply(n: Notification)
    | Sending(n: Notification, result: int)

  /** GnsPortTracker::Run. */
  datatype TrackerPhase =
    | Starting                                   // before get_future (line 77)
    | LoopHead                                   // line 80
    | InTryGet                                   // line 283, asleep in try_get, which found nothing
    | Handling(n: Notification)                  // line 92, a call has been read
    | Granted(n: Notification, p: PortAllocation) // line 101, the host said yes
    | Replying(n: Notification, result: int)     // line 112
    | Polling(hadBind: bool)                     // line 121
    | Replacing(hadBind: bool)                   // line 125, the result is taken
    | Refreshing(todo: set<PortAllocation>)      // line 132
    | Rearming                                   // line 137
    | Resuming                                   // line 140

  /** The sockets are listed by four netlink dumps: TCP and UDP, each for IPv4 and IPv6. */
  const DUMPS := 4

  type Dumped = n: nat | n < DUMPS

  /** GnsPortTracker::RunPortRefresh. */
  datatype RefresherPhase =
    | Listing(dumped: Dumped, ports: set<PortAllocation>) // lines 146-201, with some of the dumps in
    | Stamping(ports: set<PortAllocation>)                // line 44, all dumps in, the time not yet read
    | Publishing(snap: Snapshot)                          // line 45
    | GettingFuture                                       // line 47, before wait
    | Parked                                              // line 47
    | Sleeping                                            // line 57

  /** PortRefreshResult; `resume` names the promise that Resume() satisfies. */
  datatype Snapshot = Snapshot(ports: set<PortAllocation>, timestamp: int, resume: nat)

  /** A std::promise with the number of get_future and set_value calls made on it. */
  datatype Promise<T> = Promise(futures: nat, sets: nat, value: Option<T>)

  function GetFuture<T>(p: Promise<T>): Promise<T> {
    p.(futures := p.futures + 1)
  }

  function SetValue<T>(p: Promise<T>, v: T): Promise<T> {
    p.(sets := p.sets + 1, value := Some(v))
  }

  // ----- history -----

  /** What happened to ports, in order. */
  datatype Event =
    | Grant(p: PortAllocation)                              // the host accepted an allocation
    | Track(p: PortAllocation, at: int)                     // line 101, a first insertion
    | Confirm(p: PortAllocation, snap: Snapshot)            // line 236
    | Release(p: PortAllocation, snap: Snapshot, answer: int) // lines 219-230

  /** Why a bind was answered the way it was. */
  datatype Basis = LetThrough | AlreadyTracked | HostAnswered(answer: int)

  datatype Decision = Decision(n: Notification, result: int, basis: Basis)

  datatype Answer = Answer(n: Notification, result: int)

  /** seccomp_notif_resp; `continues` is SECCOMP_USER_NOTIF_FLAG_CONTINUE. */
  datatype Response = Response(id: nat, error: int, val: int, continues: bool)

  /** SecCompDispatcher::Run, lines 132-139. */
  function Respond(a: Answer): Response {
    Response(a.n.id, -a.result, 0, a.result == 0)
  }

  datatype State = State(
    handlers: map<Word, Handler>,
    clock: int,
    dispatcher: Dispatcher,
    request: Option<Notification>,
    reply: Option<int>,
    tracker: TrackerPhase,
    tracked: Ports,
    future: Option<nat>,
    held: Option<Snapshot>,
    refresher: RefresherPhase,
    shared: seq<Promise<Snapshot>>,   // every promise m_allocatedPortsRefresh has been, the last is current
    resumes: seq<Promise<()>>,        // every `resume` of the refresher, the last is current
    reserved: set<PortAllocation>,    // what the host holds for this guest
    log: seq<Event>,
    decisions: seq<Decision>,
    received: seq<Notification>,
    answers: seq<Answer>
  )

  ghost predicate Init(s: State) {
    && s.dispatcher == Waiting && s.request == None && s.reply == None
    && s.tracker == Starting && s.tracked == map[] && s.future == None && s.held == None
    && s.refresher == Listing(0, {})
    && s.shared == [Promise(0, 0, None)] && s.resumes == [Promise(0, 0, None)]
    && s.reserved == {} && s.log == [] && s.decisions == [] && s.received == [] && s.answers == []
  }

  // ----- steps -----

  datatype Action =
    | D(d: DispatcherAction)
    | T(t: TrackerAction)
    | R(r: RefresherAction)
    | Clock(now: int)

  datatype DispatcherAction =
    | Receive(n: Notification, ioctlResult: int)
    | Post
    | GetReply
    | Send

  datatype TrackerAction =
    | Start
    | ReadRequest
    | BeginWait
    | ReadTimeout
    | PassUnparsed
    | PassTracked
    | AskHost(answer: int)
    | Emplace
    | PostReply
    | TakeResult
    | NoResult
    | ReplacePromise
    | RefreshEntry(q: PortAllocation, answer: int)
    | RefreshEnd
    | Rearm
    | StayParked
    | Resume

  datatype RefresherAction =
    | Dump(ports: set<PortAllocation>)
    | ListFails
    | Stamp
    | Publish
    | GetResumeFuture
    | Wake
    | Restart

  predicate BindHandled(s: State, n: Notification) {
    n.nr in s.handlers && s.handlers[n.nr] == BindHandler
  }

  predicate DispatcherEnabled(s: State, a: DispatcherAction) {
    match a
    case Receive(_, _) => s.dispatcher == Waiting
    case Post => s.dispatcher.Posting? && s.request == None
    case GetReply => s.dispatcher.AwaitingReply? && s.reply.Some?
    case Send => s.dispatcher.Sending?
  }

  function DispatcherStep(s: State, a: DispatcherAction): State
    requires DispatcherEnabled(s, a)
  {
    match a
    case Receive(n, ioctlResult) =>
      s.(received := s.received + [n],
         dispatcher := if n.nr !in s.handlers then Sending(n, 0)
                       else if s.handlers[n.nr] == BindHandler then Posting(n)
                       else Sending(n, ioctlResult))
    case Post => s.(dispatcher := AwaitingReply(s.dispatcher.n), request := Some(s.dispatcher.n))
    case GetReply => s.(dispatcher := Sending(s.dispatcher.n, s.reply.value), reply := None)
    case Send => s.(dispatcher := Waiting, answers := s.answers + [Answer(s.dispatcher.n, s.dispatcher.result)])
  }

  function Current<T>(ps: seq<T>): nat
    requires ps != []
  {
    |ps| - 1
  }

  predicate ResultReady(s: State) {
    s.future.Some? && s.future.value < |s.shared| && s.shared[s.future.value].value.Some?
  }

  predicate TrackerEnabled(s: State, a: TrackerAction) {
    var t := s.tracker;
    match a
    case Start => t == Starting && s.shared != []
    case ReadRequest => (t == LoopHead || t == InTryGet) && s.request.Some?
    case BeginWait => t == LoopHead && s.request == None
    case ReadTimeout => t == InTryGet // even if a call was posted just as the wait timed out
    case PassUnparsed => t.Handling? && t.n.request == None
    case PassTracked => t.Handling? && t.n.request.Some? && t.n.request.value in s.tracked
    case AskHost(_) => t.Handling? && t.n.request.Some? && t.n.request.value !in s.tracked
    case Emplace => t.Granted?
    case PostReply => t.Replying? && s.reply == None
    case TakeResult => t.Polling? && ResultReady(s)
    case NoResult => t.Polling? && !ResultReady(s)
    case ReplacePromise => t.Replacing?
    case RefreshEntry(q, _) => t.Refreshing? && q in t.todo && q in s.tracked && s.held.Some?
    case RefreshEnd => t.Refreshing? && t.todo == {}
    case Rearm => t == Rearming && s.held.Some? && s.tracked != map[] && s.shared != []
    case StayParked => t == Rearming && !(s.held.Some? && s.tracked != map[])
    case Resume => t == Resuming && s.held.Some? && s.held.value.resume < |s.resumes|
  }

  function Decide(s: State, n: Notification, result: int, basis: Basis): State {
    s.(tracker := Replying(n, result), decisions := s.decisions + [Decision(n, result, basis)])
  }

  function TrackerStep(s: State, a: TrackerAction): State
    requires TrackerEnabled(s, a)
  {
    var t := s.tracker;
    match a
    case Start =>
      var k := Current(s.shared);
      s.(tracker := LoopHead, future := Some(k), shared := s.shared[k := GetFuture(s.shared[k])])
    case ReadRequest => s.(tracker := Handling(s.request.value), request := None)
    case BeginWait => s.(tracker := InTryGet)
    case ReadTimeout => s.(tracker := Polling(false))
    case PassUnparsed => Decide(s, t.n, 0, LetThrough)
    case PassTracked => Decide(s, t.n, 0, AlreadyTracked)
    case AskHost(answer) =>
      var p := t.n.request.value;
      if answer == 0 then s.(tracker := Granted(t.n, p), reserved := s.reserved + {p}, log := s.log + [Grant(p)])
      else Decide(s, t.n, answer, HostAnswered(answer))
    case Emplace =>
      var s' := s.(tracked := Emplaced(s.tracked, t.p, s.clock + BIND_TIMEOUT), log := s.log + [Track(t.p, s.clock)]);
      Decide(s', t.n, 0, HostAnswered(0))
    case PostReply => s.(tracker := Polling(true), reply := Some(t.result))
    case TakeResult =>
      s.(tracker := Replacing(t.hadBind), held := s.shared[s.future.value].value, future := None)
    case NoResult => s.(tracker := Rearming)
    case ReplacePromise =>
      s.(tracker := if t.hadBind then Rearming else Refreshing(s.tracked.Keys),
         shared := s.shared + [Promise(0, 0, None)])
    case RefreshEntry(q, answer) => RefreshOne(s, t.todo, q, answer)
    case RefreshEnd => s.(tracker := Rearming)
    case Rearm =>
      var k := Current(s.shared);
      s.(tracker := Resuming, future := Some(k), shared := s.shared[k := GetFuture(s.shared[k])])
    case StayParked => s.(tracker := LoopHead)
    case Resume =>
      var k := s.held.value.resume;
      s.(tracker := LoopHead, held := None, resumes := s.resumes[k := SetValue(s.resumes[k], ())])
  }

  /** One turn of the refresh loop. */
  function RefreshOne(s: State, todo: set<PortAllocation>, q: PortAllocation, answer: int): State
    requires q in s.tracked && s.held.Some?
  {
    var snap := s.held.value;
    var s' := s.(tracker := Refreshing(todo - {q}));
    if Expired(q, s.tracked[q], snap.ports, snap.timestamp) then
      s'.(tracked := s.tracked - {q},
          reserved := if answer == 0 then s.reserved - {q} else s.reserved,
          log := s.log + [Release(q, snap, answer)])
    else if q in snap.ports then
      s'.(tracked := s.tracked[q := None], log := s.log + [Confirm(q, snap)])
    else s'
  }

  predicate RefresherEnabled(s: State, a: RefresherAction) {
    match a
    case Dump(_) => s.refresher.Listing?
    case ListFails => s.refresher.Listing?
    case Stamp => s.refresher.Stamping? && s.resumes != []
    case Publish => s.refresher.Publishing? && s.shared != []
    case GetResumeFuture => s.refresher == GettingFuture && s.resumes != []
    case Wake => s.refresher == Parked && s.resumes != [] && s.resumes[Current(s.resumes)].value.Some?
    case Restart => s.refresher == Sleeping
  }

  function RefresherStep(s: State, a: RefresherAction): State
    requires RefresherEnabled(s, a)
  {
    match a
    case Dump(ports) =>
      var ports' := s.refresher.ports + ports;
      s.(refresher := if s.refresher.dumped + 1 == DUMPS then Stamping(ports')
                      else Listing(s.refresher.dumped + 1, ports'))
    case ListFails => s.(refresher := Sleeping)
    case Stamp => s.(refresher := Publishing(Snapshot(s.refresher.ports, s.clock, Current(s.resumes))))
    case Publish =>
      var k := Current(s.shared);
      s.(refresher := GettingFuture, shared := s.shared[k := SetValue(s.shared[k], s.refresher.snap)])
    case GetResumeFuture =>
      var k := Current(s.resumes);
      s.(refresher := Parked, resumes := s.resumes[k := GetFuture(s.resumes[k])])
    case Wake => s.(refresher := Sleeping)
    case Restart => s.(refresher := Listing(0, {}), resumes := s.resumes + [Promise(0, 0, None)])
  }

  predicate Enabled(s: State, a: Action) {
    match a
    case D(d) => DispatcherEnabled(s, d)
    case T(t) => TrackerEnabled(s, t)
    case R(r) => RefresherEnabled(s, r)
    case Clock(_) => true
  }

  function Step(s: State, a: Action): State
    requires Enabled(s, a)
  {
    match a
    case D(d) => DispatcherStep(s, d)
    case T(t) => TrackerStep(s, t)
    case R(r) => RefresherStep(s, r)
    case Clock(now) => s.(clock := now)
  }

  /** A run: states joined by enabled actions, from any point. */
  ghost predicate IsRun(states: seq<State>, actions: seq<Action>) {
    && |states| == |actions| + 1
    && forall i :: 0 <= i < |actions| ==>
         Enabled(states[i], actions[i]) && states[i + 1] == Step(states[i], actions[i])
  }
}
