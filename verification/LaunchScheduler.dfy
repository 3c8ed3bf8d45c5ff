/**
 The launch scheduler: requests to open a local terminal or a connection are queued and opened
 one at a time.  A request may have to wait for a credential file that a worker reads, or for an
 answer to a prompt; `posted` counts the zero-delay callbacks that will try the next request.

 `Scheduler` is the data, the functions on it are the handlers, and the class performs them on
 its fields.  Handlers run to completion without being re-entered.
 */
module LaunchScheduler {

  datatype Option<+T> = None | Some(value: T)

  datatype LaunchRequest = LaunchRequest(
    directory: string,
    background: bool,
    shellId: string,
    windowMode: string,
    profileId: string,
    host: string,
    username: string,
    port: int,
    authentication: string,
    identityFile: string,
    certificateFile: string,
    passwordFile: string,
    remoteDirectory: string)
  {
    predicate HasTarget() {
      directory != "" || host != "" || profileId != ""
    }

    predicate Detached() {
      windowMode == "detached"
    }
  }

  /** What the surroundings decide while a handler runs. */
  datatype World = World(
    terminalOpens: bool,
    requestBuilds: bool,
    connectionStarts: bool,
    detaches: bool)

  /** Settings and catalogues the handlers consult. */
  datatype Catalog = Catalog(singleShell: string, availableShells: set<string>, profileIds: set<string>)

  datatype Signal =
    | LaunchFailed(launch: LaunchRequest)
    | LaunchOpened(launch: LaunchRequest, detached: bool)
    | AuthenticationRequested(launch: LaunchRequest)

  datatype Outcome = Opened | Failed | Cancelled

  datatype Served = Served(launch: LaunchRequest, outcome: Outcome)

  datatype Scheduler = Scheduler(
    queue: seq<LaunchRequest>,
    reading: Option<LaunchRequest>,
    pending: Option<LaunchRequest>,
    posted: nat,
    shutdownStarted: bool,
    accepted: seq<LaunchRequest>,
    served: seq<Served>,
    signals: seq<Signal>)

  const CAPACITY := 32

  const INITIAL := Scheduler([], None, None, 0, false, [], [], [])

  // ----- the handlers -----

  function OpenLaunchRequest(s: Scheduler, request: LaunchRequest, valid: bool, catalog: Catalog, world: World): (Scheduler, bool) {
    if s.shutdownStarted || !valid || !request.HasTarget() || |s.queue| >= CAPACITY then (s, false)
    else
      (ProcessNext(s.(queue := s.queue + [request], accepted := s.accepted + [request]), catalog, world), true)
  }

  function ProcessNext(s: Scheduler, catalog: Catalog, world: World): Scheduler {
    if s.shutdownStarted || s.reading.Some? || s.pending.Some? || s.queue == [] then s
    else
      var launch := s.queue[0];
      var taken := s.(queue := s.queue[1..]);
      if launch.directory != "" then Post(OpenLocal(taken, launch, catalog, world))
      else if launch.passwordFile != "" then taken.(reading := Some(launch))
      else if launch.profileId != "" || launch.authentication == "agent" then
        if Starts(launch, catalog, world) then Post(Connected(taken, launch, world))
        else if launch.authentication == "agent" then Post(Fail(taken, launch))
        else if launch.profileId != "" && launch.profileId !in catalog.profileIds then Post(Fail(taken, launch))
        else Ask(taken, launch)
      else Ask(taken, launch)
  }

  function Post(s: Scheduler): Scheduler {
    s.(posted := s.posted + 1)
  }

  function Fail(s: Scheduler, launch: LaunchRequest): Scheduler {
    s.(signals := s.signals + [LaunchFailed(launch)], served := s.served + [Served(launch, Failed)])
  }

  function Open(s: Scheduler, launch: LaunchRequest): Scheduler {
    s.(signals := s.signals + [LaunchOpened(launch, launch.Detached())], served := s.served + [Served(launch, Opened)])
  }

  function Ask(s: Scheduler, launch: LaunchRequest): Scheduler {
    s.(pending := Some(launch), signals := s.signals + [AuthenticationRequested(launch)])
  }

  function OpenLocal(s: Scheduler, launch: LaunchRequest, catalog: Catalog, world: World): Scheduler {
    var shellId := if launch.shellId == "" then catalog.singleShell else launch.shellId;
    if shellId != "automatic" && shellId !in catalog.availableShells then Fail(s, launch)
    else if !world.terminalOpens || (launch.Detached() && !world.detaches) then Fail(s, launch)
    else Open(s, launch)
  }

  /** Whether a connection gets under way; the profile must still exist. */
  predicate Starts(launch: LaunchRequest, catalog: Catalog, world: World) {
    && (launch.profileId != "" ==> launch.profileId in catalog.profileIds)
    && world.requestBuilds && world.connectionStarts
  }

  /** A connection that got under way may still fail to move to its own window. */
  function Connected(s: Scheduler, launch: LaunchRequest, world: World): Scheduler {
    if launch.Detached() && !world.detaches then Fail(s, launch) else Open(s, launch)
  }

  /** A posted callback is delivered. */
  function CallbackFires(s: Scheduler, catalog: Catalog, world: World): Scheduler
    requires s.posted > 0
  {
    ProcessNext(s.(posted := s.posted - 1), catalog, world)
  }

  /** The worker's result is delivered; the next request then runs in `nextWorld`. */
  function FinishCredentialRead(s: Scheduler, readable: bool, catalog: Catalog, world: World, nextWorld: World): Scheduler
    requires s.reading.Some?
  {
    var launch, idle := s.reading.value, s.(reading := None);
    if s.shutdownStarted then idle
    else
      var finished := if !readable || !Starts(launch, catalog, world) then Fail(idle, launch) else Connected(idle, launch, world);
      ProcessNext(finished, catalog, nextWorld)
  }

  function CompleteAuthentication(s: Scheduler, cancelled: bool, catalog: Catalog, world: World): (Scheduler, bool) {
    if s.shutdownStarted || s.pending.None? then (s, false)
    else if cancelled then
      (Post(s.(pending := None, served := s.served + [Served(s.pending.value, Cancelled)])), true)
    else if !Starts(s.pending.value, catalog, world) then (s, false)
    else (Post(Connected(s, s.pending.value, world).(pending := None)), true)
  }

  function Shutdown(s: Scheduler): Scheduler {
    if s.shutdownStarted then s else s.(shutdownStarted := true, queue := [], pending := None)
  }

  // ----- invariant -----

  function LaunchesOf(served: seq<Served>): seq<LaunchRequest> {
    if served == [] then [] else LaunchesOf(served[..|served| - 1]) + [served[|served| - 1].launch]
  }

  function AsList(launch: Option<LaunchRequest>): seq<LaunchRequest> {
    if launch.Some? then [launch.value] else []
  }

  /** The signals that tell the user how a launch ended. */
  function FinalSignals(signals: seq<Signal>): seq<Served> {
    if signals == [] then []
    else
      FinalSignals(signals[..|signals| - 1]) + match signals[|signals| - 1]
        case LaunchFailed(launch) => [Served(launch, Failed)]
        case LaunchOpened(launch, _) => [Served(launch, Opened)]
        case AuthenticationRequested(_) => []
  }

  function Announced(served: seq<Served>): seq<Served> {
    if served == [] then []
    else
      var last := served[|served| - 1];
      Announced(served[..|served| - 1]) + if last.outcome.Cancelled? then [] else [last]
  }

  function PromptsOf(signals: seq<Signal>): seq<LaunchRequest> {
    if signals == [] then []
    else
      var last := signals[|signals| - 1];
      PromptsOf(signals[..|signals| - 1]) + if last.AuthenticationRequested? then [last.launch] else []
  }

  /**
   Conservation and order: the accepted requests are those served, then the one being read, then
   the one asked about, then the queued ones, in this order, so each accepted request has exactly
   one final outcome or exactly one place to wait.
   */
  predicate Conserved(s: Scheduler) {
    s.accepted == LaunchesOf(s.served) + AsList(s.reading) + AsList(s.pending) + s.queue
  }

  /** Every ending except a cancellation is announced once, in order. */
  predicate AnnouncedOnce(s: Scheduler) {
    FinalSignals(s.signals) == Announced(s.served)
  }

  /** Something will look at a non-empty queue. */
  predicate NoLostWakeup(s: Scheduler) {
    s.queue != [] ==> s.reading.Some? || s.pending.Some? || s.posted > 0
  }

  /** The unanswered prompt, if any, is the last one requested. */
  predicate OnePrompt(s: Scheduler) {
    s.pending.Some? ==> PromptsOf(s.signals) != [] && PromptsOf(s.signals)[|PromptsOf(s.signals)| - 1] == s.pending.value
  }

  predicate Good(s: Scheduler) {
    && |s.queue| <= CAPACITY
    && !(s.reading.Some? && s.pending.Some?)
    && AnnouncedOnce(s)
    && (!s.shutdownStarted ==> Conserved(s) && NoLostWakeup(s) && OnePrompt(s))
  }

  // ----- the controller's launch part -----

  class LaunchController {
    var launchQueue: seq<LaunchRequest>
    var launchBusy: bool
    /** The launch captured by the reader task whose completion is not delivered yet. */
    var captured: Option<LaunchRequest>
    var pendingLaunch: Option<LaunchRequest>
    var posted: nat
    var shutdownStarted: bool
    ghost var accepted: seq<LaunchRequest>
    ghost var served: seq<Served>
    ghost var signals: seq<Signal>

    /** The busy flag is set exactly while a read is in flight. */
    ghost predicate Valid()
      reads this
    {
      launchBusy <==> captured.Some?
    }

    ghost function AsScheduler(): Scheduler
      reads this
    {
      Scheduler(launchQueue, captured, pendingLaunch, posted, shutdownStarted, accepted, served, signals)
    }

    constructor ()
      ensures Valid() && AsScheduler() == INITIAL
    {
      launchQueue, launchBusy, captured, pendingLaunch, posted, shutdownStarted := [], false, None, None, 0, false;
      accepted, served, signals := [], [], [];
    }

    method OpenRequest(request: LaunchRequest, valid: bool, catalog: Catalog, world: World) returns (ok: bool)
      requires Valid()
      modifies this
      ensures Valid()
      ensures (AsScheduler(), ok) == OpenLaunchRequest(old(AsScheduler()), request, valid, catalog, world)
    {
      if shutdownStarted || !valid || !request.HasTarget() || |launchQueue| >= CAPACITY {
        return false;
      }
      launchQueue := launchQueue + [request];
      accepted := accepted + [request];
      ProcessNextLaunch(catalog, world);
      return true;
    }

    method ProcessNextLaunch(catalog: Catalog, world: World)
      requires Valid()
      modifies this
      ensures Valid()
      ensures AsScheduler() == ProcessNext(old(AsScheduler()), catalog, world)
    {
      if shutdownStarted || launchBusy || pendingLaunch.Some? || launchQueue == [] {
        return;
      }
      var launch := launchQueue[0];
      launchQueue := launchQueue[1..];
      if launch.directory != "" {
        var shellId := if launch.shellId == "" then catalog.singleShell else launch.shellId;
        if shellId != "automatic" && shellId !in catalog.availableShells {
          EmitFailed(launch);
          posted := posted + 1;
          return;
        }
        if !world.terminalOpens || (launch.Detached() && !world.detaches) {
          EmitFailed(launch);
        } else {
          EmitOpened(launch);
        }
        posted := posted + 1;
        return;
      }
      if launch.passwordFile != "" {
        launchBusy := true;
        captured := Some(launch);
        return;
      }
      if launch.profileId != "" || launch.authentication == "agent" {
        var started := StartLaunchConnection(launch, catalog, world);
        if started {
          posted := posted + 1;
          return;
        }
        if launch.authentication == "agent" {
          EmitFailed(launch);
          posted := posted + 1;
          return;
        }
        if launch.profileId != "" && launch.profileId !in catalog.profileIds {
          EmitFailed(launch);
          posted := posted + 1;
          return;
        }
      }
      pendingLaunch := Some(launch);
      signals := signals + [AuthenticationRequested(launch)];
    }

    method StartLaunchConnection(launch: LaunchRequest, catalog: Catalog, world: World) returns (started: bool)
      modifies this`served, this`signals
      ensures started <==> Starts(launch, catalog, world)
      ensures AsScheduler() == if started then Connected(old(AsScheduler()), launch, world) else old(AsScheduler())
    {
      if launch.profileId != "" && launch.profileId !in catalog.profileIds {
        return false;
      }
      if !world.requestBuilds {
        return false;
      }
      if !world.connectionStarts {
        return false;
      }
      if launch.Detached() && !world.detaches {
        EmitFailed(launch);
        return true;
      }
      EmitOpened(launch);
      return true;
    }

    ghost method EmitFailed(launch: LaunchRequest)
      modifies this`served, this`signals
      ensures AsScheduler() == Fail(old(AsScheduler()), launch)
    {
      signals := signals + [LaunchFailed(launch)];
      served := served + [Served(launch, Failed)];
    }

    ghost method EmitOpened(launch: LaunchRequest)
      modifies this`served, this`signals
      ensures AsScheduler() == Open(old(AsScheduler()), launch)
    {
      signals := signals + [LaunchOpened(launch, launch.Detached())];
      served := served + [Served(launch, Opened)];
    }

    method DeliverCallback(catalog: Catalog, world: World)
      requires Valid() && posted > 0
      modifies this
      ensures Valid()
      ensures AsScheduler() == CallbackFires(old(AsScheduler()), catalog, world)
    {
      posted := posted - 1;
      ProcessNextLaunch(catalog, world);
    }

    method FinishLaunchCredentialRead(readable: bool, catalog: Catalog, world: World, nextWorld: World)
      requires Valid() && captured.Some?
      modifies this
      ensures Valid()
      ensures AsScheduler() == FinishCredentialRead(old(AsScheduler()), readable, catalog, world, nextWorld)
    {
      var launch := captured.value;
      captured := None;
      launchBusy := false;
      if shutdownStarted {
        return;
      }
      if !readable {
        EmitFailed(launch);
      } else {
        var started := StartLaunchConnection(launch, catalog, world);
        if !started {
          EmitFailed(launch);
        }
      }
      ProcessNextLaunch(catalog, nextWorld);
    }

    method CompleteLaunchAuthentication(cancelled: bool, catalog: Catalog, world: World) returns (ok: bool)
      requires Valid()
      modifies this
      ensures Valid()
      ensures (AsScheduler(), ok) == CompleteAuthentication(old(AsScheduler()), cancelled, catalog, world)
    {
      if shutdownStarted || pendingLaunch.None? {
        return false;
      }
      if !cancelled {
        var started := StartLaunchConnection(pendingLaunch.value, catalog, world);
        if !started {
          return false;
        }
      } else {
        served := served + [Served(pendingLaunch.value, Cancelled)];
      }
      pendingLaunch := None;
      posted := posted + 1;
      return true;
    }

    method BeginShutdown()
      requires Valid()
      modifies this
      ensures Valid()
      ensures AsScheduler() == Shutdown(old(AsScheduler()))
    {
      if shutdownStarted {
        return;
      }
      shutdownStarted := true;
      launchQueue := [];
      pendingLaunch := None;
    }
  }

  // ----- every handler keeps the invariant -----

  lemma {:induction false} ServedSnoc(served: seq<Served>, one: Served)
    ensures LaunchesOf(served + [one]) == LaunchesOf(served) + [one.launch]
    ensures Announced(served + [one]) == Announced(served) + if one.outcome.Cancelled? then [] else [one]
  {
    assert (served + [one])[..|served|] == served;
  }

  lemma {:induction false} SignalSnoc(signals: seq<Signal>, one: Signal)
    ensures PromptsOf(signals + [one]) == PromptsOf(signals) + if one.AuthenticationRequested? then [one.launch] else []
    ensures FinalSignals(signals + [one]) == FinalSignals(signals) + match one
      case LaunchFailed(launch) => [Served(launch, Failed)]
      case LaunchOpened(launch, _) => [Served(launch, Opened)]
      case AuthenticationRequested(_) => []
  {
    assert (signals + [one])[..|signals|] == signals;
  }

  /** Ending a launch, announced. */
  lemma {:induction false} EndingEffect(s: Scheduler, launch: LaunchRequest, ended: Scheduler)
    requires ended == Fail(s, launch) || ended == Open(s, launch)
    ensures LaunchesOf(ended.served) == LaunchesOf(s.served) + [launch]
    ensures AnnouncedOnce(s) ==> AnnouncedOnce(ended)
    ensures PromptsOf(ended.signals) == PromptsOf(s.signals)
    ensures ended.(served := s.served, signals := s.signals) == s
  {
    ServedSnoc(s.served, Served(launch, Failed));
    ServedSnoc(s.served, Served(launch, Opened));
    SignalSnoc(s.signals, LaunchFailed(launch));
    SignalSnoc(s.signals, LaunchOpened(launch, launch.Detached()));
  }

  /** A state between handlers, except that nobody may be scheduled to look at the queue. */
  predicate AlmostGood(s: Scheduler) {
    && |s.queue| <= CAPACITY
    && !(s.reading.Some? && s.pending.Some?)
    && AnnouncedOnce(s) && Conserved(s) && OnePrompt(s)
  }

  /** Trying the next request restores the wakeup, whatever the branch. */
  lemma {:induction false} ProcessNextIsGood(s: Scheduler, catalog: Catalog, world: World)
    requires AlmostGood(s) && !s.shutdownStarted
    ensures Good(ProcessNext(s, catalog, world))
  {
    if s.reading.None? && s.pending.None? && s.queue != [] {
      var launch := s.queue[0];
      var taken := s.(queue := s.queue[1..]);
      TakenAndEnded(s, Fail(taken, launch));
      TakenAndEnded(s, Open(taken, launch));
      TakenAndAsked(s);
      TakenAndRead(s);
      hide Good, Fail, Open, Ask;
    } else {
      hide LaunchesOf, FinalSignals, Announced, PromptsOf;
    }
  }

  predicate Idle(s: Scheduler) {
    !s.shutdownStarted && s.reading.None? && s.pending.None? && s.queue != []
  }

  lemma {:induction false} TakenAndEnded(s: Scheduler, ended: Scheduler)
    requires AlmostGood(s) && Idle(s)
    requires var taken := s.(queue := s.queue[1..]); ended == Fail(taken, s.queue[0]) || ended == Open(taken, s.queue[0])
    ensures Good(Post(ended))
  {
    var taken := s.(queue := s.queue[1..]);
    EndingEffect(taken, s.queue[0], ended);
    HeadMoves(LaunchesOf(s.served), s.queue);
    assert s.accepted == LaunchesOf(s.served) + [] + [] + s.queue;
    hide LaunchesOf, FinalSignals, Announced, PromptsOf, Fail, Open;
    assert ended.accepted == LaunchesOf(ended.served) + AsList(ended.reading) + AsList(ended.pending) + ended.queue;
  }

  lemma {:induction false} HeadMoves(done: seq<LaunchRequest>, queue: seq<LaunchRequest>)
    requires queue != []
    ensures done + [queue[0]] + [] + [] + queue[1..] == done + [] + [] + queue
  {
  }

  lemma {:induction false} TakenAndAsked(s: Scheduler)
    requires AlmostGood(s) && Idle(s)
    ensures Good(Ask(s.(queue := s.queue[1..]), s.queue[0]))
  {
    SignalSnoc(s.signals, AuthenticationRequested(s.queue[0]));
    hide LaunchesOf, FinalSignals, Announced, PromptsOf;
    assert LaunchesOf(s.served) + [s.queue[0]] + s.queue[1..] == LaunchesOf(s.served) + s.queue;
  }

  lemma {:induction false} TakenAndRead(s: Scheduler)
    requires AlmostGood(s) && Idle(s)
    ensures Good(s.(queue := s.queue[1..], reading := Some(s.queue[0])))
  {
    hide LaunchesOf, FinalSignals, Announced, PromptsOf;
    assert LaunchesOf(s.served) + [s.queue[0]] + s.queue[1..] == LaunchesOf(s.served) + s.queue;
  }

  lemma {:induction false} OpenKeepsGood(s: Scheduler, request: LaunchRequest, valid: bool, catalog: Catalog, world: World)
    requires Good(s)
    ensures Good(OpenLaunchRequest(s, request, valid, catalog, world).0)
  {
    if !s.shutdownStarted && valid && request.HasTarget() && |s.queue| < CAPACITY {
      var queued := s.(queue := s.queue + [request], accepted := s.accepted + [request]);
      hide LaunchesOf, FinalSignals, Announced, PromptsOf, ProcessNext;
      ProcessNextIsGood(queued, catalog, world);
    }
  }

  lemma {:induction false} CallbackKeepsGood(s: Scheduler, catalog: Catalog, world: World)
    requires Good(s) && s.posted > 0
    ensures Good(CallbackFires(s, catalog, world))
  {
    hide LaunchesOf, FinalSignals, Announced, PromptsOf;
    if !s.shutdownStarted {
      hide ProcessNext;
      ProcessNextIsGood(s.(posted := s.posted - 1), catalog, world);
    }
  }

  lemma {:induction false} ReadKeepsGood(s: Scheduler, readable: bool, catalog: Catalog, world: World, nextWorld: World)
    requires Good(s) && s.reading.Some?
    ensures Good(FinishCredentialRead(s, readable, catalog, world, nextWorld))
  {
    var launch, idle := s.reading.value, s.(reading := None);
    EndingEffect(idle, launch, Fail(idle, launch));
    EndingEffect(idle, launch, Open(idle, launch));
    hide LaunchesOf, FinalSignals, Announced, PromptsOf, ProcessNext;
    if !s.shutdownStarted {
      var finished := if !readable || !Starts(launch, catalog, world) then Fail(idle, launch) else Connected(idle, launch, world);
      assert AlmostGood(finished);
      ProcessNextIsGood(finished, catalog, nextWorld);
    }
  }

  lemma {:induction false} AnswerKeepsGood(s: Scheduler, cancelled: bool, catalog: Catalog, world: World)
    requires Good(s)
    ensures Good(CompleteAuthentication(s, cancelled, catalog, world).0)
  {
    if !s.shutdownStarted && s.pending.Some? {
      var launch := s.pending.value;
      EndingEffect(s, launch, Fail(s, launch));
      EndingEffect(s, launch, Open(s, launch));
      ServedSnoc(s.served, Served(launch, Cancelled));
      hide LaunchesOf, FinalSignals, Announced, PromptsOf;
    }
  }

  // ----- every run -----

  datatype Event =
    | Submit(request: LaunchRequest, valid: bool)
    | Callback
    | ReadDelivered(readable: bool, nextWorld: World)
    | Answer(cancelled: bool)
    | BeginShutdown

  /** An event with what the surroundings decide when it happens. */
  datatype Happening = Happening(event: Event, catalog: Catalog, world: World)

  predicate Enabled(s: Scheduler, event: Event) {
    match event
    case Submit(_, _) => true
    case Callback => s.posted > 0
    case ReadDelivered(_, _) => s.reading.Some?
    case Answer(_) => true
    case BeginShutdown => true
  }

  function Next(s: Scheduler, h: Happening): Scheduler
    requires Enabled(s, h.event)
  {
    match h.event
    case Submit(request, valid) => OpenLaunchRequest(s, request, valid, h.catalog, h.world).0
    case Callback => CallbackFires(s, h.catalog, h.world)
    case ReadDelivered(readable, nextWorld) => FinishCredentialRead(s, readable, h.catalog, h.world, nextWorld)
    case Answer(cancelled) => CompleteAuthentication(s, cancelled, h.catalog, h.world).0
    case BeginShutdown => Shutdown(s)
  }

  lemma {:induction false} NextKeepsGood(s: Scheduler, h: Happening)
    requires Good(s) && Enabled(s, h.event)
    ensures Good(Next(s, h))
  {
    match h.event {
      case Submit(request, valid) => OpenKeepsGood(s, request, valid, h.catalog, h.world);
      case Callback => CallbackKeepsGood(s, h.catalog, h.world);
      case ReadDelivered(readable, nextWorld) => ReadKeepsGood(s, readable, h.catalog, h.world, nextWorld);
      case Answer(cancelled) => AnswerKeepsGood(s, cancelled, h.catalog, h.world);
      case BeginShutdown =>
    }
  }

  /** A run from `s`: each event is enabled when it happens. */
  predicate IsRun(s: Scheduler, run: seq<Happening>)
    decreases |run|
  {
    run == [] || (Enabled(s, run[0].event) && IsRun(Next(s, run[0]), run[1..]))
  }

  function After(s: Scheduler, run: seq<Happening>): Scheduler
    requires IsRun(s, run)
    decreases |run|
  {
    if run == [] then s else After(Next(s, run[0]), run[1..])
  }

  /** In every reachable state: no lost wakeup, one wait at a time, bounded queue, conservation and order. */
  lemma {:induction false} RunsAreGood(s: Scheduler, run: seq<Happening>)
    requires Good(s) && IsRun(s, run)
    ensures Good(After(s, run))
    decreases |run|
  {
    if run != [] {
      hide Good, Next, Enabled;
      NextKeepsGood(s, run[0]);
      RunsAreGood(Next(s, run[0]), run[1..]);
    }
  }

  lemma {:induction false} InitialIsGood()
    ensures Good(INITIAL)
  {
  }

  /** While a prompt is unanswered, no event requests another one or replaces it. */
  lemma {:induction false} OnePromptAtATime(s: Scheduler, h: Happening)
    requires Good(s) && Enabled(s, h.event) && s.pending.Some?
    ensures PromptsOf(Next(s, h).signals) == PromptsOf(s.signals)
    ensures Next(s, h).pending in {None, s.pending}
  {
    if h.event.Answer? {
      EndingEffect(s, s.pending.value, Fail(s, s.pending.value));
      EndingEffect(s, s.pending.value, Open(s, s.pending.value));
    }
    hide LaunchesOf, FinalSignals, Announced, PromptsOf;
  }

  /** Once shutdown has begun nothing is opened, announced or accepted any more. */
  lemma {:induction false} NothingAfterShutdown(s: Scheduler, h: Happening)
    requires s.shutdownStarted && Enabled(s, h.event)
    ensures var after := Next(s, h);
      after.shutdownStarted && after.accepted == s.accepted && after.served == s.served && after.signals == s.signals
      && after.queue == s.queue && after.pending == s.pending
  {
  }

  // ----- draining -----

  /** Work left, weighted so that every event below makes progress. */
  function Work(s: Scheduler): nat {
    3 * |s.queue| + 2 * |AsList(s.reading)| + 2 * |AsList(s.pending)| + s.posted
  }

  /** Events once submissions have stopped: answers to a prompt cancel it or get the connection under way. */
  predicate Drains(s: Scheduler, h: Happening) {
    match h.event
    case Callback => s.posted > 0
    case ReadDelivered(_, _) => s.reading.Some?
    case Answer(cancelled) => s.pending.Some? && (cancelled || Starts(s.pending.value, h.catalog, h.world))
    case Submit(_, _) => false
    case BeginShutdown => false
  }

  lemma {:induction false} ProcessNextWork(s: Scheduler, catalog: Catalog, world: World)
    requires !s.shutdownStarted
    ensures !ProcessNext(s, catalog, world).shutdownStarted
    ensures Work(ProcessNext(s, catalog, world)) <= Work(s) && ProcessNext(s, catalog, world).accepted == s.accepted
  {
  }

  lemma {:induction false} DrainingMakesProgress(s: Scheduler, h: Happening)
    requires Good(s) && !s.shutdownStarted && Drains(s, h)
    ensures Enabled(s, h.event) && !Next(s, h).shutdownStarted && Next(s, h).accepted == s.accepted
    ensures Work(Next(s, h)) < Work(s)
  {
    hide ProcessNext;
    match h.event {
      case Callback => ProcessNextWork(s.(posted := s.posted - 1), h.catalog, h.world);
      case ReadDelivered(readable, nextWorld) =>
        var launch, idle := s.reading.value, s.(reading := None);
        var finished := if !readable || !Starts(launch, h.catalog, h.world) then Fail(idle, launch) else Connected(idle, launch, h.world);
        ProcessNextWork(finished, h.catalog, nextWorld);
      case Answer(cancelled) =>
    }
  }

  predicate IsDraining(s: Scheduler, run: seq<Happening>)
    decreases |run|
  {
    run == [] || (Enabled(s, run[0].event) && Drains(s, run[0]) && IsDraining(Next(s, run[0]), run[1..]))
  }

  function Drained(s: Scheduler, run: seq<Happening>): Scheduler
    requires IsDraining(s, run)
    decreases |run|
  {
    if run == [] then s else Drained(Next(s, run[0]), run[1..])
  }

  /**
   Once submissions stop, at most `Work(s)` events can follow, and when none of them is possible
   any more every accepted request has been served, in the order of acceptance.
   */
  lemma {:induction false} EverythingIsServed(s: Scheduler, run: seq<Happening>)
    requires Good(s) && !s.shutdownStarted && IsDraining(s, run)
    ensures |run| <= Work(s)
    ensures var end := Drained(s, run);
      && end.accepted == s.accepted
      && ((forall h :: !Drains(end, h)) ==> LaunchesOf(end.served) == s.accepted)
    decreases |run|
  {
    if run == [] {
      if forall h :: !Drains(s, h) {
        NothingLeftToDrain(s);
      }
    } else {
      hide Good, Next, Enabled, Drains, Work, LaunchesOf;
      DrainingMakesProgress(s, run[0]);
      NextKeepsGood(s, run[0]);
      EverythingIsServed(Next(s, run[0]), run[1..]);
    }
  }

  lemma {:induction false} NothingLeftToDrain(s: Scheduler)
    requires Good(s) && !s.shutdownStarted && forall h :: !Drains(s, h)
    ensures LaunchesOf(s.served) == s.accepted
  {
    var anyWorld, anyCatalog := World(false, false, false, false), Catalog("", {}, {});
    assert !Drains(s, Happening(Callback, anyCatalog, anyWorld));
    assert !Drains(s, Happening(ReadDelivered(false, anyWorld), anyCatalog, anyWorld));
    assert !Drains(s, Happening(Answer(true), anyCatalog, anyWorld));
  }
}
