/**
 How each launch request ends.  The outcome of every request that a run of the scheduler ends is
 given by the request's own fields, the catalog, and what the surroundings decide in that event.
 */
module LaunchOutcomes {
  import opened LaunchScheduler

  /** A request for a separate window is only met if the tab can be moved there. */
  predicate WindowWorks(launch: LaunchRequest, world: World) {
    launch.windowMode == "detached" ==> world.detaches
  }

  /** The shell is the automatic one or available, and a terminal with it opens where it should. */
  predicate LocalOpens(launch: LaunchRequest, catalog: Catalog, world: World) {
    var shell := if launch.shellId != "" then launch.shellId else catalog.singleShell;
    && (shell == "automatic" || shell in catalog.availableShells)
    && world.terminalOpens && WindowWorks(launch, world)
  }

  /** The profile, if one is named, exists, and a connection can be built and started. */
  predicate Connects(launch: LaunchRequest, catalog: Catalog, world: World) {
    (launch.profileId == "" || launch.profileId in catalog.profileIds) && world.requestBuilds && world.connectionStarts
  }

  predicate ConnectionOpens(launch: LaunchRequest, catalog: Catalog, world: World) {
    Connects(launch, catalog, world) && WindowWorks(launch, world)
  }

  /** The credential is in a file that has to be read first. */
  predicate NeedsFile(launch: LaunchRequest) {
    launch.directory == "" && launch.passwordFile != ""
  }

  /**
   The user has to be asked: for a connection without file and agent that names no profile, or an
   existing one that does not connect without an answer.
   */
  predicate NeedsAnswer(launch: LaunchRequest, catalog: Catalog, world: World) {
    && launch.directory == "" && launch.passwordFile == "" && launch.authentication != "agent"
    && (launch.profileId == "" || (launch.profileId in catalog.profileIds && !Connects(launch, catalog, world)))
  }

  function OpenedIf(works: bool): Outcome {
    if works then Opened else Failed
  }

  /** What a request ends as at its turn, if it ends then. */
  function AtItsTurn(launch: LaunchRequest, catalog: Catalog, world: World): seq<Served> {
    if NeedsFile(launch) || NeedsAnswer(launch, catalog, world) then []
    else if launch.directory != "" then [Served(launch, OpenedIf(LocalOpens(launch, catalog, world)))]
    else [Served(launch, OpenedIf(ConnectionOpens(launch, catalog, world)))]
  }

  /** The queue when an event looks for the next request; empty if it does not look or something is still waited for. */
  function Waiting(s: Scheduler, event: Event): seq<LaunchRequest> {
    if s.shutdownStarted || s.pending.Some? || (s.reading.Some? && !event.ReadDelivered?) then []
    else match event
      case Submit(request, valid) => if Accepts(s, request, valid) then s.queue + [request] else []
      case Callback => s.queue
      case ReadDelivered(_, _) => s.queue
      case Answer(_) => []
      case BeginShutdown => []
  }

  predicate Accepts(s: Scheduler, request: LaunchRequest, valid: bool) {
    && !s.shutdownStarted && valid && |s.queue| < 32
    && (request.directory != "" || request.host != "" || request.profileId != "")
  }

  /** The surroundings as the next request finds them. */
  function TurnWorld(h: Happening): World {
    if h.event.ReadDelivered? then h.event.nextWorld else h.world
  }

  /** What ends the request that was waited for. */
  function AfterWait(s: Scheduler, h: Happening): seq<Served>
    requires Enabled(s, h.event)
  {
    if s.shutdownStarted then []
    else match h.event
      case ReadDelivered(readable, _) =>
        [Served(s.reading.value, OpenedIf(readable && ConnectionOpens(s.reading.value, h.catalog, h.world)))]
      case Answer(cancelled) =>
        if s.pending.None? then []
        else if cancelled then [Served(s.pending.value, Cancelled)]
        else if Connects(s.pending.value, h.catalog, h.world) then [Served(s.pending.value, OpenedIf(WindowWorks(s.pending.value, h.world)))]
        else []
      case _ => []
  }

  function AtTurn(s: Scheduler, h: Happening): seq<Served>
    requires Enabled(s, h.event)
  {
    var waiting := Waiting(s, h.event);
    if waiting == [] then [] else AtItsTurn(waiting[0], h.catalog, TurnWorld(h))
  }

  /** The requests that an event ends, with their outcomes. */
  function EndedBy(s: Scheduler, h: Happening): seq<Served>
    requires Enabled(s, h.event)
  {
    AfterWait(s, h) + AtTurn(s, h)
  }

  /** The request that an event asks the user about. */
  function AskedBy(s: Scheduler, h: Happening): seq<LaunchRequest>
    requires Enabled(s, h.event)
  {
    var waiting := Waiting(s, h.event);
    if waiting != [] && NeedsAnswer(waiting[0], h.catalog, TurnWorld(h)) then [waiting[0]] else []
  }

  /** How an ending is told: a cancellation is not. */
  function Told(ended: seq<Served>): seq<Signal> {
    if ended == [] then []
    else
      (match ended[0].outcome
       case Opened => [LaunchOpened(ended[0].launch, ended[0].launch.windowMode == "detached")]
       case Failed => [LaunchFailed(ended[0].launch)]
       case Cancelled => [])
      + Told(ended[1..])
  }

  function Asked(launches: seq<LaunchRequest>): seq<Signal> {
    if launches == [] then [] else [AuthenticationRequested(launches[0])] + Asked(launches[1..])
  }

  // ----- one event -----

  lemma {:induction false} ToldOne(one: Served)
    ensures Told([]) == []
    ensures Told([one]) == match one.outcome
      case Opened => [LaunchOpened(one.launch, one.launch.windowMode == "detached")]
      case Failed => [LaunchFailed(one.launch)]
      case Cancelled => []
  {
    assert [one][1..] == [];
  }

  lemma {:induction false} AskedOne(launch: LaunchRequest)
    ensures Asked([]) == [] && Asked([launch]) == [AuthenticationRequested(launch)]
  {
    assert [launch][1..] == [];
  }

  /** The next request's turn. */
  lemma {:induction false} TurnExactly(s: Scheduler, catalog: Catalog, world: World)
    requires !s.shutdownStarted && s.reading.None? && s.pending.None? && s.queue != []
    ensures var launch, after := s.queue[0], ProcessNext(s, catalog, world);
      var ended := AtItsTurn(launch, catalog, world);
      var asked := if NeedsAnswer(launch, catalog, world) then [launch] else [];
      && after.served == s.served + ended
      && after.signals == s.signals + Told(ended) + Asked(asked)
      && after.reading == (if NeedsFile(launch) then Some(launch) else None)
      && after.pending == (if asked != [] then Some(launch) else None)
      && after.queue == s.queue[1..] && after.posted == s.posted + |ended|
  {
    var launch := s.queue[0];
    var ended := AtItsTurn(launch, catalog, world);
    AskedOne(launch);
    ToldOne(Served(launch, Opened));
    ToldOne(Served(launch, Failed));
    hide Told, Asked;
    assert ended == [] || ended == [Served(launch, Opened)] || ended == [Served(launch, Failed)];
  }

  function Head(launches: seq<LaunchRequest>, otherwise: Option<LaunchRequest>): Option<LaunchRequest> {
    if launches == [] then otherwise else Some(launches[0])
  }

  /** What is read after an event. */
  function ReadAfter(s: Scheduler, h: Happening): Option<LaunchRequest> {
    var waiting := Waiting(s, h.event);
    if waiting != [] && NeedsFile(waiting[0]) then Some(waiting[0]) else if h.event.ReadDelivered? then None else s.reading
  }

  /** Whom the user is asked about after an event. */
  function PendingAfter(s: Scheduler, h: Happening): Option<LaunchRequest>
    requires Enabled(s, h.event)
  {
    var answered := h.event.Answer? && AfterWait(s, h) != [];
    Head(AskedBy(s, h), if answered || (h.event.BeginShutdown? && !s.shutdownStarted) then None else s.pending)
  }

  /** What is queued after an event: the request whose turn it was is gone, a shutdown drops all. */
  function QueueAfter(s: Scheduler, h: Happening): seq<LaunchRequest> {
    var waiting := Waiting(s, h.event);
    if waiting != [] then waiting[1..]
    else match h.event
      case Submit(request, valid) => if Accepts(s, request, valid) then s.queue + [request] else s.queue
      case BeginShutdown => if s.shutdownStarted then s.queue else []
      case _ => s.queue
  }

  /** Callbacks after an event: an ending at its turn and an answer post one each. */
  function PostedAfter(s: Scheduler, h: Happening): int
    requires Enabled(s, h.event)
  {
    s.posted - (if h.event.Callback? then 1 else 0) + |AtTurn(s, h)| + if h.event.Answer? then |AfterWait(s, h)| else 0
  }

  /** The event does exactly what the fields of the requests and the surroundings say. */
  predicate AsComputed(s: Scheduler, h: Happening)
    requires Enabled(s, h.event)
  {
    var after := Next(s, h);
    && after.served == s.served + EndedBy(s, h)
    && after.signals == s.signals + Told(AfterWait(s, h)) + Told(AtTurn(s, h)) + Asked(AskedBy(s, h))
    && after.reading == ReadAfter(s, h) && after.pending == PendingAfter(s, h)
    && after.queue == QueueAfter(s, h) && after.posted == PostedAfter(s, h)
  }

  lemma {:induction false} SubmitExactly(s: Scheduler, h: Happening)
    requires h.event.Submit? && !s.shutdownStarted
    ensures AsComputed(s, h)
  {
    hide ProcessNext, Told, Asked, AtItsTurn, NeedsAnswer, NeedsFile;
    var request := h.event.request;
    NothingToldAtAll();
    if Accepts(s, request, h.event.valid) {
      var queued := s.(queue := s.queue + [request], accepted := s.accepted + [request]);
      if s.reading.None? && s.pending.None? {
        TurnExactly(queued, h.catalog, h.world);
      } else {
        Waits(queued, h.catalog, h.world);
      }
    }
  }

  lemma {:induction false} CallbackExactly(s: Scheduler, h: Happening)
    requires h.event.Callback? && !s.shutdownStarted && s.posted > 0
    ensures AsComputed(s, h)
  {
    hide ProcessNext, Told, Asked, AtItsTurn, NeedsAnswer, NeedsFile;
    NothingToldAtAll();
    var idle := s.(posted := s.posted - 1);
    if Waiting(s, h.event) != [] {
      TurnExactly(idle, h.catalog, h.world);
    } else {
      Waits(idle, h.catalog, h.world);
    }
  }

  lemma {:induction false} ReadExactly(s: Scheduler, h: Happening)
    requires h.event.ReadDelivered? && !s.shutdownStarted && s.reading.Some?
    ensures AsComputed(s, h)
  {
    hide ProcessNext, Told, Asked, AtItsTurn, NeedsAnswer, NeedsFile;
    NothingToldAtAll();
    var finished := Finished(s, h);
    assert Next(s, h) == ProcessNext(finished, h.catalog, h.event.nextWorld);
    ToldOne(AfterWait(s, h)[0]);
    assert finished == s.(reading := None, served := s.served + AfterWait(s, h), signals := s.signals + Told(AfterWait(s, h)));
    hide Finished, AfterWait;
    if Waiting(s, h.event) != [] {
      TurnExactly(finished, h.catalog, h.event.nextWorld);
    } else {
      Waits(finished, h.catalog, h.event.nextWorld);
    }
  }

  /** The scheduler when the file's request has ended. */
  function Finished(s: Scheduler, h: Happening): Scheduler
    requires h.event.ReadDelivered? && s.reading.Some?
  {
    var launch, idle := s.reading.value, s.(reading := None);
    if !h.event.readable || !Starts(launch, h.catalog, h.world) then Fail(idle, launch) else Connected(idle, launch, h.world)
  }

  lemma {:induction false} AnswerExactly(s: Scheduler, h: Happening)
    requires h.event.Answer? && !s.shutdownStarted
    ensures AsComputed(s, h)
  {
    hide Told, Asked;
    NothingToldAtAll();
    if s.pending.Some? {
      ToldOne(Served(s.pending.value, Cancelled));
      ToldOne(Served(s.pending.value, Opened));
      ToldOne(Served(s.pending.value, Failed));
    }
  }

  lemma {:induction false} NothingToldAtAll()
    ensures Told([]) == [] && Asked([]) == []
  {
  }

  lemma {:induction false} Waits(s: Scheduler, catalog: Catalog, world: World)
    requires s.shutdownStarted || s.reading.Some? || s.pending.Some? || s.queue == []
    ensures ProcessNext(s, catalog, world) == s
  {
  }

  lemma {:induction false} ShutdownExactly(s: Scheduler, h: Happening)
    requires h.event.BeginShutdown? && !s.shutdownStarted
    ensures AsComputed(s, h)
  {
    NothingToldAtAll();
  }

  /**
   What one event does, from the fields of the requests and the surroundings: which requests it
   ends and how, what the user is told and asked, and who waits afterwards.
   */
  lemma {:induction false} EventExactly(s: Scheduler, h: Happening)
    requires Enabled(s, h.event)
    ensures AsComputed(s, h)
  {
    NothingToldAtAll();
    hide ProcessNext, Told, Asked, AtItsTurn, NeedsAnswer, NeedsFile;
    if s.shutdownStarted {
      assert Waiting(s, h.event) == [] && AfterWait(s, h) == [];
      if h.event.Callback? {
        Waits(s.(posted := s.posted - 1), h.catalog, h.world);
      }
    } else {
      hide AsComputed;
      match h.event {
        case Submit(request, valid) => SubmitExactly(s, h);
        case Callback => CallbackExactly(s, h);
        case ReadDelivered(readable, nextWorld) => ReadExactly(s, h);
        case Answer(cancelled) => AnswerExactly(s, h);
        case BeginShutdown => ShutdownExactly(s, h);
      }
    }
  }

  /** The outcomes of all requests that a run ends, in order. */
  function Endings(s: Scheduler, run: seq<Happening>): seq<Served>
    requires IsRun(s, run)
    decreases |run|
  {
    if run == [] then [] else EndedBy(s, run[0]) + Endings(Next(s, run[0]), run[1..])
  }

  /** In every run the requests end as their fields and the surroundings of that event have it, and in no other way. */
  lemma {:induction false} RunsEndAsDue(s: Scheduler, run: seq<Happening>)
    requires IsRun(s, run)
    ensures After(s, run).served == s.served + Endings(s, run)
    decreases |run|
  {
    hide EndedBy, Next, Enabled;
    if run == [] {
      assert s.served + [] == s.served;
    } else {
      ServedExactly(s, run[0]);
      RunsEndAsDue(Next(s, run[0]), run[1..]);
      Reassociate(s.served, EndedBy(s, run[0]), Endings(Next(s, run[0]), run[1..]));
    }
  }

  lemma {:induction false} ServedExactly(s: Scheduler, h: Happening)
    requires Enabled(s, h.event)
    ensures Next(s, h).served == s.served + EndedBy(s, h)
  {
    hide EndedBy, Next, Enabled;
    EventExactly(s, h);
  }

  lemma {:induction false} Reassociate<T>(a: seq<T>, b: seq<T>, c: seq<T>)
    ensures (a + b) + c == a + (b + c)
  {
  }
}
