/**
 The single-instance server.  Requests from later processes are acknowledged and kept until the
 application is ready, then dispatched in order; after that they are dispatched at once.
 Dispatching a request with a target submits it to the launch scheduler.
 */
module InstanceRequests {
  import opened LaunchScheduler

  const BUFFER := 32

  datatype InstanceSignal =
    | LaunchRequested(request: LaunchRequest)
    | DirectoryOpenRequested(directory: string, shellId: string)
    | ActivationRequested

  /** What dispatching one request emits. */
  function SignalsFor(request: LaunchRequest): seq<InstanceSignal> {
    (if request.HasTarget() then [LaunchRequested(request)] else [])
    + (if request.directory != "" then [DirectoryOpenRequested(request.directory, request.shellId)] else [])
    + (if !request.background && request.windowMode != "detached" then [ActivationRequested] else [])
  }

  function SignalsForAll(requests: seq<LaunchRequest>): seq<InstanceSignal> {
    if requests == [] then []
    else SignalsForAll(requests[..|requests| - 1]) + SignalsFor(requests[|requests| - 1])
  }

  lemma {:induction false} SignalsSnoc(requests: seq<LaunchRequest>, request: LaunchRequest)
    ensures SignalsForAll(requests + [request]) == SignalsForAll(requests) + SignalsFor(request)
  {
    assert (requests + [request])[..|requests|] == requests;
  }

  lemma {:induction false} WholePrefix(requests: seq<LaunchRequest>)
    ensures requests[..|requests|] == requests
  {
  }

  lemma {:induction false} PrefixSignals(requests: seq<LaunchRequest>, n: nat)
    requires n < |requests|
    ensures SignalsForAll(requests[..n + 1]) == SignalsForAll(requests[..n]) + SignalsFor(requests[n])
  {
    hide SignalsFor, SignalsForAll;
    assert requests[..n + 1] == requests[..n] + [requests[n]];
    SignalsSnoc(requests[..n], requests[n]);
  }

  /** The sender of a message is told "ok". */
  predicate Answers(pendingRequests: seq<LaunchRequest>, message: Option<LaunchRequest>) {
    message.Some? && |pendingRequests| < BUFFER
  }

  class ApplicationInstance {
    var ready: bool
    var pendingRequests: seq<LaunchRequest>
    /** Every request whose sender got the acknowledgement, since the server listens. */
    ghost var acknowledged: seq<LaunchRequest>
    ghost var signals: seq<InstanceSignal>

    /** Every acknowledged request is still pending or has been dispatched, once and in order. */
    ghost predicate Valid()
      reads this
    {
      && |pendingRequests| <= BUFFER
      && (ready ==> pendingRequests == [])
      && |pendingRequests| <= |acknowledged|
      && var dispatched := acknowledged[..|acknowledged| - |pendingRequests|];
         && acknowledged == dispatched + pendingRequests
         && signals == SignalsForAll(dispatched)
         && (!ready ==> dispatched == [])
    }

    constructor ()
      ensures Valid() && !ready && acknowledged == [] && signals == []
    {
      ready, pendingRequests, acknowledged, signals := false, [], [], [];
    }

    /** A line arrived; `message` is None if it does not parse as a valid request. */
    method Receive(message: Option<LaunchRequest>) returns (answered: bool)
      requires Valid()
      modifies this
      ensures Valid() && ready == old(ready)
      ensures answered <==> Answers(old(pendingRequests), message)
      ensures ready ==> (answered <==> message.Some?) && pendingRequests == []
      ensures acknowledged == old(acknowledged) + if answered then [message.value] else []
      ensures signals == if answered && ready then old(signals) + SignalsFor(message.value) else old(signals)
    {
      hide SignalsForAll, SignalsFor;
      if message.None? || |pendingRequests| >= BUFFER {
        return false;
      }
      ghost var was, all := acknowledged, acknowledged + [message.value];
      SignalsSnoc(was, message.value);
      WholePrefix(was);
      WholePrefix(all);
      assert !ready ==> was == pendingRequests;
      if ready {
        Dispatch(message.value);
      } else {
        pendingRequests := pendingRequests + [message.value];
      }
      acknowledged := all;
      assert !ready ==> acknowledged == pendingRequests && acknowledged[..0] == [];
      return true;
    }

    method Dispatch(request: LaunchRequest)
      modifies this`signals
      ensures signals == old(signals) + SignalsFor(request)
    {
      if request.HasTarget() {
        signals := signals + [LaunchRequested(request)];
      }
      if request.directory != "" {
        signals := signals + [DirectoryOpenRequested(request.directory, request.shellId)];
      }
      if !request.background && request.windowMode != "detached" {
        signals := signals + [ActivationRequested];
      }
    }

    /** Everything acknowledged so far is dispatched exactly once, in the order of acknowledgement. */
    method SetReady()
      requires Valid()
      modifies this
      ensures Valid() && ready && acknowledged == old(acknowledged)
      ensures signals == SignalsForAll(acknowledged)
    {
      hide SignalsForAll, SignalsFor;
      ready := true;
      var requests := pendingRequests;
      pendingRequests := [];
      ghost var done := |acknowledged| - |requests|;
      for k := 0 to |requests|
        invariant acknowledged == old(acknowledged) && ready && pendingRequests == []
        invariant signals == SignalsForAll(acknowledged[..done + k])
      {
        assert acknowledged[done + k] == requests[k];
        PrefixSignals(acknowledged, done + k);
        Dispatch(requests[k]);
      }
      assert acknowledged[..|acknowledged|] == acknowledged;
    }

    method Release()
      modifies this
      ensures Valid() && !ready && pendingRequests == [] && acknowledged == [] && signals == []
    {
      ready := false;
      pendingRequests := [];
      acknowledged, signals := [], [];
    }
  }

  // ----- before the instance is ready -----

  /** The buffer after these messages, `None` standing for one that does not parse. */
  function Buffered(messages: seq<Option<LaunchRequest>>): seq<LaunchRequest> {
    if messages == [] then []
    else
      var front, last := Buffered(messages[..|messages| - 1]), messages[|messages| - 1];
      if Answers(front, last) then front + [last.value] else front
  }

  function Parsed(messages: seq<Option<LaunchRequest>>): seq<LaunchRequest> {
    if messages == [] then []
    else
      var last := messages[|messages| - 1];
      Parsed(messages[..|messages| - 1]) + if last.Some? then [last.value] else []
  }

  /** Until the instance is ready, exactly the first 32 requests that parse are acknowledged and kept, in order. */
  lemma {:induction false} FirstAreBuffered(messages: seq<Option<LaunchRequest>>)
    ensures var parsed := Parsed(messages);
      Buffered(messages) == if |parsed| <= 32 then parsed else parsed[..32]
  {
    if messages != [] {
      var front, last := messages[..|messages| - 1], messages[|messages| - 1];
      FirstAreBuffered(front);
    }
  }

  // ----- composition with the scheduler -----

  /** The requests handed over by the launch signals. */
  function Launched(signals: seq<InstanceSignal>): seq<LaunchRequest> {
    if signals == [] then []
    else
      var last := signals[|signals| - 1];
      Launched(signals[..|signals| - 1]) + if last.LaunchRequested? then [last.request] else []
  }

  function WithTarget(requests: seq<LaunchRequest>): seq<LaunchRequest> {
    if requests == [] then []
    else (if requests[0].HasTarget() then [requests[0]] else []) + WithTarget(requests[1..])
  }

  lemma {:induction false} WithTargetNone()
    ensures WithTarget([]) == []
  {
  }

  lemma {:induction false} WithTargetCons(request: LaunchRequest, rest: seq<LaunchRequest>)
    ensures WithTarget([request] + rest) == (if request.HasTarget() then [request] else []) + WithTarget(rest)
  {
    assert ([request] + rest)[1..] == rest;
  }

  lemma {:induction false} WithTargetSnoc(requests: seq<LaunchRequest>, last: LaunchRequest)
    ensures WithTarget(requests + [last]) == WithTarget(requests) + if last.HasTarget() then [last] else []
  {
    hide WithTarget;
    WithTargetNone();
    if requests == [] {
      assert requests + [last] == [last] + [];
      WithTargetCons(last, []);
    } else {
      assert requests == [requests[0]] + requests[1..];
      assert requests + [last] == [requests[0]] + (requests[1..] + [last]);
      WithTargetCons(requests[0], requests[1..]);
      WithTargetCons(requests[0], requests[1..] + [last]);
      WithTargetSnoc(requests[1..], last);
    }
  }

  lemma {:induction false} LaunchedAppend(a: seq<InstanceSignal>, b: seq<InstanceSignal>)
    ensures Launched(a + b) == Launched(a) + Launched(b)
  {
    if b == [] {
      assert a + b == a;
    } else {
      LaunchedAppend(a, b[..|b| - 1]);
      assert (a + b)[..|a + b| - 1] == a + b[..|b| - 1];
    }
  }

  /** The signals hand over exactly the requests with a target, once each and in order. */
  lemma {:induction false} SignalsLaunchTargets(requests: seq<LaunchRequest>)
    ensures Launched(SignalsForAll(requests)) == WithTarget(requests)
  {
    hide Launched, SignalsFor, WithTarget, SignalsForAll;
    if requests == [] {
      NoSignals();
    } else {
      var front, last := requests[..|requests| - 1], requests[|requests| - 1];
      assert front + [last] == requests;
      SignalsLaunchTargets(front);
      SignalsSnoc(front, last);
      LaunchedAppend(SignalsForAll(front), SignalsFor(last));
      OneRequestLaunches(last);
      WithTargetSnoc(front, last);
    }
  }

  lemma {:induction false} NoSignals()
    ensures Launched(SignalsForAll([])) == WithTarget([])
  {
  }

  lemma {:induction false} OneRequestLaunches(request: LaunchRequest)
    ensures Launched(SignalsFor(request)) == if request.HasTarget() then [request] else []
  {
    var a := if request.HasTarget() then [LaunchRequested(request)] else [];
    var b := if request.directory != "" then [DirectoryOpenRequested(request.directory, request.shellId)] else [];
    var c := if !request.background && request.windowMode != "detached" then [ActivationRequested] else [];
    LaunchedAppend(a + b, c);
    LaunchedAppend(a, b);
  }

  /** The order in which the signals of one request are emitted. */
  function Rank(signal: InstanceSignal): nat {
    match signal
    case LaunchRequested(_) => 0
    case DirectoryOpenRequested(_, _) => 1
    case ActivationRequested => 2
  }

  /**
   One request emits, each at most once and in this order: the launch if it names a directory, a host
   or a profile; its directory with the shell, if it has one; and an activation exactly if it is
   neither in the background nor for a window of its own.
   */
  lemma {:induction false} SignalsExactly(request: LaunchRequest)
    ensures var signals := SignalsFor(request);
      && (forall i, j :: 0 <= i < j < |signals| ==> Rank(signals[i]) < Rank(signals[j]))
      && (LaunchRequested(request) in signals <==> request.directory != "" || request.host != "" || request.profileId != "")
      && (DirectoryOpenRequested(request.directory, request.shellId) in signals <==> request.directory != "")
      && (ActivationRequested in signals <==> !(request.background || request.windowMode == "detached"))
      && forall signal :: signal in signals ==>
           signal in {LaunchRequested(request), DirectoryOpenRequested(request.directory, request.shellId), ActivationRequested}
  {
    var signals := SignalsFor(request);
    var a := if request.HasTarget() then [LaunchRequested(request)] else [];
    var b := if request.directory != "" then [DirectoryOpenRequested(request.directory, request.shellId)] else [];
    var c := if !request.background && request.windowMode != "detached" then [ActivationRequested] else [];
    assert signals == a + b + c;
    assert forall k :: 0 <= k < |a| ==> signals[k] == a[k];
    assert forall k :: 0 <= k < |b| ==> signals[|a| + k] == b[k];
    assert forall k :: 0 <= k < |c| ==> signals[|a| + |b| + k] == c[k];
  }

  /** What each dispatched request finds when its launch is tried. */
  datatype Delivery = Delivery(request: LaunchRequest, catalog: Catalog, world: World)

  /** The launch requests reach the scheduler one by one, in order. */
  function Deliver(s: Scheduler, deliveries: seq<Delivery>): Scheduler
    decreases |deliveries|
  {
    if deliveries == [] then s else Deliver(DeliverOne(s, deliveries[0]), deliveries[1..])
  }

  /** Requests reach this point only if they are valid. */
  function DeliverOne(s: Scheduler, d: Delivery): Scheduler {
    if d.request.HasTarget() then OpenLaunchRequest(s, d.request, true, d.catalog, d.world).0 else s
  }

  function Requests(deliveries: seq<Delivery>): (r: seq<LaunchRequest>)
    ensures |r| == |deliveries|
  {
    if deliveries == [] then [] else [deliveries[0].request] + Requests(deliveries[1..])
  }

  lemma {:induction false} ProcessNextQueue(s: Scheduler, catalog: Catalog, world: World)
    ensures var after := ProcessNext(s, catalog, world);
      && |after.queue| <= |s.queue| && after.shutdownStarted == s.shutdownStarted && after.accepted == s.accepted
      && (s.reading.None? && s.pending.None? && !s.shutdownStarted && s.queue != [] ==> |after.queue| == |s.queue| - 1)
  {
  }

  /** As long as the queue has room for all of them, every request with a target is accepted, in order. */
  lemma {:induction false} DeliveredAreAccepted(s: Scheduler, deliveries: seq<Delivery>)
    requires !s.shutdownStarted && |s.queue| + |deliveries| <= CAPACITY
    ensures Deliver(s, deliveries).accepted == s.accepted + WithTarget(Requests(deliveries))
    decreases |deliveries|
  {
    if deliveries != [] {
      var d := deliveries[0];
      var next := DeliverOne(s, d);
      ProcessNextQueue(s.(queue := s.queue + [d.request], accepted := s.accepted + [d.request]), d.catalog, d.world);
      hide ProcessNext;
      assert !next.shutdownStarted && |next.queue| <= |s.queue| + 1;
      DeliveredAreAccepted(next, deliveries[1..]);
      assert Requests(deliveries)[1..] == Requests(deliveries[1..]);
    }
  }

  /**
   At start-up nothing acknowledged is dropped: after at most one launch of the process's own, the
   scheduler accepts every launch that the signals for the buffered requests hand over, in order.
   */
  lemma {:induction false} BufferedRequestsAreAccepted(own: Option<LaunchRequest>, valid: bool, catalog: Catalog, world: World, deliveries: seq<Delivery>)
    requires |deliveries| <= BUFFER
    ensures var start := if own.Some? then OpenLaunchRequest(INITIAL, own.value, valid, catalog, world).0 else INITIAL;
      Deliver(start, deliveries).accepted == start.accepted + Launched(SignalsForAll(Requests(deliveries)))
  {
    var start := if own.Some? then OpenLaunchRequest(INITIAL, own.value, valid, catalog, world).0 else INITIAL;
    if own.Some? {
      ProcessNextQueue(INITIAL.(queue := [own.value], accepted := [own.value]), catalog, world);
      assert INITIAL.queue + [own.value] == [own.value] && INITIAL.accepted + [own.value] == [own.value];
    }
    hide ProcessNext;
    assert start.queue == [] && !start.shutdownStarted;
    DeliveredAreAccepted(start, deliveries);
    SignalsLaunchTargets(Requests(deliveries));
  }

  // ----- requests that arrive when the instance is ready -----

  /** After readiness: a request arrives, or the scheduler handles one of its own events. */
  datatype ReadyEvent = Arrival(delivery: Delivery) | Handled(happening: Happening)

  /** An event of the scheduler that is not possible at the time does not happen. */
  function AfterEvent(s: Scheduler, event: ReadyEvent): Scheduler {
    match event
    case Arrival(delivery) => DeliverOne(s, delivery)
    case Handled(h) => if Enabled(s, h.event) && !h.event.Submit? then Next(s, h) else s
  }

  function AfterEvents(s: Scheduler, events: seq<ReadyEvent>): Scheduler
    decreases |events|
  {
    if events == [] then s else AfterEvents(AfterEvent(s, events[0]), events[1..])
  }

  /** The requests with a target whose senders were told "ok" by an instance that is ready. */
  function Told(events: seq<ReadyEvent>): seq<LaunchRequest>
    decreases |events|
  {
    if events == [] then []
    else
      (if events[0].Arrival? && Answers([], Some(events[0].delivery.request)) && events[0].delivery.request.HasTarget()
       then [events[0].delivery.request] else [])
      + Told(events[1..])
  }

  /** Whenever a request with a target arrives, no shutdown has begun and the queue has room. */
  predicate AlwaysRoom(s: Scheduler, events: seq<ReadyEvent>)
    decreases |events|
  {
    events == [] || (
      && (events[0].Arrival? && events[0].delivery.request.HasTarget() ==> !s.shutdownStarted && |s.queue| < CAPACITY)
      && AlwaysRoom(AfterEvent(s, events[0]), events[1..]))
  }

  /** One event accepts the request that arrives, if there is room for it, and nothing else. */
  lemma {:induction false} EventAccepts(s: Scheduler, event: ReadyEvent)
    ensures AfterEvent(s, event).accepted
      == s.accepted + if event.Arrival? && event.delivery.request.HasTarget() && !s.shutdownStarted && |s.queue| < CAPACITY
                      then [event.delivery.request] else []
  {
    hide ProcessNext;
    match event {
      case Arrival(d) =>
        ProcessNextQueue(s.(queue := s.queue + [d.request], accepted := s.accepted + [d.request]), d.catalog, d.world);
      case Handled(h) =>
        if Enabled(s, h.event) && !h.event.Submit? {
          HandledAcceptsNothing(s, h);
        }
    }
  }

  lemma {:induction false} HandledAcceptsNothing(s: Scheduler, h: Happening)
    requires Enabled(s, h.event) && !h.event.Submit?
    ensures Next(s, h).accepted == s.accepted
  {
    hide ProcessNext;
    match h.event {
      case Callback => ProcessNextQueue(s.(posted := s.posted - 1), h.catalog, h.world);
      case ReadDelivered(readable, nextWorld) =>
        var launch, idle := s.reading.value, s.(reading := None);
        var finished := if !readable || !Starts(launch, h.catalog, h.world) then Fail(idle, launch) else Connected(idle, launch, h.world);
        ProcessNextQueue(finished, h.catalog, nextWorld);
      case _ =>
    }
  }

  /**
   In every run of a ready instance and its scheduler, with the scheduler's own events in between: all
   requests whose senders were told "ok" are accepted, in order, if and only if the queue had room each time.
   Otherwise some of them are lost.
   */
  lemma {:induction false} ToldAreAcceptedExactly(s: Scheduler, events: seq<ReadyEvent>)
    ensures AfterEvents(s, events).accepted == s.accepted + Told(events) <==> AlwaysRoom(s, events)
    ensures !AlwaysRoom(s, events) ==> |AfterEvents(s, events).accepted| < |s.accepted| + |Told(events)|
    ensures |AfterEvents(s, events).accepted| <= |s.accepted| + |Told(events)|
    decreases |events|
  {
    hide AfterEvent, Told, AlwaysRoom, AfterEvents, Answers;
    UnfoldEvents(s, events);
    if events == [] {
      return;
    }
    var next, rest := AfterEvent(s, events[0]), events[1..];
    var told := if events[0].Arrival? && events[0].delivery.request.HasTarget() then [events[0].delivery.request] else [];
    EventAccepts(s, events[0]);
    ToldAreAcceptedExactly(next, rest);
    assert Told(events) == told + Told(rest) && AfterEvents(s, events) == AfterEvents(next, rest);
    assert (s.accepted + told) + Told(rest) == s.accepted + Told(events);
    assert |Told(events)| == |told| + |Told(rest)|;
    if next.accepted != s.accepted + told {
      assert told != [] && next.accepted == s.accepted;
    }
  }

  lemma {:induction false} UnfoldEvents(s: Scheduler, events: seq<ReadyEvent>)
    ensures events == [] ==> Told(events) == [] && AlwaysRoom(s, events) && AfterEvents(s, events) == s
    ensures events != [] ==>
      && AfterEvents(s, events) == AfterEvents(AfterEvent(s, events[0]), events[1..])
      && Told(events)
           == (if events[0].Arrival? && events[0].delivery.request.HasTarget() then [events[0].delivery.request] else []) + Told(events[1..])
      && (AlwaysRoom(s, events) <==>
           && (events[0].Arrival? && events[0].delivery.request.HasTarget() ==> !s.shutdownStarted && |s.queue| < CAPACITY)
           && AlwaysRoom(AfterEvent(s, events[0]), events[1..]))
  {
    hide AfterEvent;
  }

  /** The request is one that the user is asked about. */
  predicate Prompts(request: LaunchRequest) {
    request.HasTarget() && request.directory == "" && request.passwordFile == "" && request.profileId == "" && request.authentication != "agent"
  }

  /** While a prompt is unanswered or a file is being read, arriving requests only lengthen the queue, in order, up to its limit. */
  lemma {:induction false} WaitingOnlyQueues(s: Scheduler, arrivals: seq<Delivery>)
    requires !s.shutdownStarted && (s.pending.Some? || s.reading.Some?) && |s.queue| + |arrivals| <= CAPACITY
    requires forall k :: 0 <= k < |arrivals| ==> arrivals[k].request.HasTarget()
    ensures Deliver(s, arrivals) == s.(queue := s.queue + Requests(arrivals), accepted := s.accepted + Requests(arrivals))
    decreases |arrivals|
  {
    hide DeliverOne, Deliver, Requests;
    NoDeliveries(s);
    if arrivals == [] {
      assert s.queue + [] == s.queue && s.accepted + [] == s.accepted;
      return;
    }
    var d, rest := arrivals[0], arrivals[1..];
    assert arrivals == [d] + rest;
    WaitingTakesOne(s, d);
    OneDelivery(s, d, rest);
    WaitingOnlyQueues(DeliverOne(s, d), rest);
    Reassociate(s.queue, d.request, Requests(rest));
    Reassociate(s.accepted, d.request, Requests(rest));
  }

  lemma {:induction false} Reassociate<T>(a: seq<T>, x: T, b: seq<T>)
    ensures (a + [x]) + b == a + ([x] + b)
  {
  }

  /** Beyond that they are dropped. */
  lemma {:induction false} FullDropsAll(s: Scheduler, arrivals: seq<Delivery>)
    requires |s.queue| >= CAPACITY
    ensures Deliver(s, arrivals) == s
    decreases |arrivals|
  {
    if arrivals != [] {
      hide Deliver;
      assert arrivals == [arrivals[0]] + arrivals[1..];
      OneDelivery(s, arrivals[0], arrivals[1..]);
      FullDropsAll(s, arrivals[1..]);
    }
  }

  lemma {:induction false} NoDeliveries(s: Scheduler)
    ensures Deliver(s, []) == s && Requests([]) == []
  {
  }

  lemma {:induction false} OneDelivery(s: Scheduler, d: Delivery, rest: seq<Delivery>)
    ensures Deliver(s, [d] + rest) == Deliver(DeliverOne(s, d), rest) && Requests([d] + rest) == [d.request] + Requests(rest)
  {
    hide DeliverOne;
    assert ([d] + rest)[1..] == rest;
  }

  lemma {:induction false} WaitingTakesOne(s: Scheduler, d: Delivery)
    requires !s.shutdownStarted && (s.pending.Some? || s.reading.Some?) && d.request.HasTarget()
    ensures DeliverOne(s, d)
      == if |s.queue| < CAPACITY then s.(queue := s.queue + [d.request], accepted := s.accepted + [d.request]) else s
  {
  }

  /**
   And the queue does fill up: after a first request that the user is asked about and 32 more, each
   further sender is told "ok" and its request is lost, until the prompt is answered.
   */
  lemma {:induction false} ToldAndLost(arrivals: seq<Delivery>, late: Delivery)
    requires |arrivals| == CAPACITY + 1 && Prompts(arrivals[0].request) && late.request.HasTarget()
    requires forall k :: 0 <= k < |arrivals| ==> arrivals[k].request.HasTarget()
    ensures var full := Deliver(INITIAL, arrivals);
      && full.accepted == Requests(arrivals) && full.pending == Some(arrivals[0].request) && |full.queue| == CAPACITY
      && Answers([], Some(late.request)) && DeliverOne(full, late) == full
  {
    var first, rest := arrivals[0], arrivals[1..];
    var asked := DeliverOne(INITIAL, first);
    assert [] + [first.request] == [first.request] && [first.request][1..] == [];
    assert asked == INITIAL.(pending := Some(first.request), accepted := [first.request], signals := [AuthenticationRequested(first.request)]);
    WaitingOnlyQueues(asked, rest);
    assert Requests(arrivals) == [first.request] + Requests(rest);
  }
}
