/**
 Desktop notifications from terminals: a notification goes out when a tab's snapshot shows one that
 the tab's previous snapshot did not show, but all tabs together must leave two seconds between two.
 */
module NotificationLimiter {

  datatype Option<+T> = None | Some(value: T)

  /** Notifications are compared by identity: the handle of the shared notification. */
  type Handle = nat

  datatype Snapshot = Snapshot(notification: Option<Handle>)

  const PAUSE := 2000

  /** The limiter's state; a tab without a snapshot holds `None`. */
  datatype Limiter = Limiter(shutdownStarted: bool, nextMs: int, tabs: seq<Option<Snapshot>>)

  /** A tab receives a snapshot, or none, at a time of the clock. */
  datatype Event = Event(tab: nat, snapshot: Option<Snapshot>, now: int)

  function Shown(snapshot: Option<Snapshot>): Option<Handle> {
    if snapshot.Some? then snapshot.value.notification else None
  }

  predicate Emits(s: Limiter, event: Event)
    requires event.tab < |s.tabs|
  {
    && Shown(event.snapshot).Some? && Shown(event.snapshot) != Shown(s.tabs[event.tab])
    && !s.shutdownStarted && s.nextMs <= event.now
  }

  function Update(s: Limiter, event: Event): Limiter
    requires event.tab < |s.tabs|
  {
    s.(tabs := s.tabs[event.tab := event.snapshot], nextMs := if Emits(s, event) then event.now + PAUSE else s.nextMs)
  }

  class StatusController {
    var shutdownStarted: bool
    var nextTerminalNotificationMs: int
    var tabSnapshots: seq<Option<Snapshot>>

    function AsLimiter(): Limiter
      reads this
    {
      Limiter(shutdownStarted, nextTerminalNotificationMs, tabSnapshots)
    }

    method UpdateTerminalStatus(tab: nat, snapshot: Option<Snapshot>, now: int) returns (requested: bool)
      requires tab < |tabSnapshots|
      modifies this`tabSnapshots, this`nextTerminalNotificationMs
      ensures AsLimiter() == Update(old(AsLimiter()), Event(tab, snapshot, now))
      ensures requested == Emits(old(AsLimiter()), Event(tab, snapshot, now))
    {
      var previousNotification := if tabSnapshots[tab].Some? then tabSnapshots[tab].value.notification else None;
      tabSnapshots := tabSnapshots[tab := snapshot];
      if snapshot.None? || snapshot.value.notification.None? || snapshot.value.notification == previousNotification || shutdownStarted {
        return false;
      }
      if now < nextTerminalNotificationMs {
        return false;
      }
      nextTerminalNotificationMs := now + PAUSE;
      return true;
    }
  }

  // ----- runs -----

  predicate ForTabs(events: seq<Event>, tabs: nat) {
    forall k :: 0 <= k < |events| ==> events[k].tab < tabs
  }

  /** The times of the notifications that a run sends out. */
  function Emissions(s: Limiter, events: seq<Event>): seq<int>
    requires ForTabs(events, |s.tabs|)
    decreases |events|
  {
    if events == [] then []
    else (if Emits(s, events[0]) then [events[0].now] else []) + Emissions(Update(s, events[0]), events[1..])
  }

  /** Each of the times is at least a pause after the one before, the first not before `earliest`. */
  predicate Spaced(times: seq<int>, earliest: int) {
    && (times != [] ==> earliest <= times[0])
    && forall k :: 1 <= k < |times| ==> times[k - 1] + PAUSE <= times[k]
  }

  /** The pause is kept whatever the tabs and, in fact, whatever the clock does. */
  lemma {:induction false} EmissionsAreSpaced(s: Limiter, events: seq<Event>)
    requires ForTabs(events, |s.tabs|)
    ensures Spaced(Emissions(s, events), s.nextMs)
    decreases |events|
  {
    if events != [] {
      var later := Emissions(Update(s, events[0]), events[1..]);
      EmissionsAreSpaced(Update(s, events[0]), events[1..]);
      if Emits(s, events[0]) {
        var times := [events[0].now] + later;
        forall k | 1 <= k < |times| ensures times[k - 1] + PAUSE <= times[k] {
          assert times[k] == later[k - 1];
          assert k > 1 ==> times[k - 1] == later[k - 2];
        }
      }
    }
  }

  function CountWithin(times: seq<int>, from: int, to: int): nat
    decreases |times|
  {
    if times == [] then 0
    else CountWithin(times[..|times| - 1], from, to) + if from <= times[|times| - 1] <= to then 1 else 0
  }

  lemma {:induction false} CountWithinShorter(times: seq<int>, from: int, to: int, bound: int)
    requires bound <= to && forall k :: 0 <= k < |times| ==> times[k] <= bound
    ensures CountWithin(times, from, to) == CountWithin(times, from, bound)
    decreases |times|
  {
    if times != [] {
      CountWithinShorter(times[..|times| - 1], from, to, bound);
    }
  }

  lemma {:induction false} SpacedIsSorted(times: seq<int>, earliest: int, i: nat, j: nat)
    requires Spaced(times, earliest) && i < j < |times|
    ensures times[i] + PAUSE <= times[j]
    decreases j
  {
    if i < j - 1 {
      SpacedIsSorted(times, earliest, i, j - 1);
    }
  }

  lemma {:induction false} FewWithin(times: seq<int>, earliest: int, from: int, to: int)
    requires Spaced(times, earliest)
    ensures CountWithin(times, from, to) <= if to < from then 0 else (to - from) / PAUSE + 1
    decreases |times|
  {
    if times != [] {
      var n := |times| - 1;
      var last := times[n];
      FewWithin(times[..n], earliest, from, to);
      if from <= last <= to {
        forall k | 0 <= k < n ensures times[..n][k] <= last - PAUSE {
          SpacedIsSorted(times, earliest, k, n);
        }
        CountWithinShorter(times[..n], from, to, last - PAUSE);
        FewWithin(times[..n], earliest, from, last - PAUSE);
      }
    }
  }

  /** All tabs together send at most one notification more than the whole pauses that fit into an interval. */
  lemma {:induction false} RateIsLimited(s: Limiter, events: seq<Event>, from: int, length: nat)
    requires ForTabs(events, |s.tabs|)
    ensures CountWithin(Emissions(s, events), from, from + length) <= length / PAUSE + 1
  {
    EmissionsAreSpaced(s, events);
    FewWithin(Emissions(s, events), s.nextMs, from, from + length);
  }

  // ----- what goes out -----

  /** What the handler answers to each event of a run. */
  function Requested(s: Limiter, events: seq<Event>): (answers: seq<bool>)
    requires ForTabs(events, |s.tabs|)
    ensures |answers| == |events|
    decreases |events|
  {
    if events == [] then [] else [Emits(s, events[0])] + Requested(Update(s, events[0]), events[1..])
  }

  /** What a tab holds before event `k`: the last snapshot it received, or the one it started with. */
  function Before(tabs: seq<Option<Snapshot>>, events: seq<Event>, k: nat, tab: nat): Option<Snapshot>
    requires k <= |events| && tab < |tabs|
  {
    if k == 0 then tabs[tab] else if events[k - 1].tab == tab then events[k - 1].snapshot else Before(tabs, events, k - 1, tab)
  }

  /** The snapshot shows a notification that the one before, if there was one, did not show. */
  predicate IsNew(before: Option<Snapshot>, snapshot: Option<Snapshot>) {
    snapshot.Some? && snapshot.value.notification.Some? && before != snapshot
  }

  lemma {:induction false} BeforeLater(tabs: seq<Option<Snapshot>>, events: seq<Event>, k: nat, tab: nat)
    requires 0 < k <= |events| && tab < |tabs| && events[0].tab < |tabs|
    ensures Before(tabs, events, k, tab) == Before(tabs[events[0].tab := events[0].snapshot], events[1..], k - 1, tab)
  {
    if k > 1 {
      BeforeLater(tabs, events, k - 1, tab);
    }
  }

  /**
   The other half of the limit: in every run, whatever the tabs and the clock do, a notification goes
   out exactly if it is new to its tab, no shutdown has begun, the pause that was pending at the start
   is over, and every notification of the run that went out before did so two seconds ago or earlier.
   */
  lemma {:induction false} GoesOutExactly(s: Limiter, events: seq<Event>, k: nat)
    requires ForTabs(events, |s.tabs|) && k < |events|
    ensures Requested(s, events)[k] <==>
      && IsNew(Before(s.tabs, events, k, events[k].tab), events[k].snapshot)
      && !s.shutdownStarted && s.nextMs <= events[k].now
      && forall j :: 0 <= j < k && Requested(s, events)[j] ==> events[j].now + 2000 <= events[k].now
    decreases |events|
  {
    var next, rest := Update(s, events[0]), events[1..];
    var all, later := Requested(s, events), Requested(next, rest);
    assert forall j :: 1 <= j < |all| ==> all[j] == later[j - 1];
    if k > 0 {
      GoesOutExactly(next, rest, k - 1);
      BeforeLater(s.tabs, events, k, events[k].tab);
      assert forall j :: 0 <= j < k - 1 ==> later[j] == all[j + 1] && rest[j] == events[j + 1];
      hide Before, Requested, IsNew;
    }
  }

  /** Every event of the run for this tab shows this notification. */
  predicate KeepsShowing(events: seq<Event>, tab: nat, shown: Option<Handle>) {
    forall k :: 0 <= k < |events| && events[k].tab == tab ==> Shown(events[k].snapshot) == shown
  }

  /** How many notifications of one tab a run sends out. */
  function EmissionsOf(s: Limiter, events: seq<Event>, tab: nat): nat
    requires ForTabs(events, |s.tabs|)
    decreases |events|
  {
    if events == [] then 0
    else (if events[0].tab == tab && Emits(s, events[0]) then 1 else 0) + EmissionsOf(Update(s, events[0]), events[1..], tab)
  }

  /**
   As long as a tab keeps showing what it shows, whatever the other tabs do, it sends nothing: a
   notification goes out once, with the snapshot that first shows it, or never.
   */
  lemma {:induction false} ReplaysAreSilent(s: Limiter, events: seq<Event>, tab: nat)
    requires ForTabs(events, |s.tabs|) && tab < |s.tabs|
    requires KeepsShowing(events, tab, Shown(s.tabs[tab]))
    ensures EmissionsOf(s, events, tab) == 0
    decreases |events|
  {
    if events != [] {
      ReplaysAreSilent(Update(s, events[0]), events[1..], tab);
    }
  }

  /** From the snapshot that first shows it on, a notification goes out exactly if it does so at once. */
  lemma {:induction false} NowOrNever(s: Limiter, event: Event, events: seq<Event>)
    requires event.tab < |s.tabs| && ForTabs(events, |s.tabs|)
    requires KeepsShowing(events, event.tab, Shown(event.snapshot))
    ensures EmissionsOf(s, [event] + events, event.tab) == if Emits(s, event) then 1 else 0
  {
    assert ([event] + events)[1..] == events;
    ReplaysAreSilent(Update(s, event), events, event.tab);
  }

  /** Once the shutdown has started nothing goes out. */
  lemma {:induction false} SilentAfterShutdown(s: Limiter, events: seq<Event>)
    requires ForTabs(events, |s.tabs|) && s.shutdownStarted
    ensures Emissions(s, events) == []
    decreases |events|
  {
    if events != [] {
      SilentAfterShutdown(Update(s, events[0]), events[1..]);
    }
  }
}
