/**
 Object life-cycle counters.  `Track` registers an object once, together with its text document if
 it has one; when a registered object is destroyed, the handler that captured its key counts it out.
 */
module LifeCycleCounters {

  type ObjectId = nat

  datatype Option<+T> = None | Some(value: T)

  /** The counters of the objects of one kind in one row are named after this pair. */
  datatype Key = Key(kind: string, row: int)

  datatype Field = CreatedCount | LiveCount | PeakLiveCount | DestroyedCount

  datatype Counter = Counter(key: Key, field: Field)

  datatype Event = Tracked(item: ObjectId, key: Key) | Destroyed(item: ObjectId, key: Key)

  // ----- what a history says -----

  function CreatedIn(history: seq<Event>, key: Key): nat {
    if history == [] then 0
    else
      var last := history[|history| - 1];
      CreatedIn(history[..|history| - 1], key) + if last.Tracked? && last.key == key then 1 else 0
  }

  function DestroyedIn(history: seq<Event>, key: Key): nat {
    if history == [] then 0
    else
      var last := history[|history| - 1];
      DestroyedIn(history[..|history| - 1], key) + if last.Destroyed? && last.key == key then 1 else 0
  }

  function LiveIn(history: seq<Event>, key: Key): int {
    CreatedIn(history, key) - DestroyedIn(history, key)
  }

  /** `peak` is the largest live count that the key ever had. */
  ghost predicate IsPeak(history: seq<Event>, key: Key, peak: int) {
    && (forall n :: 0 <= n <= |history| ==> LiveIn(history[..n], key) <= peak)
    && (exists n :: 0 <= n <= |history| && LiveIn(history[..n], key) == peak)
  }

  /** The objects registered under a key. */
  function Registered(handlers: map<ObjectId, Key>, key: Key): set<ObjectId> {
    set item | item in handlers && handlers[item] == key
  }

  class Counters {
    var counts: map<Counter, int>
    var seen: set<ObjectId>
    /** The connected `destroyed` handlers, each with the key it captured. */
    var handlers: map<ObjectId, Key>
    ghost var history: seq<Event>

    /** A counter that was never touched reads as zero. */
    function Value(key: Key, field: Field): int
      reads this
    {
      if Counter(key, field) in counts then counts[Counter(key, field)] else 0
    }

    ghost predicate Valid()
      reads this
    {
      && handlers.Keys == seen
      && forall key :: KeyValid(key)
    }

    ghost predicate KeyValid(key: Key)
      reads this
    {
      && Value(key, CreatedCount) == CreatedIn(history, key)
      && Value(key, DestroyedCount) == DestroyedIn(history, key)
      && Value(key, LiveCount) == LiveIn(history, key)
      && IsPeak(history, key, Value(key, PeakLiveCount))
      && Value(key, LiveCount) == |Registered(handlers, key)|
    }

    constructor ()
      ensures Valid() && history == [] && seen == {}
    {
      counts, seen, handlers, history := map[], {}, map[], [];
      new;
      forall key
        ensures KeyValid(key)
      {
        assert Registered(handlers, key) == {};
        assert LiveIn(history[..0], key) == 0;
      }
    }

    /** Registers the object, then the document behind it; what was seen before changes nothing. */
    method Track(kind: string, item: Option<ObjectId>, row: int, document: Option<ObjectId>)
      requires Valid()
      modifies this
      ensures Valid()
      ensures history == old(history) + TrackEvents(old(seen), kind, item, row, document)
      ensures seen == old(seen) + (set event | event in TrackEvents(old(seen), kind, item, row, document) :: event.item)
      ensures item.None? || item.value in old(seen) ==> counts == old(counts) && handlers == old(handlers)
    {
      if item.None? || item.value in seen {
        return;
      }
      Register(item.value, Key(kind, row));
      if document.Some? && document.value !in seen {
        Register(document.value, Key("document-" + kind, row));
      }
    }

    method Register(item: ObjectId, key: Key)
      requires Valid() && item !in seen
      modifies this
      ensures Valid()
      ensures history == old(history) + [Tracked(item, key)]
      ensures seen == old(seen) + {item}
      ensures handlers == old(handlers)[item := key]
    {
      hide IsPeak, CreatedIn, DestroyedIn, Registered;
      assert KeyValid(key);
      ghost var was, before := history, handlers;
      seen := seen + {item};
      var live := Value(key, LiveCount) + 1;
      var peak := if Value(key, PeakLiveCount) > live then Value(key, PeakLiveCount) else live;
      counts := counts[Counter(key, CreatedCount) := Value(key, CreatedCount) + 1]
                      [Counter(key, LiveCount) := live]
                      [Counter(key, PeakLiveCount) := peak];
      handlers := handlers[item := key];
      history := history + [Tracked(item, key)];
      forall k
        ensures KeyValid(k)
      {
        assert old(KeyValid(k));
        RegisterOne(was, before, item, key, k, old(Value(k, PeakLiveCount)));
      }
    }

    /** The handler of a registered object runs when the object is destroyed. */
    method ObjectDestroyed(item: ObjectId)
      requires Valid() && item in handlers
      modifies this
      ensures Valid()
      ensures history == old(history) + [Destroyed(item, old(handlers)[item])]
      ensures seen == old(seen) - {item} && handlers == old(handlers) - {item}
    {
      hide IsPeak, CreatedIn, DestroyedIn, Registered;
      var key := handlers[item];
      assert KeyValid(key);
      ghost var was, before := history, handlers;
      seen := seen - {item};
      counts := counts[Counter(key, DestroyedCount) := Value(key, DestroyedCount) + 1]
                      [Counter(key, LiveCount) := Value(key, LiveCount) - 1];
      handlers := handlers - {item};
      history := history + [Destroyed(item, key)];
      forall k
        ensures KeyValid(k)
      {
        assert old(KeyValid(k));
        UnregisterOne(was, before, item, k, old(Value(k, PeakLiveCount)));
      }
    }

    /** At any time: created = live + destroyed, live counts the registered objects, and the peak is the largest live count ever. */
    lemma {:induction false} CountersAddUp(key: Key)
      requires Valid()
      ensures Value(key, CreatedCount) == Value(key, LiveCount) + Value(key, DestroyedCount)
      ensures Value(key, LiveCount) == |set item | item in seen && handlers[item] == key|
      ensures Value(key, LiveCount) <= Value(key, PeakLiveCount)
      ensures forall n :: 0 <= n <= |history| ==> LiveIn(history[..n], key) <= Value(key, PeakLiveCount)
      ensures exists n :: 0 <= n <= |history| && LiveIn(history[..n], key) == Value(key, PeakLiveCount)
    {
      assert KeyValid(key);
      assert Registered(handlers, key) == set item | item in seen && handlers[item] == key;
      assert history[..|history|] == history;
    }
  }

  /** The registrations that one call of `Track` performs. */
  function TrackEvents(seen: set<ObjectId>, kind: string, item: Option<ObjectId>, row: int, document: Option<ObjectId>): seq<Event> {
    if item.None? || item.value in seen then []
    else
      [Tracked(item.value, Key(kind, row))]
      + if document.Some? && document.value !in seen + {item.value} then [Tracked(document.value, Key("document-" + kind, row))] else []
  }

  lemma {:induction false} HistorySnoc(history: seq<Event>, event: Event, key: Key)
    ensures CreatedIn(history + [event], key) == CreatedIn(history, key) + if event.Tracked? && event.key == key then 1 else 0
    ensures DestroyedIn(history + [event], key) == DestroyedIn(history, key) + if event.Destroyed? && event.key == key then 1 else 0
  {
    assert (history + [event])[..|history|] == history;
  }

  /** The peak after one more event is the larger of the old peak and the new live count. */
  lemma {:induction false} PeakSnoc(history: seq<Event>, event: Event, key: Key, peak: int)
    requires IsPeak(history, key, peak)
    ensures var live := LiveIn(history + [event], key);
      IsPeak(history + [event], key, if peak > live then peak else live)
  {
    var longer := history + [event];
    var live := LiveIn(longer, key);
    assert longer[..|longer|] == longer;
    forall n | 0 <= n <= |history|
      ensures longer[..n] == history[..n]
    {
    }
    hide LiveIn;
    var n :| 0 <= n <= |history| && LiveIn(history[..n], key) == peak;
    assert LiveIn(longer[..n], key) == peak;
    assert LiveIn(longer[..|longer|], key) == live;
  }

  lemma {:induction false} RegisterOne(history: seq<Event>, handlers: map<ObjectId, Key>, item: ObjectId, key: Key, k: Key, peak: int)
    requires item !in handlers && IsPeak(history, k, peak)
    ensures var longer := history + [Tracked(item, key)];
      && CreatedIn(longer, k) == CreatedIn(history, k) + (if k == key then 1 else 0)
      && DestroyedIn(longer, k) == DestroyedIn(history, k)
      && IsPeak(longer, k, if k == key && LiveIn(history, k) + 1 > peak then LiveIn(history, k) + 1 else peak)
      && |Registered(handlers[item := key], k)| == |Registered(handlers, k)| + if k == key then 1 else 0
  {
    HistorySnoc(history, Tracked(item, key), k);
    PeakSnoc(history, Tracked(item, key), k, peak);
    assert history[..|history|] == history;
    assert LiveIn(history[..|history|], k) <= peak;
    assert Registered(handlers[item := key], k) == if k == key then Registered(handlers, k) + {item} else Registered(handlers, k);
  }

  lemma {:induction false} UnregisterOne(history: seq<Event>, handlers: map<ObjectId, Key>, item: ObjectId, k: Key, peak: int)
    requires item in handlers && IsPeak(history, k, peak)
    ensures var key := handlers[item];
      var longer := history + [Destroyed(item, key)];
      && CreatedIn(longer, k) == CreatedIn(history, k)
      && DestroyedIn(longer, k) == DestroyedIn(history, k) + (if k == key then 1 else 0)
      && IsPeak(longer, k, peak)
      && |Registered(handlers - {item}, k)| == |Registered(handlers, k)| - if k == key then 1 else 0
  {
    var key := handlers[item];
    HistorySnoc(history, Destroyed(item, key), k);
    PeakSnoc(history, Destroyed(item, key), k, peak);
    assert history[..|history|] == history;
    assert LiveIn(history[..|history|], k) <= peak;
    assert Registered(handlers - {item}, k) == Registered(handlers, k) - {item};
  }
}
