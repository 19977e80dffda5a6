/** The in-process sliding-window limiter, against the history of the events it accepted. */
module RateLimiter {

  /** One accepted event. */
  datatype Event<K> = Event(key: K, time: nat)

  /** The times within the window of `now`, oldest first. */
  function Retain(times: seq<nat>, now: nat, window: nat): seq<nat> {
    if times == [] then []
    else
      var init, last := Retain(times[..|times| - 1], now, window), times[|times| - 1];
      if (if now < last then 0 else now - last) < window then init + [last] else init
  }

  /** The accepted events of `key` younger than the window at `now`. */
  ghost function Young<K>(history: seq<Event<K>>, key: K, now: nat, window: nat): seq<nat> {
    if history == [] then []
    else
      var init, last := Young(history[..|history| - 1], key, now, window), history[|history| - 1];
      if last.key == key && (if now < last.time then 0 else now - last.time) < window then init + [last.time] else init
  }

  /** The accepted events of `key` in the half-open interval [from, to). */
  ghost function CountIn<K>(history: seq<Event<K>>, key: K, from: nat, to: nat): nat {
    if history == [] then 0
    else
      var last := history[|history| - 1];
      CountIn(history[..|history| - 1], key, from, to) + if last.key == key && from <= last.time < to then 1 else 0
  }

  function At<K>(inner: map<K, seq<nat>>, key: K): seq<nat> {
    if key in inner then inner[key] else []
  }

  /** Each event was accepted while fewer than `max` of its key were young. */
  ghost predicate Admitted<K(!new)>(history: seq<Event<K>>, max: nat, window: nat) {
    forall i {:trigger history[i]} | 0 <= i < |history| ::
      |Young(history[..i], history[i].key, history[i].time, window)| < max
  }

  ghost predicate Ordered<K>(history: seq<Event<K>>, clock: nat) {
    forall i | 0 <= i < |history| :: history[i].time <= clock
  }

  lemma {:induction false} RetainConcat(a: seq<nat>, b: seq<nat>, now: nat, window: nat)
    ensures Retain(a + b, now, window) == Retain(a, now, window) + Retain(b, now, window)
  {
    if b == [] {
      assert a + b == a;
    } else {
      assert (a + b)[..|a + b| - 1] == a + b[..|b| - 1];
      RetainConcat(a, b[..|b| - 1], now, window);
    }
  }

  /** Times thrown away at one moment would be thrown away at any later one. */
  lemma {:induction false} RetainTwice(times: seq<nat>, clock: nat, now: nat, window: nat)
    requires clock <= now
    requires forall i | 0 <= i < |times| :: times[i] <= clock
    ensures Retain(Retain(times, clock, window), now, window) == Retain(times, now, window)
  {
    if times != [] {
      var init, last := times[..|times| - 1], times[|times| - 1];
      RetainTwice(init, clock, now, window);
      RetainConcat(Retain(init, clock, window), [last], now, window);
      assert [last][..0] == [];
    }
  }

  lemma {:induction false} YoungLater<K>(history: seq<Event<K>>, key: K, clock: nat, now: nat, window: nat)
    requires clock <= now && Ordered(history, clock)
    ensures Young(history, key, now, window) == Retain(Young(history, key, clock, window), now, window)
  {
    if history != [] {
      var init, last := history[..|history| - 1], history[|history| - 1];
      YoungLater(init, key, clock, now, window);
      RetainConcat(Young(init, key, clock, window), [last.time], now, window);
      assert [last.time][..0] == [];
    }
  }

  lemma {:induction false} RetainIsSubset(times: seq<nat>, now: nat, window: nat)
    ensures |Retain(times, now, window)| <= |times|
    ensures forall i | 0 <= i < |Retain(times, now, window)| :: Retain(times, now, window)[i] in times
  {
    if times != [] {
      RetainIsSubset(times[..|times| - 1], now, window);
    }
  }

  lemma {:induction false} IntervalIsYoung<K>(history: seq<Event<K>>, key: K, from: nat, now: nat, window: nat)
    requires Ordered(history, now) && from <= now < from + window
    ensures CountIn(history, key, from, from + window) <= |Young(history, key, now, window)|
  {
    if history != [] {
      IntervalIsYoung(history[..|history| - 1], key, from, now, window);
    }
  }

  /** The first moment whose events are still younger than the window at `now`. */
  function Since(now: nat, window: nat): nat {
    if now + 1 < window then 0 else now + 1 - window
  }

  /** The young events of a key are its events since that moment. */
  lemma {:induction false} YoungIsCount<K>(history: seq<Event<K>>, key: K, now: nat, window: nat)
    requires Ordered(history, now)
    ensures |Young(history, key, now, window)| == CountIn(history, key, Since(now, window), now + 1)
  {
    if history != [] {
      YoungIsCount(history[..|history| - 1], key, now, window);
    }
  }

  /** No half-open interval of the window's length holds more than `max` accepted events of one
      key. */
  lemma {:induction false} IntervalBound<K(!new)>(history: seq<Event<K>>, max: nat, window: nat, key: K, from: nat)
    requires Admitted(history, max, window)
    requires forall i, j | 0 <= i < j < |history| :: history[i].time <= history[j].time
    ensures CountIn(history, key, from, from + window) <= max
  {
    if history != [] {
      var init, last := history[..|history| - 1], history[|history| - 1];
      assert Admitted(init, max, window) by {
        forall i {:trigger init[i]} | 0 <= i < |init|
          ensures |Young(init[..i], init[i].key, init[i].time, window)| < max
        {
          assert init[..i] == history[..i] && init[i] == history[i];
        }
      }
      IntervalBound(init, max, window, key, from);
      if last.key == key && from <= last.time < from + window {
        assert Ordered(init, last.time);
        IntervalIsYoung(init, key, from, last.time, window);
        assert |Young(history[..|history| - 1], history[|history| - 1].key, history[|history| - 1].time, window)| < max;
      }
    }
  }

  /** A well-formed history: in time order, nothing after `clock`, every event admitted. */
  ghost predicate Good<K(!new)>(history: seq<Event<K>>, clock: nat, max: nat, window: nat) {
    && Ordered(history, clock)
    && (forall i, j | 0 <= i < j < |history| :: history[i].time <= history[j].time)
    && Admitted(history, max, window)
  }

  /** What is stored of each key shows exactly its young events. */
  ghost predicate Shows<K(!new)>(inner: map<K, seq<nat>>, history: seq<Event<K>>, clock: nat, window: nat) {
    && (forall k {:trigger At(inner, k)} :: Retain(At(inner, k), clock, window) == Young(history, k, clock, window))
    && (forall k | k in inner :: forall i | 0 <= i < |inner[k]| :: inner[k][i] <= clock)
  }

  lemma ShowsLater<K(!new)>(inner: map<K, seq<nat>>, history: seq<Event<K>>, clock: nat, now: nat, window: nat)
    requires Shows(inner, history, clock, window) && Ordered(history, clock) && clock <= now
    ensures Shows(inner, history, now, window)
  {
    forall k
      ensures Retain(At(inner, k), now, window) == Young(history, k, now, window)
    {
      RetainTwice(At(inner, k), clock, now, window);
      YoungLater(history, k, clock, now, window);
    }
  }

  lemma RejectKeeps<K(!new)>(inner: map<K, seq<nat>>, history: seq<Event<K>>, now: nat, window: nat, key: K)
    requires Shows(inner, history, now, window)
    ensures Shows(inner[key := Retain(At(inner, key), now, window)], history, now, window)
  {
    var inner' := inner[key := Retain(At(inner, key), now, window)];
    RetainTwice(At(inner, key), now, now, window);
    RetainIsSubset(At(inner, key), now, window);
    forall k
      ensures Retain(At(inner', k), now, window) == Young(history, k, now, window)
    {
      assert Retain(At(inner, k), now, window) == Young(history, k, now, window);
    }
  }

  lemma RetainLast(times: seq<nat>, now: nat, window: nat)
    ensures Retain(times + [now], now, window) == Retain(times, now, window) + if window > 0 then [now] else []
  {
    assert (times + [now])[..|times|] == times;
  }

  lemma YoungLast<K>(history: seq<Event<K>>, key: K, now: nat, window: nat, k: K)
    ensures Young(history + [Event(key, now)], k, now, window)
         == Young(history, k, now, window) + if k == key && window > 0 then [now] else []
  {
    assert (history + [Event(key, now)])[..|history|] == history;
  }

  /** Recording an event adds it to its key's young events and to no other's. */
  lemma AcceptKeeps<K(!new)>(inner: map<K, seq<nat>>, history: seq<Event<K>>, now: nat, window: nat, key: K)
    requires Shows(inner, history, now, window)
    ensures Shows(inner[key := At(inner, key) + [now]], history + [Event(key, now)], now, window)
  {
    var inner', history' := inner[key := At(inner, key) + [now]], history + [Event(key, now)];
    forall k
      ensures Retain(At(inner', k), now, window) == Young(history', k, now, window)
    {
      assert Retain(At(inner, k), now, window) == Young(history, k, now, window);
      YoungLast(history, key, now, window, k);
      RetainLast(At(inner, key), now, window);
    }
  }

  function Prune<K>(inner: map<K, seq<nat>>): map<K, seq<nat>> {
    map k | k in inner && inner[k] != [] :: inner[k]
  }

  /** Dropping the keys with nothing left changes no key's times, so no decision. */
  lemma PruneKeeps<K(!new)>(inner: map<K, seq<nat>>, history: seq<Event<K>>, now: nat, window: nat)
    requires Shows(inner, history, now, window)
    ensures forall k :: At(Prune(inner), k) == At(inner, k)
    ensures Shows(Prune(inner), history, now, window)
  {
    forall k
      ensures At(Prune(inner), k) == At(inner, k)
    {
    }
  }

  lemma HistoryGrows<K(!new)>(history: seq<Event<K>>, clock: nat, now: nat, max: nat, window: nat, key: K)
    requires Good(history, clock, max, window) && clock <= now
    requires |Young(history, key, now, window)| < max
    ensures Good(history + [Event(key, now)], now, max, window)
  {
    var history' := history + [Event(key, now)];
    forall i {:trigger history'[i]} | 0 <= i < |history'|
      ensures |Young(history'[..i], history'[i].key, history'[i].time, window)| < max
    {
      if i < |history| {
        assert history'[..i] == history[..i] && history'[i] == history[i];
      } else {
        assert history'[..i] == history;
      }
    }
  }

  const PRUNE_ABOVE: nat := 10_000

  class SlidingWindowLimiter<K(==,!new)> {
    const max: nat
    const window: nat
    var inner: map<K, seq<nat>>
    ghost var history: seq<Event<K>> // every event accepted so far
    ghost var clock: nat             // the latest reading of the clock

    ghost predicate Valid()
      reads this
    {
      max >= 1 && Good(history, clock, max, window) && Shows(inner, history, clock, window)
    }

    constructor (maxPerWindow: nat, window: nat)
      ensures Valid() && history == [] && clock == 0
      ensures this.window == window && max == if maxPerWindow < 1 then 1 else maxPerWindow
    {
      max := if maxPerWindow < 1 then 1 else maxPerWindow;
      this.window := window;
      inner := map[];
      history := [];
      clock := 0;
    }

    /** The limit the service promises, at every moment between calls. */
    lemma LimitHolds(key: K, from: nat)
      requires Valid()
      ensures CountIn(history, key, from, from + window) <= max
    {
      IntervalBound(history, max, window, key, from);
    }

    /** Accepts exactly when fewer than `max` accepted events of the key are younger than the
        window; records an accepted event and nothing else. */
    method CheckAndRecord(key: K, now: nat) returns (ok: bool)
      requires Valid() && now >= clock
      modifies this
      ensures Valid() && clock == now
      ensures ok <==> |Young(old(history), key, now, window)| < max
      ensures ok <==> CountIn(old(history), key, if now + 1 < window then 0 else now + 1 - window, now + 1) < max
      ensures history == old(history) + if ok then [Event(key, now)] else []
    {
      ShowsLater(inner, history, clock, now, window);
      YoungIsCount(history, key, now, window);
      assert Retain(At(inner, key), now, window) == Young(history, key, now, window);
      RejectKeeps(inner, history, now, window, key);
      var entries := Retain(At(inner, key), now, window);
      inner := inner[key := entries];
      if |entries| >= max {
        clock := now;
        return false;
      }
      AcceptKeeps(inner, history, now, window, key);
      HistoryGrows(history, clock, now, max, window, key);
      inner := inner[key := entries + [now]];
      history := history + [Event(key, now)];
      clock := now;
      if |inner| > PRUNE_ABOVE {
        PruneKeeps(inner, history, now, window);
        inner := Prune(inner);
      }
      return true;
    }
  }
}
