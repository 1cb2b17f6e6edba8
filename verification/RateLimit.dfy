/** `rate_limit`: the sliding-window limiters. */
module RateLimit {

  type Events = map<string, seq<int>>

  function Get(events: Events, key: string): seq<int> {
    if key in events then events[key] else []
  }

  /** A key with no events has no entry. */
  function Put(events: Events, key: string, times: seq<int>): Events {
    if times == [] then events - {key} else events[key := times]
  }

  /** The `popleft` loop: drops expired events from the front, and stops at the first live one. */
  function Pruned(times: seq<int>, window: int, now: int): seq<int> {
    if times != [] && now - times[0] >= window then Pruned(times[1..], window, now) else times
  }

  function Prune(events: Events, key: string, window: int, now: int): Events {
    Put(events, key, Pruned(Get(events, key), window, now))
  }

  datatype Verdict = Verdict(blocked: bool, events: Events)

  function Blocked(events: Events, keys: seq<string>, window: int, attempts: int, now: int): Verdict
    decreases |keys|
  {
    if keys == [] then Verdict(false, events)
    else
      var pruned := Prune(events, keys[0], window, now);
      if |Get(pruned, keys[0])| >= attempts then Verdict(true, pruned)
      else Blocked(pruned, keys[1..], window, attempts, now)
  }

  function Failed(events: Events, keys: seq<string>, window: int, now: int): Events
    decreases |keys|
  {
    if keys == [] then events
    else
      var pruned := Prune(events, keys[0], window, now);
      Failed(pruned[keys[0] := Get(pruned, keys[0]) + [now]], keys[1..], window, now)
  }

  function Forgotten(events: Events, keys: seq<string>): Events
    decreases |keys|
  {
    if keys == [] then events else Forgotten(events - {keys[0]}, keys[1..])
  }

  /** Both limiters: `Allow` is what the management limiter adds. */
  class Limiter {
    const attempts: int
    const window: int
    var events: Events

    constructor (attempts: int, window: int)
      ensures this.attempts == attempts && this.window == window && events == map[]
    {
      this.attempts := attempts;
      this.window := window;
      events := map[];
    }

    method PruneKey(key: string, now: int)
      modifies this`events
      ensures events == Prune(old(events), key, window, now)
    {
      var times := if key in events then events[key] else [];
      ghost var first := times;
      while times != [] && now - times[0] >= window
        invariant Pruned(times, window, now) == Pruned(first, window, now)
        decreases |times|
      {
        times := times[1..];
      }
      if times == [] {
        events := events - {key};
      } else {
        events := events[key := times];
      }
    }

    method IsBlocked(keys: seq<string>, now: int) returns (blocked: bool)
      modifies this`events
      ensures Verdict(blocked, events) == Blocked(old(events), keys, window, attempts, now)
    {
      for i := 0 to |keys|
        invariant Blocked(events, keys[i..], window, attempts, now) == Blocked(old(events), keys, window, attempts, now)
      {
        assert keys[i..][1..] == keys[i + 1..];
        PruneKey(keys[i], now);
        if (if keys[i] in events then |events[keys[i]]| else 0) >= attempts {
          return true;
        }
      }
      return false;
    }

    method Failure(keys: seq<string>, now: int)
      modifies this`events
      ensures events == Failed(old(events), keys, window, now)
    {
      for i := 0 to |keys|
        invariant Failed(events, keys[i..], window, now) == Failed(old(events), keys, window, now)
      {
        assert keys[i..][1..] == keys[i + 1..];
        PruneKey(keys[i], now);
        events := events[keys[i] := (if keys[i] in events then events[keys[i]] else []) + [now]];
      }
    }

    method Success(keys: seq<string>)
      modifies this`events
      ensures events == Forgotten(old(events), keys)
    {
      for i := 0 to |keys|
        invariant Forgotten(events, keys[i..]) == Forgotten(old(events), keys)
      {
        assert keys[i..][1..] == keys[i + 1..];
        events := events - {keys[i]};
      }
    }

    /** Asks, and records the grant; `now` is read once for each. */
    method Allow(key: string, asked: int, recorded: int) returns (allowed: bool)
      modifies this`events
      ensures
        var verdict := Blocked(old(events), [key], window, attempts, asked);
        allowed == !verdict.blocked &&
        events == if allowed then Failed(verdict.events, [key], window, recorded) else verdict.events
    {
      var blocked := IsBlocked([key], asked);
      if blocked {
        return false;
      }
      Failure([key], recorded);
      return true;
    }
  }

  // ---- the full log ----

  predicate Ascending(times: seq<int>) {
    forall i, j | 0 <= i < j < |times| :: times[i] <= times[j]
  }

  /** The events of a log still inside the window. */
  function Recent(log: seq<int>, window: int, now: int): seq<int> {
    if log == [] then []
    else (if now - log[0] < window then [log[0]] else []) + Recent(log[1..], window, now)
  }

  lemma {:induction false} RecentConcat(a: seq<int>, b: seq<int>, window: int, now: int)
    ensures Recent(a + b, window, now) == Recent(a, window, now) + Recent(b, window, now)
    decreases |a|
  {
    if a == [] {
      assert a + b == b;
    } else {
      var head := if now - a[0] < window then [a[0]] else [];
      RecentConcat(a[1..], b, window, now);
      assert (a + b)[1..] == a[1..] + b;
      assert Recent(a + b, window, now) == head + Recent(a[1..] + b, window, now);
      assert Recent(a, window, now) == head + Recent(a[1..], window, now);
    }
  }

  /** On an ascending deque, dropping from the front keeps exactly the recent events. */
  lemma {:induction false} PrunedIsRecent(times: seq<int>, window: int, now: int)
    requires Ascending(times)
    ensures Pruned(times, window, now) == Recent(times, window, now)
    ensures exists k :: 0 <= k <= |times| && Pruned(times, window, now) == times[k..]
    decreases |times|
  {
    if times == [] {
      assert Pruned(times, window, now) == times[0..];
    } else if now - times[0] >= window {
      PrunedIsRecent(times[1..], window, now);
      var k :| 0 <= k <= |times[1..]| && Pruned(times[1..], window, now) == times[1..][k..];
      assert times[1..][k..] == times[k + 1..];
    } else {
      AllRecent(times, window, now);
      assert Pruned(times, window, now) == times[0..];
    }
  }

  lemma {:induction false} AllRecent(times: seq<int>, window: int, now: int)
    requires forall i | 0 <= i < |times| :: now - times[i] < window
    ensures Recent(times, window, now) == times
    decreases |times|
  {
    if times != [] { AllRecent(times[1..], window, now); }
  }

  lemma {:induction false} NoneRecent(times: seq<int>, window: int, now: int)
    requires forall i | 0 <= i < |times| :: now - times[i] >= window
    ensures Recent(times, window, now) == []
    decreases |times|
  {
    if times != [] { NoneRecent(times[1..], window, now); }
  }

  /** `kept` is what the deque holds of `log`: a suffix, the rest of which had expired. */
  ghost predicate Holds(kept: seq<int>, log: seq<int>, window: int, clock: int) {
    && Ascending(log) && (log != [] ==> log[|log| - 1] <= clock)
    && |kept| <= |log| && kept == log[|log| - |kept|..]
    && forall i | 0 <= i < |log| - |kept| :: clock - log[i] >= window
  }

  lemma RecentIsInDeque(kept: seq<int>, log: seq<int>, window: int, clock: int, now: int)
    requires Holds(kept, log, window, clock) && clock <= now
    ensures Pruned(kept, window, now) == Recent(log, window, now)
  {
    var n := |log| - |kept|;
    assert log == log[..n] + kept;
    RecentConcat(log[..n], kept, window, now);
    NoneRecent(log[..n], window, now);
    PrunedIsRecent(kept, window, now);
  }

  lemma HoldsAfterDrop(kept: seq<int>, log: seq<int>, k: nat, window: int, clock: int, now: int)
    requires Holds(kept, log, window, clock) && clock <= now && k <= |kept|
    requires forall i | 0 <= i < k :: now - kept[i] >= window
    ensures Holds(kept[k..], log, window, now)
  {
    hide Ascending;
    var n := |log| - |kept|;
    assert kept[k..] == log[n + k..];
    forall i | 0 <= i < n + k ensures now - log[i] >= window {
      if i < n {
        assert clock - log[i] >= window;
      } else {
        var j := i - n;
        assert log[n..][j] == log[n + j];
        assert now - kept[j] >= window;
      }
    }
  }

  /** Pruning at a later time leaves exactly the recent events of the full log. */
  lemma PruningRefines(kept: seq<int>, log: seq<int>, window: int, clock: int, now: int)
    requires Holds(kept, log, window, clock) && clock <= now
    ensures Pruned(kept, window, now) == Recent(log, window, now)
    ensures Holds(Pruned(kept, window, now), log, window, now)
  {
    hide Recent, Pruned;
    RecentIsInDeque(kept, log, window, clock, now);
    AscendingSuffix(kept, log);
    PrunedIsRecent(kept, window, now);
    var k :| 0 <= k <= |kept| && Pruned(kept, window, now) == kept[k..];
    forall i | 0 <= i < k ensures now - kept[i] >= window {
      DroppedExpired(kept, window, now, i);
    }
    HoldsAfterDrop(kept, log, k, window, clock, now);
  }

  lemma AscendingSuffix(kept: seq<int>, log: seq<int>)
    requires Ascending(log) && |kept| <= |log| && kept == log[|log| - |kept|..]
    ensures Ascending(kept)
  {}

  lemma {:induction false} DroppedExpired(times: seq<int>, window: int, now: int, i: nat)
    requires i < |times| - |Pruned(times, window, now)|
    ensures now - times[i] >= window
    decreases |times|
  {
    if i > 0 { DroppedExpired(times[1..], window, now, i - 1); }
  }

  /** A success forgets its keys and no other. */
  lemma {:induction false} ForgettingIsExact(events: Events, keys: seq<string>, key: string)
    ensures Get(Forgotten(events, keys), key) == if key in keys then [] else Get(events, key)
    decreases |keys|
  {
    if keys != [] {
      ForgettingIsExact(events - {keys[0]}, keys[1..], key);
      assert key in keys <==> key == keys[0] || key in keys[1..];
    }
  }
}
