/** The pruned deques refine the full event log, and the bound the window gives, with grants
    whose question and record are two separate critical sections. */
module RateLimitTheorems {
  import opened RateLimit

  // ---- every answer is the answer of the full log ----

  datatype Use = Ask(keys: seq<string>, now: int) | Note(keys: seq<string>, now: int) | Forget(keys: seq<string>)

  /** The limiter beside the log of every failure since a key was last forgotten. */
  datatype Book = Book(events: Events, log: Events, clock: int)

  function Append(log: Events, keys: seq<string>, now: int): Events
    decreases |keys|
  {
    if keys == [] then log else Append(log[keys[0] := Get(log, keys[0]) + [now]], keys[1..], now)
  }

  function Apply(book: Book, use: Use, window: int, attempts: int): Book {
    match use
    case Ask(keys, now) => Book(Blocked(book.events, keys, window, attempts, now).events, book.log, now)
    case Note(keys, now) => Book(Failed(book.events, keys, window, now), Append(book.log, keys, now), now)
    case Forget(keys) => Book(Forgotten(book.events, keys), Forgotten(book.log, keys), book.clock)
  }

  function ApplyAll(book: Book, uses: seq<Use>, window: int, attempts: int): Book
    decreases |uses|
  {
    if uses == [] then book else ApplyAll(Apply(book, uses[0], window, attempts), uses[1..], window, attempts)
  }

  /** The clock never goes back. */
  predicate Timely(uses: seq<Use>, clock: int)
    decreases |uses|
  {
    uses == [] ||
      if uses[0].Forget? then Timely(uses[1..], clock)
      else uses[0].now >= clock && Timely(uses[1..], uses[0].now)
  }

  ghost predicate Faithful(events: Events, log: Events, window: int, clock: int) {
    forall key :: Holds(Get(events, key), Get(log, key), window, clock)
  }

  lemma HoldsLater(kept: seq<int>, log: seq<int>, window: int, clock: int, now: int)
    requires Holds(kept, log, window, clock) && clock <= now
    ensures Holds(kept, log, window, now)
  {}

  lemma PruneFaithful(events: Events, log: Events, key: string, window: int, clock: int, now: int)
    requires Faithful(events, log, window, clock) && clock <= now
    ensures Faithful(Prune(events, key, window, now), log, window, now)
    ensures Get(Prune(events, key, window, now), key) == Recent(Get(log, key), window, now)
  {
    hide Recent, Pruned, Holds;
    PruningRefines(Get(events, key), Get(log, key), window, clock, now);
    forall k ensures Holds(Get(Prune(events, key, window, now), k), Get(log, k), window, now) {
      if k != key { HoldsLater(Get(events, k), Get(log, k), window, clock, now); }
    }
  }

  ghost predicate FullFor(log: Events, key: string, window: int, attempts: int, now: int) {
    |Recent(Get(log, key), window, now)| >= attempts
  }

  /** A question is answered with yes exactly when, for some of its keys, as many logged events
      as are allowed are still inside the window; other keys play no part. */
  lemma {:induction false} BlockedIsExact(
    events: Events, log: Events, keys: seq<string>, window: int, attempts: int, clock: int, now: int)
    requires Faithful(events, log, window, clock) && clock <= now
    ensures
      var verdict := Blocked(events, keys, window, attempts, now);
      && (verdict.blocked <==> exists key :: key in keys && FullFor(log, key, window, attempts, now))
      && Faithful(verdict.events, log, window, now)
    decreases |keys|
  {
    hide Faithful, Prune;
    if keys == [] {
      FaithfulLater(events, log, window, clock, now);
    } else {
      PruneFaithful(events, log, keys[0], window, clock, now);
      var pruned := Prune(events, keys[0], window, now);
      assert keys[0] in keys;
      if |Get(pruned, keys[0])| < attempts {
        BlockedIsExact(pruned, log, keys[1..], window, attempts, now, now);
        assert forall key :: key in keys <==> key == keys[0] || key in keys[1..];
      }
    }
  }

  lemma FaithfulLater(events: Events, log: Events, window: int, clock: int, now: int)
    requires Faithful(events, log, window, clock) && clock <= now
    ensures Faithful(events, log, window, now)
  {
    hide Holds;
    forall k ensures Holds(Get(events, k), Get(log, k), window, now) {
      HoldsLater(Get(events, k), Get(log, k), window, clock, now);
    }
  }

  lemma NoteHolds(kept: seq<int>, log: seq<int>, window: int, now: int)
    requires Holds(kept, log, window, now)
    ensures Holds(kept + [now], log + [now], window, now)
  {
    var n := |log| - |kept|;
    assert log == log[..n] + kept;
    assert log + [now] == log[..n] + (kept + [now]);
    AscendingNote(log, now);
  }

  lemma AscendingNote(log: seq<int>, now: int)
    requires Ascending(log) && (log != [] ==> log[|log| - 1] <= now)
    ensures Ascending(log + [now])
  {
    forall i, j | 0 <= i < j < |log + [now]| ensures (log + [now])[i] <= (log + [now])[j] {
      if j == |log| && i < |log| - 1 { assert log[i] <= log[|log| - 1]; }
    }
  }

  /** One failure, noted in the deque and in the log. */
  lemma NoteFaithful(events: Events, log: Events, key: string, window: int, now: int)
    requires Faithful(events, log, window, now)
    ensures Faithful(events[key := Get(events, key) + [now]], log[key := Get(log, key) + [now]], window, now)
  {
    hide Holds;
    var noted := events[key := Get(events, key) + [now]];
    var longer := log[key := Get(log, key) + [now]];
    forall k ensures Holds(Get(noted, k), Get(longer, k), window, now) {
      assert Holds(Get(events, k), Get(log, k), window, now);
      if k == key { NoteHolds(Get(events, k), Get(log, k), window, now); }
    }
  }

  lemma {:induction false} FailedFaithful(events: Events, log: Events, keys: seq<string>, window: int, clock: int, now: int)
    requires Faithful(events, log, window, clock) && clock <= now
    ensures Faithful(Failed(events, keys, window, now), Append(log, keys, now), window, now)
    decreases |keys|
  {
    hide Prune, Faithful, Get;
    if keys == [] {
      FaithfulLater(events, log, window, clock, now);
    } else {
      PruneFaithful(events, log, keys[0], window, clock, now);
      var pruned := Prune(events, keys[0], window, now);
      NoteFaithful(pruned, log, keys[0], window, now);
      FailedFaithful(pruned[keys[0] := Get(pruned, keys[0]) + [now]], log[keys[0] := Get(log, keys[0]) + [now]],
                     keys[1..], window, now, now);
    }
  }

  lemma {:induction false} ForgottenFaithful(events: Events, log: Events, keys: seq<string>, window: int, clock: int)
    requires Faithful(events, log, window, clock)
    ensures Faithful(Forgotten(events, keys), Forgotten(log, keys), window, clock)
    decreases |keys|
  {
    if keys != [] {
      forall k ensures Holds(Get(events - {keys[0]}, k), Get(log - {keys[0]}, k), window, clock) {
        assert Holds(Get(events, k), Get(log, k), window, clock);
      }
      ForgottenFaithful(events - {keys[0]}, log - {keys[0]}, keys[1..], window, clock);
    }
  }

  lemma {:induction false} RunFaithful(book: Book, uses: seq<Use>, window: int, attempts: int)
    requires Faithful(book.events, book.log, window, book.clock) && Timely(uses, book.clock)
    ensures var end := ApplyAll(book, uses, window, attempts);
      Faithful(end.events, end.log, window, end.clock) && end.clock >= book.clock
    decreases |uses|
  {
    hide Faithful, Blocked, Failed, Forgotten, Append;
    if uses != [] {
      match uses[0] {
        case Ask(keys, now) => BlockedIsExact(book.events, book.log, keys, window, attempts, book.clock, now);
        case Note(keys, now) => FailedFaithful(book.events, book.log, keys, window, book.clock, now);
        case Forget(keys) => ForgottenFaithful(book.events, book.log, keys, window, book.clock);
      }
      RunFaithful(Apply(book, uses[0], window, attempts), uses[1..], window, attempts);
    }
  }

  /** After any use of a new limiter, in any order and for any keys, its answer is the one the
      full log gives. */
  lemma AnswersFollowTheLog(uses: seq<Use>, window: int, attempts: int, start: int, keys: seq<string>, now: int)
    requires Timely(uses, start)
    requires ApplyAll(Book(map[], map[], start), uses, window, attempts).clock <= now
    ensures
      var book := ApplyAll(Book(map[], map[], start), uses, window, attempts);
      Blocked(book.events, keys, window, attempts, now).blocked <==>
        exists key :: key in keys && FullFor(book.log, key, window, attempts, now)
  {
    hide Blocked, ApplyAll;
    var book := ApplyAll(Book(map[], map[], start), uses, window, attempts);
    RunFaithful(Book(map[], map[], start), uses, window, attempts);
    BlockedIsExact(book.events, book.log, keys, window, attempts, book.clock, now);
  }

  // ---- allow: at most so many grants in any window ----

  /** The two critical sections of `allow` call number `id`, in the order the lock is taken. Each
      section's clock was read before it took the lock, so `now` need not ascend. */
  datatype Half = Begin(id: nat, key: string, now: int) | Finish(id: nat, now: int)

  /** A call that was not refused and has not recorded its grant yet. `since` is the latest clock
      reading of any section up to its own question. */
  datatype Waiting = Waiting(key: string, since: int)

  datatype Gate = Gate(events: Events, log: Events, clock: int, pending: map<nat, Waiting>)

  function Max(a: int, b: int): int {
    if a < b then b else a
  }

  function Move(gate: Gate, half: Half, window: int, attempts: int): Gate {
    match half
    case Begin(id, key, now) =>
      var verdict := Blocked(gate.events, [key], window, attempts, now);
      var latest := Max(gate.clock, now);
      Gate(verdict.events, gate.log, latest,
           if verdict.blocked then gate.pending else gate.pending[id := Waiting(key, latest)])
    case Finish(id, now) =>
      if id !in gate.pending then gate
      else
        var key := gate.pending[id].key;
        Gate(Failed(gate.events, [key], window, now), Append(gate.log, [key], now), Max(gate.clock, now), gate.pending - {id})
  }

  function MoveAll(gate: Gate, halves: seq<Half>, window: int, attempts: int): Gate
    decreases |halves|
  {
    if halves == [] then gate else MoveAll(Move(gate, halves[0], window, attempts), halves[1..], window, attempts)
  }

  /** What a real clock and a lock allow: the reading of a record is made after the call was let
      through, hence not before any reading made up to then. */
  predicate Possible(gate: Gate, half: Half) {
    match half
    case Begin(id, _, _) => id !in gate.pending
    case Finish(id, now) => id in gate.pending ==> gate.pending[id].since <= now
  }

  predicate AllPossible(gate: Gate, halves: seq<Half>, window: int, attempts: int)
    decreases |halves|
  {
    halves != [] ==>
      Possible(gate, halves[0]) && AllPossible(Move(gate, halves[0], window, attempts), halves[1..], window, attempts)
  }

  function Flying(gate: Gate, key: string): set<nat> {
    set id | id in gate.pending && gate.pending[id].key == key
  }

  /** At no point are more than `peak` calls for `key` between their two halves. */
  predicate InFlightAtMost(gate: Gate, halves: seq<Half>, window: int, attempts: int, key: string, peak: nat)
    decreases |halves|
  {
    && |Flying(gate, key)| <= peak
    && (halves == [] || InFlightAtMost(Move(gate, halves[0], window, attempts), halves[1..], window, attempts, key, peak))
  }

  /** The logged grants in the half-open interval from `t`. */
  function Within(log: seq<int>, t: int, window: int): seq<int> {
    if log == [] then []
    else (if t <= log[0] < t + window then [log[0]] else []) + Within(log[1..], t, window)
  }

  lemma {:induction false} WithinAppend(log: seq<int>, t: int, window: int, now: int)
    ensures Within(log + [now], t, window) == Within(log, t, window) + (if t <= now < t + window then [now] else [])
    decreases |log|
  {
    if log == [] {
      assert log + [now] == [now];
    } else {
      WithinAppend(log[1..], t, window, now);
      assert (log + [now])[1..] == log[1..] + [now];
      var head := if t <= log[0] < t + window then [log[0]] else [];
      assert Within(log + [now], t, window) == head + Within(log[1..] + [now], t, window);
      assert Within(log, t, window) == head + Within(log[1..], t, window);
    }
  }

  /** What is left of `log` when its first `n` entries lie before `t` bounds the entries from `t`. */
  lemma {:induction false} WithinRest(log: seq<int>, n: nat, t: int, window: int)
    requires n <= |log| && forall i | 0 <= i < n :: log[i] < t
    ensures |Within(log, t, window)| <= |log| - n
    decreases |log|
  {
    if log != [] {
      WithinRest(log[1..], if n > 0 then n - 1 else 0, t, window);
    }
  }

  /** `kept` is a suffix of `log`, which need not ascend, and the rest has expired. */
  ghost predicate Suffix(kept: seq<int>, log: seq<int>, window: int, clock: int) {
    && |kept| <= |log| && kept == log[|log| - |kept|..]
    && forall i | 0 <= i < |log| - |kept| :: clock - log[i] >= window
  }

  lemma {:induction false} PrunedIsSuffix(times: seq<int>, window: int, now: int)
    ensures Suffix(Pruned(times, window, now), times, window, now)
    decreases |times|
  {
    if times != [] && now - times[0] >= window {
      var rest := times[1..];
      var pruned := Pruned(rest, window, now);
      PrunedIsSuffix(rest, window, now);
      assert times[|times| - |pruned|..] == rest[|rest| - |pruned|..];
      forall i | 0 <= i < |times| - |pruned| ensures now - times[i] >= window {
        if i > 0 { assert times[i] == rest[i - 1]; }
      }
    }
  }

  lemma SuffixOfSuffix(a: seq<int>, b: seq<int>, c: seq<int>, window: int, now: int, clock: int)
    requires Suffix(a, b, window, now) && Suffix(b, c, window, clock)
    ensures Suffix(a, c, window, Max(clock, now))
  {
    assert a == c[|c| - |a|..];
    forall i | 0 <= i < |c| - |a| ensures Max(clock, now) - c[i] >= window {
      if i >= |c| - |b| { assert c[i] == b[i - (|c| - |b|)]; }
    }
  }

  /** Calls in flight that may still record before `limit`. */
  function Due(gate: Gate, key: string, limit: int): set<nat> {
    set id | id in gate.pending && gate.pending[id].key == key && gate.pending[id].since < limit
  }

  /** In any interval, the grants recorded and those that may still be share one budget. */
  ghost predicate Budgeted(gate: Gate, key: string, window: int, budget: int) {
    && Suffix(Get(gate.events, key), Get(gate.log, key), window, gate.clock)
    && forall t :: |Within(Get(gate.log, key), t, window)| + |Due(gate, key, t + window)| <= budget
  }

  lemma OneKeyBlocked(events: Events, key: string, window: int, attempts: int, now: int, other: string)
    ensures
      var verdict := Blocked(events, [key], window, attempts, now);
      && (verdict.blocked <==> |Pruned(Get(events, key), window, now)| >= attempts)
      && Get(verdict.events, other) == if other == key then Pruned(Get(events, key), window, now) else Get(events, other)
  {
    hide Pruned;
    assert [key][1..] == [];
    var pruned := Prune(events, key, window, now);
    assert Blocked(pruned, [key][1..], window, attempts, now) == Verdict(false, pruned);
  }

  lemma OneKeyFailed(events: Events, key: string, window: int, now: int, other: string)
    ensures Get(Failed(events, [key], window, now), other) ==
      if other == key then Pruned(Get(events, key), window, now) + [now] else Get(events, other)
  {
    hide Pruned;
    assert [key][1..] == [];
    var pruned := Prune(events, key, window, now);
    var noted := pruned[key := Get(pruned, key) + [now]];
    assert Failed(events, [key], window, now) == Failed(noted, [key][1..], window, now) == noted;
  }

  lemma AppendOne(log: Events, key: string, now: int)
    ensures Append(log, [key], now) == log[key := Get(log, key) + [now]]
  {
    assert [key][1..] == [];
  }

  lemma SuffixLater(kept: seq<int>, log: seq<int>, window: int, clock: int, now: int)
    requires Suffix(kept, log, window, clock)
    ensures Suffix(kept, log, window, Max(clock, now))
  {}

  lemma DueIsFlying(gate: Gate, key: string, limit: int)
    ensures |Due(gate, key, limit)| <= |Flying(gate, key)|
  {
    SubsetSize(Due(gate, key, limit), Flying(gate, key));
  }

  lemma {:induction false} SubsetSize(a: set<nat>, b: set<nat>)
    requires a <= b
    ensures |a| <= |b|
    decreases a
  {
    if x :| x in a {
      SubsetSize(a - {x}, b - {x});
    }
  }

  /** The deque after a question. */
  lemma BeginKeepsSuffix(gate: Gate, half: Half, window: int, attempts: int, key: string)
    requires half.Begin? && Suffix(Get(gate.events, key), Get(gate.log, key), window, gate.clock)
    ensures
      var next := Move(gate, half, window, attempts);
      && Suffix(Get(next.events, key), Get(next.log, key), window, next.clock)
      && (half.key == key && next.pending != gate.pending ==> |Get(next.events, key)| < attempts)
  {
    hide Pruned, Blocked, Suffix, Get;
    var times, log := Get(gate.events, key), Get(gate.log, key);
    OneKeyBlocked(gate.events, half.key, window, attempts, half.now, key);
    SuffixLater(times, log, window, gate.clock, half.now);
    if half.key == key {
      PrunedIsSuffix(times, window, half.now);
      SuffixOfSuffix(Pruned(times, window, half.now), times, log, window, half.now, gate.clock);
    }
  }

  lemma BeginDue(gate: Gate, half: Half, window: int, attempts: int, key: string, limit: int)
    requires half.Begin? && half.id !in gate.pending
    ensures
      var next := Move(gate, half, window, attempts);
      next.pending == gate.pending || half.key != key || next.clock >= limit ==>
        Due(next, key, limit) == Due(gate, key, limit)
  {
    hide Blocked;
  }

  lemma BeginStaysBudgeted(gate: Gate, half: Half, window: int, attempts: int, key: string, peak: nat)
    requires half.Begin? && half.id !in gate.pending && attempts >= 1
    requires Budgeted(gate, key, window, attempts - 1 + peak)
    requires |Flying(Move(gate, half, window, attempts), key)| <= peak
    ensures Budgeted(Move(gate, half, window, attempts), key, window, attempts - 1 + peak)
  {
    hide Within, Suffix, Due, Flying, Get, Move;
    var next := Move(gate, half, window, attempts);
    BeginKeepsSuffix(gate, half, window, attempts, key);
    BeginKeepsLog(gate, half, window, attempts);
    forall t ensures |Within(Get(next.log, key), t, window)| + |Due(next, key, t + window)| <= attempts - 1 + peak {
      BeginDue(gate, half, window, attempts, key, t + window);
      if next.pending != gate.pending && half.key == key && next.clock < t + window {
        SuffixBounds(Get(next.events, key), Get(next.log, key), window, next.clock, t);
        DueIsFlying(next, key, t + window);
      }
    }
  }

  lemma BeginKeepsLog(gate: Gate, half: Half, window: int, attempts: int)
    requires half.Begin?
    ensures Move(gate, half, window, attempts).log == gate.log
  {}

  lemma SuffixBounds(kept: seq<int>, log: seq<int>, window: int, clock: int, t: int)
    requires Suffix(kept, log, window, clock) && clock < t + window
    ensures |Within(log, t, window)| <= |kept|
  {
    hide Within;
    WithinRest(log, |log| - |kept|, t, window);
  }

  lemma SuffixAppend(kept: seq<int>, log: seq<int>, window: int, clock: int, now: int)
    requires Suffix(kept, log, window, clock)
    ensures Suffix(kept + [now], log + [now], window, clock)
  {}

  /** The deque and the log after a record. */
  lemma FinishKeepsSuffix(gate: Gate, half: Half, window: int, attempts: int, key: string)
    requires half.Finish? && half.id in gate.pending
    requires Suffix(Get(gate.events, key), Get(gate.log, key), window, gate.clock)
    ensures
      var next := Move(gate, half, window, attempts);
      && Suffix(Get(next.events, key), Get(next.log, key), window, next.clock)
      && Get(next.log, key) == Get(gate.log, key) + if gate.pending[half.id].key == key then [half.now] else []
  {
    hide Pruned, Failed, Append, Suffix;
    var now, mine := half.now, gate.pending[half.id].key;
    var kept, log := Get(gate.events, key), Get(gate.log, key);
    OneKeyFailed(gate.events, mine, window, now, key);
    AppendOne(gate.log, mine, now);
    SuffixLater(kept, log, window, gate.clock, now);
    if mine == key {
      PrunedIsSuffix(kept, window, now);
      SuffixOfSuffix(Pruned(kept, window, now), kept, log, window, now, gate.clock);
      SuffixAppend(Pruned(kept, window, now), log, window, Max(gate.clock, now), now);
    }
  }

  lemma FinishDue(gate: Gate, half: Half, window: int, attempts: int, key: string, limit: int)
    requires half.Finish? && half.id in gate.pending && Possible(gate, half)
    ensures Due(Move(gate, half, window, attempts), key, limit) == Due(gate, key, limit) - {half.id}
    ensures gate.pending[half.id].key == key && half.now < limit ==> half.id in Due(gate, key, limit)
  {
    hide Failed, Append;
  }

  lemma FinishStaysBudgeted(gate: Gate, half: Half, window: int, attempts: int, key: string, budget: int)
    requires half.Finish? && Possible(gate, half) && Budgeted(gate, key, window, budget)
    ensures Budgeted(Move(gate, half, window, attempts), key, window, budget)
  {
    if half.id in gate.pending {
      hide Within, Suffix, Due, Get, Move, Possible;
      var next := Move(gate, half, window, attempts);
      var log := Get(gate.log, key);
      FinishKeepsSuffix(gate, half, window, attempts, key);
      forall t ensures |Within(Get(next.log, key), t, window)| + |Due(next, key, t + window)| <= budget {
        FinishDue(gate, half, window, attempts, key, t + window);
        WithinAppend(log, t, window, half.now);
        assert log + [] == log;
      }
    }
  }

  lemma {:induction false} RunStaysBudgeted(
    gate: Gate, halves: seq<Half>, window: int, attempts: int, key: string, peak: nat)
    requires attempts >= 1 && AllPossible(gate, halves, window, attempts)
    requires InFlightAtMost(gate, halves, window, attempts, key, peak)
    requires Budgeted(gate, key, window, attempts - 1 + peak)
    ensures Budgeted(MoveAll(gate, halves, window, attempts), key, window, attempts - 1 + peak)
    decreases |halves|
  {
    hide Budgeted, Move, Flying;
    if halves != [] {
      if halves[0].Begin? {
        BeginStaysBudgeted(gate, halves[0], window, attempts, key, peak);
      } else {
        FinishStaysBudgeted(gate, halves[0], window, attempts, key, attempts - 1 + peak);
      }
      RunStaysBudgeted(Move(gate, halves[0], window, attempts), halves[1..], window, attempts, key, peak);
    }
  }

  function New(clock: int): Gate {
    Gate(map[], map[], clock, map[])
  }

  /** With at most `peak` calls for a key in flight at once, no half-open interval as long as the
      window holds more than `attempts - 1 + peak` of its grants, in whatever order the sections
      of overlapping calls get the lock. */
  lemma GrantsPerWindow(clock: int, halves: seq<Half>, window: int, attempts: int, key: string, peak: nat, t: int)
    requires attempts >= 1 && AllPossible(New(clock), halves, window, attempts)
    requires InFlightAtMost(New(clock), halves, window, attempts, key, peak)
    ensures |Within(Get(MoveAll(New(clock), halves, window, attempts).log, key), t, window)| <= attempts - 1 + peak
  {
    hide InFlightAtMost, MoveAll, AllPossible;
    RunStaysBudgeted(New(clock), halves, window, attempts, key, peak);
  }

  // ---- one call at a time ----

  datatype Grant = Grant(key: string, asked: int, recorded: int)

  /** Calls of `allow` that follow one another. A refused call has no second half: its `Finish`
      finds nothing pending. */
  function OneAfterTheOther(calls: seq<Grant>): seq<Half>
    decreases |calls|
  {
    if calls == [] then []
    else [Begin(0, calls[0].key, calls[0].asked), Finish(0, calls[0].recorded)] + OneAfterTheOther(calls[1..])
  }

  /** The clock never goes back. */
  predicate InOrder(calls: seq<Grant>, clock: int)
    decreases |calls|
  {
    calls != [] ==> clock <= calls[0].asked <= calls[0].recorded && InOrder(calls[1..], calls[0].recorded)
  }

  lemma InOrderEarlier(calls: seq<Grant>, clock: int, earlier: int)
    requires InOrder(calls, clock) && earlier <= clock
    ensures InOrder(calls, earlier)
  {}

  lemma {:induction false} AloneInFlight(gate: Gate, calls: seq<Grant>, window: int, attempts: int, key: string)
    requires gate.pending == map[] && InOrder(calls, gate.clock)
    ensures InFlightAtMost(gate, OneAfterTheOther(calls), window, attempts, key, 1)
    ensures AllPossible(gate, OneAfterTheOther(calls), window, attempts)
    decreases |calls|
  {
    hide Blocked, Failed, Append;
    if calls != [] {
      var halves := OneAfterTheOther(calls);
      var asked := Move(gate, halves[0], window, attempts);
      var done := Move(asked, halves[1], window, attempts);
      InOrderEarlier(calls[1..], calls[0].recorded, done.clock);
      AloneInFlight(done, calls[1..], window, attempts, key);
      assert halves[1..][1..] == OneAfterTheOther(calls[1..]);
      SubsetSize(Flying(asked, key), {0});
      assert InFlightAtMost(asked, halves[1..], window, attempts, key, 1);
      assert AllPossible(asked, halves[1..], window, attempts);
      assert Flying(gate, key) == {};
    }
  }

  /** Calls that do not overlap: at most `attempts` grants per key in any interval of the window's
      length. */
  lemma SequentialGrantsPerWindow(clock: int, calls: seq<Grant>, window: int, attempts: int, key: string, t: int)
    requires attempts >= 1 && InOrder(calls, clock)
    ensures
      |Within(Get(MoveAll(New(clock), OneAfterTheOther(calls), window, attempts).log, key), t, window)| <= attempts
  {
    hide InOrder, MoveAll, OneAfterTheOther, AllPossible, InFlightAtMost;
    AloneInFlight(New(clock), calls, window, attempts, key);
    GrantsPerWindow(clock, OneAfterTheOther(calls), window, attempts, key, 1, t);
  }

  // ---- the bound is sharp ----

  function All(now: int, n: nat): seq<int> {
    if n == 0 then [] else All(now, n - 1) + [now]
  }

  lemma {:induction false} AllIsLive(now: int, n: nat, window: int)
    requires window > 0
    ensures |All(now, n)| == n && Pruned(All(now, n), window, now) == All(now, n)
    ensures |Within(All(now, n), now, window)| == n
    ensures forall i | 0 <= i < n :: All(now, n)[i] == now
  {
    if n > 0 {
      AllIsLive(now, n - 1, window);
      WithinAppend(All(now, n - 1), now, window, now);
    }
  }

  /** `gate` has recorded `n` grants for `key`, all at this instant, and has the calls `ids` in flight. */
  ghost predicate Stands(gate: Gate, key: string, now: int, n: nat, ids: set<nat>) {
    && gate.clock == now
    && Get(gate.events, key) == All(now, n) && Get(gate.log, key) == All(now, n)
    && gate.pending.Keys == ids && forall id | id in ids :: gate.pending[id] == Waiting(key, now)
  }

  lemma OneBegins(gate: Gate, id: nat, key: string, now: int, window: int, attempts: int, n: nat, ids: set<nat>)
    requires window > 0 && n < attempts && Stands(gate, key, now, n, ids)
    ensures Stands(Move(gate, Begin(id, key, now), window, attempts), key, now, n, ids + {id})
  {
    hide Pruned, Blocked;
    AllIsLive(now, n, window);
    OneKeyBlocked(gate.events, key, window, attempts, now, key);
  }

  lemma OneFinishes(gate: Gate, id: nat, key: string, now: int, window: int, attempts: int, n: nat, ids: set<nat>)
    requires window > 0 && id in ids && Stands(gate, key, now, n, ids)
    ensures Stands(Move(gate, Finish(id, now), window, attempts), key, now, n + 1, ids - {id})
  {
    hide Pruned, Failed, Append;
    AllIsLive(now, n, window);
    AppendOne(gate.log, key, now);
    OneKeyFailed(gate.events, key, window, now, key);
  }

  /** First `quiet` calls one after the other, then a crowd that asks before any of it records. */
  function Crowd(key: string, now: int, quiet: nat, begins: nat, finishes: nat): seq<Half>
    decreases quiet, begins, finishes
  {
    if quiet > 0 then [Begin(0, key, now), Finish(0, now)] + Crowd(key, now, quiet - 1, begins, finishes)
    else if begins > 0 then [Begin(begins, key, now)] + Crowd(key, now, 0, begins - 1, finishes)
    else if finishes > 0 then [Finish(finishes, now)] + Crowd(key, now, 0, 0, finishes - 1)
    else []
  }

  /** The calls above `begins`, up to `finishes`. */
  function Asked(begins: nat, finishes: nat): (ids: set<nat>)
    ensures forall id :: id in ids <==> begins < id <= finishes
    ensures begins <= finishes ==> |ids| == finishes - begins
  {
    if begins >= finishes then {} else Asked(begins, finishes - 1) + {finishes}
  }

  lemma StandsFacts(gate: Gate, key: string, now: int, n: nat, ids: set<nat>)
    requires Stands(gate, key, now, n, ids)
    ensures Flying(gate, key) == ids == gate.pending.Keys
    ensures forall id | id in gate.pending :: gate.pending[id].since == now
  {}

  /** The halves can happen, with at most `peak` calls in flight, and end with `total` grants. */
  ghost predicate Passes(
    gate: Gate, halves: seq<Half>, key: string, now: int, window: int, attempts: int, peak: nat, total: nat)
  {
    && Stands(MoveAll(gate, halves, window, attempts), key, now, total, {})
    && InFlightAtMost(gate, halves, window, attempts, key, peak)
    && AllPossible(gate, halves, window, attempts)
  }

  lemma PassesFirst(
    gate: Gate, halves: seq<Half>, key: string, now: int, window: int, attempts: int, peak: nat, total: nat)
    requires halves != [] && Possible(gate, halves[0]) && |Flying(gate, key)| <= peak
    requires Passes(Move(gate, halves[0], window, attempts), halves[1..], key, now, window, attempts, peak, total)
    ensures Passes(gate, halves, key, now, window, attempts, peak, total)
  {
    hide Stands, Move, Flying, Possible;
  }

  lemma {:induction false} CrowdFinishes(
    gate: Gate, key: string, now: int, window: int, attempts: int, n: nat, finishes: nat, peak: nat)
    requires window > 0 && finishes <= peak && Stands(gate, key, now, n, Asked(0, finishes))
    ensures Passes(gate, Crowd(key, now, 0, 0, finishes), key, now, window, attempts, peak, n + finishes)
    decreases finishes
  {
    hide Passes, Move, Asked, Stands, All, Flying;
    StandsFacts(gate, key, now, n, Asked(0, finishes));
    if finishes == 0 {
      NothingLeft(gate, key, now, window, attempts, peak, n);
    } else {
      OneFinishes(gate, finishes, key, now, window, attempts, n, Asked(0, finishes));
      assert Asked(0, finishes) - {finishes} == Asked(0, finishes - 1);
      CrowdFinishes(Move(gate, Finish(finishes, now), window, attempts), key, now, window, attempts, n + 1, finishes - 1, peak);
      PassesFirst(gate, Crowd(key, now, 0, 0, finishes), key, now, window, attempts, peak, n + finishes);
    }
  }

  lemma NothingLeft(gate: Gate, key: string, now: int, window: int, attempts: int, peak: nat, n: nat)
    requires Stands(gate, key, now, n, Asked(0, 0))
    ensures Passes(gate, [], key, now, window, attempts, peak, n)
  {
    assert Asked(0, 0) == {};
    StandsFacts(gate, key, now, n, {});
  }

  lemma {:induction false} CrowdAsks(
    gate: Gate, key: string, now: int, window: int, attempts: int, n: nat, begins: nat, finishes: nat, peak: nat)
    requires window > 0 && begins <= finishes <= peak && n < attempts
    requires Stands(gate, key, now, n, Asked(begins, finishes))
    ensures Passes(gate, Crowd(key, now, 0, begins, finishes), key, now, window, attempts, peak, n + finishes)
    decreases begins
  {
    hide Passes, Move, Asked, Stands, All, Flying;
    StandsFacts(gate, key, now, n, Asked(begins, finishes));
    if begins == 0 {
      CrowdFinishes(gate, key, now, window, attempts, n, finishes, peak);
    } else {
      OneBegins(gate, begins, key, now, window, attempts, n, Asked(begins, finishes));
      assert Asked(begins, finishes) + {begins} == Asked(begins - 1, finishes);
      CrowdAsks(Move(gate, Begin(begins, key, now), window, attempts), key, now, window, attempts, n, begins - 1, finishes, peak);
      PassesFirst(gate, Crowd(key, now, 0, begins, finishes), key, now, window, attempts, peak, n + finishes);
    }
  }

  lemma {:induction false} CrowdPasses(
    gate: Gate, key: string, now: int, window: int, attempts: int, n: nat, quiet: nat, peak: nat)
    requires window > 0 && n + quiet < attempts && peak >= 1 && Stands(gate, key, now, n, {})
    ensures Passes(gate, Crowd(key, now, quiet, peak, peak), key, now, window, attempts, peak, n + quiet + peak)
    decreases quiet
  {
    hide Passes, Move, Asked, Stands, All, Flying;
    StandsFacts(gate, key, now, n, {});
    if quiet == 0 {
      assert Asked(peak, peak) == {};
      CrowdAsks(gate, key, now, window, attempts, n, peak, peak, peak);
    } else {
      var halves := Crowd(key, now, quiet, peak, peak);
      var asked := Move(gate, halves[0], window, attempts);
      OneBegins(gate, 0, key, now, window, attempts, n, {});
      assert {} + {0} == {0};
      StandsFacts(asked, key, now, n, {0});
      OneFinishes(asked, 0, key, now, window, attempts, n, {0});
      assert {0} - {0} == {} && halves[1..][0] == halves[1];
      CrowdPasses(Move(asked, halves[1], window, attempts), key, now, window, attempts, n + 1, quiet - 1, peak);
      assert halves[1..][1..] == Crowd(key, now, quiet - 1, peak, peak);
      PassesFirst(asked, halves[1..], key, now, window, attempts, peak, n + quiet + peak);
      PassesFirst(gate, halves, key, now, window, attempts, peak, n + quiet + peak);
    }
  }

  /** With `peak` calls in flight the bound is reached: checking and recording are separate
      critical sections, so overlapping calls get past a limit that non-overlapping calls keep. */
  lemma OverlapReachesTheBound(key: string, now: int, window: int, attempts: nat, peak: nat)
    requires window > 0 && attempts >= 1 && peak >= 1
    ensures
      var halves := Crowd(key, now, attempts - 1, peak, peak);
      && AllPossible(New(now), halves, window, attempts)
      && InFlightAtMost(New(now), halves, window, attempts, key, peak)
      && |Within(Get(MoveAll(New(now), halves, window, attempts).log, key), now, window)| == attempts - 1 + peak
  {
    hide MoveAll, InFlightAtMost, AllPossible;
    CrowdPasses(New(now), key, now, window, attempts, 0, attempts - 1, peak);
    AllIsLive(now, attempts - 1 + peak, window);
  }
}
