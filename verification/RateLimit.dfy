/** The sliding-window rate limiter (backend/samadcon/core/ratelimit.py). */
module RateLimit {
  import opened Text

  type Table = map<string, seq<real>>

  /** *Failed*: a limit that allows nothing looks for the oldest event where there is none
      (the source's IndexError). */
  datatype Outcome = Accepted | Refused(retryAfterSeconds: int) | Failed

  /** More keys than this and the stale ones are dropped. */
  const TABLE_LIMIT := 1024

  function Bucket(t: Table, key: string): seq<real> {
    if key in t then t[key] else []
  }

  /** The bucket without the leading events that are older than the window. */
  function DropOld(bucket: seq<real>, now: real, window: real): seq<real> {
    if bucket != [] && now - bucket[0] > window then DropOld(bucket[1..], now, window) else bucket
  }

  predicate Stale(bucket: seq<real>, cutoff: real) {
    bucket == [] || bucket[|bucket| - 1] <= cutoff
  }

  function Pruned(t: Table, cutoff: real): Table {
    if |t| > TABLE_LIMIT then map k | k in t && !Stale(t[k], cutoff) :: t[k] else t
  }

  /** One attempt, before any pruning. */
  function RecordStep(t: Table, key: string, now: real, maxEvents: int, window: real): (Table, Outcome) {
    var bucket := DropOld(Bucket(t, key), now, window);
    if |bucket| < maxEvents then (t[key := bucket + [now]], Accepted)
    else if bucket == [] then (t[key := bucket], Failed)
    else (t[key := bucket], Refused((window - (now - bucket[0])).Floor + 1))
  }

  function CheckStep(t: Table, key: string, now: real, maxEvents: int, window: real): (Table, Outcome) {
    var (t', r) := RecordStep(t, key, now, maxEvents, window);
    (if r == Accepted then Pruned(t', now - window) else t', r)
  }

  class RateLimiter {
    const maxEvents: int
    const window: real
    var events: Table

    constructor (maxEvents: int, window: real)
      ensures this.maxEvents == maxEvents && this.window == window && events == map[]
    {
      this.maxEvents := maxEvents;
      this.window := window;
      this.events := map[];
    }

    method Check(key: string, now: real) returns (r: Outcome)
      modifies this`events
      ensures (events, r) == CheckStep(old(events), key, now, maxEvents, window)
    {
      if key !in events {
        events := events[key := []];
      }
      ghost var start := events[key];
      while events[key] != [] && now - events[key][0] > window
        invariant key in events && events == old(events)[key := events[key]]
        invariant DropOld(events[key], now, window) == DropOld(start, now, window)
        decreases |events[key]|
      {
        events := events[key := events[key][1..]];
      }
      if |events[key]| >= maxEvents {
        if events[key] == [] {
          return Failed;
        }
        return Refused((window - (now - events[key][0])).Floor + 1);
      }
      events := events[key := events[key] + [now]];
      assert events == old(events)[key := DropOld(Bucket(old(events), key), now, window) + [now]];
      if |events| > TABLE_LIMIT {
        var cutoff := now - window;
        events := map k | k in events && !Stale(events[k], cutoff) :: events[k];
      }
      return Accepted;
    }
  }

  // --- Runs -----------------------------------------------------------------------------

  type Attempts = seq<(string, real)>

  /** Times never go back. */
  ghost predicate Ordered(attempts: Attempts, from: real) {
    attempts == [] || (from <= attempts[0].1 && Ordered(attempts[1..], attempts[0].1))
  }

  function After(t: Table, attempts: Attempts, maxEvents: int, window: real): Table
    decreases |attempts|
  {
    if attempts == [] then t
    else After(CheckStep(t, attempts[0].0, attempts[0].1, maxEvents, window).0, attempts[1..], maxEvents, window)
  }

  /** The times at which *key* was accepted. */
  function AcceptedTimes(t: Table, attempts: Attempts, key: string, maxEvents: int, window: real): seq<real>
    decreases |attempts|
  {
    if attempts == [] then []
    else
      var (t', r) := CheckStep(t, attempts[0].0, attempts[0].1, maxEvents, window);
      (if attempts[0].0 == key && r == Accepted then [attempts[0].1] else [])
      + AcceptedTimes(t', attempts[1..], key, maxEvents, window)
  }

  function EndTime(attempts: Attempts, from: real): real {
    if attempts == [] then from else attempts[|attempts| - 1].1
  }

  // --- The invariant of one key ----------------------------------------------------------

  ghost predicate Increasing(log: seq<real>) {
    forall i, j :: 0 <= i < j < |log| ==> log[i] <= log[j]
  }

  /** Any maxEvents + 1 accepted events in a row span at least the window. */
  ghost predicate Spaced(log: seq<real>, maxEvents: nat, window: real) {
    forall i, j :: 0 <= i && j == i + maxEvents < |log| ==> log[j] - log[i] >= window
  }

  /** The bucket is the end of the log of accepted events; what it no longer holds has left
      the window. */
  ghost predicate Tracks(log: seq<real>, bucket: seq<real>, now: real, maxEvents: nat, window: real) {
    && Increasing(log) && Spaced(log, maxEvents, window)
    && SuffixOf(bucket, log) && |bucket| <= maxEvents
    && (forall i :: 0 <= i < |log| ==> log[i] <= now)
    && (forall i :: 0 <= i < |log| - |bucket| ==> log[i] <= now - window)
  }

  lemma {:induction false} DropOldTracks(
    log: seq<real>, bucket: seq<real>, now: real, now': real, maxEvents: nat, window: real)
    requires Tracks(log, bucket, now, maxEvents, window) && now <= now'
    ensures Tracks(log, DropOld(bucket, now', window), now', maxEvents, window)
  {
    if bucket != [] && now' - bucket[0] > window {
      var n := |log| - |bucket|;
      assert log[n] == bucket[0] && log[n + 1..] == bucket[1..];
      assert Tracks(log, bucket[1..], now', maxEvents, window);
      DropOldTracks(log, bucket[1..], now', now', maxEvents, window);
    }
  }

  lemma AppendTracks(log: seq<real>, bucket: seq<real>, now: real, maxEvents: nat, window: real)
    requires Tracks(log, bucket, now, maxEvents, window) && |bucket| < maxEvents
    ensures Tracks(log + [now], bucket + [now], now, maxEvents, window)
  {
    var log', n := log + [now], |log| - |bucket|;
    assert log'[n..] == log[n..] + [now];
  }

  lemma StaleTracks(log: seq<real>, bucket: seq<real>, now: real, maxEvents: nat, window: real)
    requires Tracks(log, bucket, now, maxEvents, window) && Stale(bucket, now - window)
    ensures Tracks(log, [], now, maxEvents, window)
  {
    if bucket != [] {
      assert log[|log| - 1] == bucket[|bucket| - 1];
    }
    assert log[|log|..] == [];
  }

  /** One attempt on any key keeps the invariant of every key. */
  lemma StepTracks(t: Table, key: string, log: seq<real>, now: real, att: (string, real), maxEvents: nat, window: real)
    requires maxEvents > 0 && Tracks(log, Bucket(t, key), now, maxEvents, window) && now <= att.1
    ensures var (t', r) := CheckStep(t, att.0, att.1, maxEvents, window);
            var log' := if att.0 == key && r == Accepted then log + [att.1] else log;
            Tracks(log', Bucket(t', key), att.1, maxEvents, window)
  {
    hide Tracks, Stale, DropOld;
    var (other, now') := att;
    var bucket := DropOld(Bucket(t, other), now', window);
    LaterTracks(log, Bucket(t, key), now, now', maxEvents, window);
    if other == key {
      DropOldTracks(log, Bucket(t, key), now, now', maxEvents, window);
    }
    if |bucket| < maxEvents {
      var log', next := log, t[other := bucket + [now']];
      if other == key {
        AppendTracks(log, bucket, now', maxEvents, window);
        log' := log + [now'];
      }
      if Stale(Bucket(next, key), now' - window) {
        StaleTracks(log', Bucket(next, key), now', maxEvents, window);
        EmptyIsStale(now' - window);
      }
    }
  }

  lemma EmptyIsStale(cutoff: real)
    ensures Stale([], cutoff)
  {
  }

  lemma LaterTracks(log: seq<real>, bucket: seq<real>, now: real, now': real, maxEvents: nat, window: real)
    requires Tracks(log, bucket, now, maxEvents, window) && now <= now'
    ensures Tracks(log, bucket, now', maxEvents, window)
  {
  }

  lemma {:induction false} RunTracks(
    t: Table, key: string, log: seq<real>, now: real, attempts: Attempts, maxEvents: nat, window: real)
    requires maxEvents > 0 && Tracks(log, Bucket(t, key), now, maxEvents, window) && Ordered(attempts, now)
    ensures Tracks(log + AcceptedTimes(t, attempts, key, maxEvents, window),
                   Bucket(After(t, attempts, maxEvents, window), key), EndTime(attempts, now), maxEvents, window)
    decreases |attempts|
  {
    hide Tracks, CheckStep, Bucket;
    if attempts == [] {
      assert log + [] == log;
    } else {
      var (t', r) := CheckStep(t, attempts[0].0, attempts[0].1, maxEvents, window);
      StepTracks(t, key, log, now, attempts[0], maxEvents, window);
      var one := if attempts[0].0 == key && r == Accepted then [attempts[0].1] else [];
      var rest := AcceptedTimes(t', attempts[1..], key, maxEvents, window);
      assert log + one == if one == [] then log else log + [attempts[0].1];
      assert log + (one + rest) == log + one + rest;
      RunTracks(t', key, log + one, attempts[0].1, attempts[1..], maxEvents, window);
    }
  }

  // --- At most maxEvents per window ---------------------------------------------------------

  /** How many of the times lie in the half-open window (lo, hi]. */
  function CountIn(log: seq<real>, lo: real, hi: real): nat {
    if log == [] then 0 else (if lo < log[0] <= hi then 1 else 0) + CountIn(log[1..], lo, hi)
  }

  lemma {:induction false} CountAtMost(log: seq<real>, lo: real, hi: real, n: nat)
    requires forall i :: n <= i < |log| ==> !(lo < log[i] <= hi)
    ensures CountIn(log, lo, hi) <= n
  {
    if log != [] {
      CountAtMost(log[1..], lo, hi, if n == 0 then 0 else n - 1);
    }
  }

  lemma {:induction false} SpacedCount(log: seq<real>, t: real, maxEvents: nat, window: real)
    requires Increasing(log) && Spaced(log, maxEvents, window)
    ensures CountIn(log, t - window, t) <= maxEvents
  {
    if log != [] {
      if log[0] <= t - window {
        SpacedCount(log[1..], t, maxEvents, window);
      } else {
        forall i | maxEvents <= i < |log| ensures log[i] > t {
          assert log[maxEvents] - log[0] >= window && log[maxEvents] <= log[i];
        }
        CountAtMost(log, t - window, t, maxEvents);
      }
    }
  }

  /** A limit of zero or less accepts nothing, and fails on every attempt. */
  lemma {:induction false} NothingAccepted(t: Table, attempts: Attempts, key: string, now: real, maxEvents: int, window: real)
    requires maxEvents <= 0 && forall k :: Bucket(t, k) == []
    ensures AcceptedTimes(t, attempts, key, maxEvents, window) == []
    ensures CheckStep(After(t, attempts, maxEvents, window), key, now, maxEvents, window).1 == Failed
    decreases |attempts|
  {
    if attempts != [] {
      var t' := CheckStep(t, attempts[0].0, attempts[0].1, maxEvents, window).0;
      assert forall k :: Bucket(t', k) == [] || Bucket(t', k) == Bucket(t, k);
      NothingAccepted(t', attempts[1..], key, now, maxEvents, window);
    }
  }

  /** Over any run with a clock that does not go back, no half-open window of the configured
      length holds more accepted events of one key than the limit, pruning or not. */
  lemma WindowBound(attempts: Attempts, start: real, key: string, t: real, maxEvents: int, window: real)
    requires Ordered(attempts, start)
    ensures CountIn(AcceptedTimes(map[], attempts, key, maxEvents, window), t - window, t)
         <= if maxEvents > 0 then maxEvents else 0
  {
    var log := AcceptedTimes(map[], attempts, key, maxEvents, window);
    if maxEvents > 0 {
      RunTracks(map[], key, [], start, attempts, maxEvents, window);
      assert [] + log == log;
      SpacedCount(log, t, maxEvents, window);
    } else {
      NothingAccepted(map[], attempts, key, t, maxEvents, window);
    }
  }

  /** An attempt is refused only when the limit is used up inside the closed window before it. */
  lemma RefusedOnlyWhenFull(attempts: Attempts, start: real, key: string, now: real, maxEvents: int, window: real)
    requires Ordered(attempts, start) && EndTime(attempts, start) <= now
    requires CheckStep(After(map[], attempts, maxEvents, window), key, now, maxEvents, window).1.Refused?
    ensures var log := AcceptedTimes(map[], attempts, key, maxEvents, window);
            && |log| >= maxEvents > 0
            && forall i :: |log| - maxEvents <= i < |log| ==> now - window <= log[i] <= now
  {
    hide Tracks, DropOld;
    var log := AcceptedTimes(map[], attempts, key, maxEvents, window);
    var t := After(map[], attempts, maxEvents, window);
    if maxEvents <= 0 {
      NothingAccepted(map[], attempts, key, now, maxEvents, window);
      return;
    }
    EmptyTracks(start, maxEvents, window);
    RunTracks(map[], key, [], start, attempts, maxEvents, window);
    assert [] + log == log;
    DropOldTracks(log, Bucket(t, key), EndTime(attempts, start), now, maxEvents, window);
    DropOldHead(Bucket(t, key), now, window);
    FullBucket(log, DropOld(Bucket(t, key), now, window), now, maxEvents, window);
  }

  lemma EmptyTracks(now: real, maxEvents: nat, window: real)
    ensures Tracks([], [], now, maxEvents, window)
  {
  }

  lemma FullBucket(log: seq<real>, bucket: seq<real>, now: real, maxEvents: nat, window: real)
    requires Tracks(log, bucket, now, maxEvents, window)
    requires |bucket| >= maxEvents > 0 && now - bucket[0] <= window
    ensures |log| >= maxEvents && forall i :: |log| - maxEvents <= i < |log| ==> now - window <= log[i] <= now
  {
    assert log[|log| - maxEvents] == bucket[0];
  }

  lemma {:induction false} DropOldHead(bucket: seq<real>, now: real, window: real)
    ensures var rest := DropOld(bucket, now, window); rest != [] ==> now - rest[0] <= window
  {
    if bucket != [] && now - bucket[0] > window {
      DropOldHead(bucket[1..], now, window);
    }
  }

  // --- Waiting as told --------------------------------------------------------------------

  predicate Avoids(attempts: Attempts, key: string) {
    forall i :: 0 <= i < |attempts| ==> attempts[i].0 != key
  }

  /** Attempts on other keys leave a bucket as it is or drop it whole. */
  lemma {:induction false} OthersLeaveBucket(t: Table, key: string, others: Attempts, maxEvents: nat, window: real)
    requires maxEvents > 0 && Avoids(others, key)
    ensures var b := Bucket(After(t, others, maxEvents, window), key);
            b == Bucket(t, key) || b == []
    decreases |others|
  {
    if others != [] {
      assert Avoids(others[1..], key) by {
        assert forall i :: 0 <= i < |others[1..]| ==> others[1..][i] == others[i + 1];
      }
      var t' := CheckStep(t, others[0].0, others[0].1, maxEvents, window).0;
      assert Bucket(t', key) == Bucket(t, key) || Bucket(t', key) == [];
      OthersLeaveBucket(t', key, others[1..], maxEvents, window);
    }
  }

  /** A refusal leaves exactly maxEvents events, the oldest of which the wait outlasts. */
  lemma RefusedBucket(before: Attempts, start: real, key: string, now: real, later: real, maxEvents: nat, window: real)
    requires maxEvents > 0 && Ordered(before, start) && EndTime(before, start) <= now
    requires var r := CheckStep(After(map[], before, maxEvents, window), key, now, maxEvents, window).1;
             r.Refused? && later >= now + r.retryAfterSeconds as real
    ensures var refused := CheckStep(After(map[], before, maxEvents, window), key, now, maxEvents, window).0;
            var bucket := Bucket(refused, key);
            |bucket| == maxEvents && later - bucket[0] > window
  {
    hide Tracks, After, DropOld, Pruned;
    var t := After(map[], before, maxEvents, window);
    assert Tracks([], Bucket(map[], key), start, maxEvents, window) by { EmptyTracks(start, maxEvents, window); }
    RunTracks(map[], key, [], start, before, maxEvents, window);
    var log := [] + AcceptedTimes(map[], before, key, maxEvents, window);
    DropOldTracks(log, Bucket(t, key), EndTime(before, start), now, maxEvents, window);
    TracksLength(log, DropOld(Bucket(t, key), now, window), now, maxEvents, window);
  }

  lemma TracksLength(log: seq<real>, bucket: seq<real>, now: real, maxEvents: nat, window: real)
    requires Tracks(log, bucket, now, maxEvents, window)
    ensures |bucket| <= maxEvents
  {
  }

  /** An attempt is accepted when the oldest of at most maxEvents events has left the window. */
  lemma RoomLater(t: Table, key: string, later: real, maxEvents: nat, window: real)
    requires maxEvents > 0
    requires var b := Bucket(t, key); b == [] || (|b| <= maxEvents && later - b[0] > window)
    ensures CheckStep(t, key, later, maxEvents, window).1 == Accepted
  {
    hide Pruned;
    var b := Bucket(t, key);
    if b != [] {
      DropOldShorter(b[1..], later, window);
    }
  }

  /** Whoever waits the reported number of seconds, without another attempt on that key,
      is accepted, whatever the other keys do meanwhile. */
  lemma WaitingHelps(before: Attempts, start: real, key: string, now: real, others: Attempts, later: real,
                     maxEvents: int, window: real)
    requires Ordered(before, start) && EndTime(before, start) <= now
    requires Avoids(others, key)
    requires CheckStep(After(map[], before, maxEvents, window), key, now, maxEvents, window).1.Refused?
    requires var r := CheckStep(After(map[], before, maxEvents, window), key, now, maxEvents, window).1;
             later >= now + r.retryAfterSeconds as real
    ensures var refused := CheckStep(After(map[], before, maxEvents, window), key, now, maxEvents, window).0;
            CheckStep(After(refused, others, maxEvents, window), key, later, maxEvents, window).1 == Accepted
  {
    if maxEvents <= 0 {
      NothingAccepted(map[], before, key, now, maxEvents, window);
      return;
    }
    hide CheckStep, After, Bucket;
    var t := After(map[], before, maxEvents, window);
    var refused := CheckStep(t, key, now, maxEvents, window).0;
    RefusedBucket(before, start, key, now, later, maxEvents, window);
    OthersLeaveBucket(refused, key, others, maxEvents, window);
    RoomLater(After(refused, others, maxEvents, window), key, later, maxEvents, window);
  }

  /** A refusal leaves a full bucket, and the wait is what is left of the oldest event's window in whole seconds, rounded
      up past it. */
  lemma RefusedWait(before: Attempts, start: real, key: string, now: real, maxEvents: nat, window: real)
    requires maxEvents > 0 && Ordered(before, start) && EndTime(before, start) <= now
    requires CheckStep(After(map[], before, maxEvents, window), key, now, maxEvents, window).1.Refused?
    ensures var (refused, r) := CheckStep(After(map[], before, maxEvents, window), key, now, maxEvents, window);
            var b := Bucket(refused, key);
            && |b| == maxEvents && b[0] <= b[|b| - 1]
            && (r.retryAfterSeconds - 1) as real <= window - (now - b[0]) < r.retryAfterSeconds as real
  {
    hide Tracks, After, DropOld, Pruned;
    var t := After(map[], before, maxEvents, window);
    assert Tracks([], Bucket(map[], key), start, maxEvents, window) by { EmptyTracks(start, maxEvents, window); }
    RunTracks(map[], key, [], start, before, maxEvents, window);
    var log := [] + AcceptedTimes(map[], before, key, maxEvents, window);
    DropOldTracks(log, Bucket(t, key), EndTime(before, start), now, maxEvents, window);
    TracksLength(log, DropOld(Bucket(t, key), now, window), now, maxEvents, window);
    TracksEnds(log, DropOld(Bucket(t, key), now, window), now, maxEvents, window);
  }

  lemma TracksEnds(log: seq<real>, bucket: seq<real>, now: real, maxEvents: nat, window: real)
    requires Tracks(log, bucket, now, maxEvents, window) && bucket != []
    ensures bucket[0] <= bucket[|bucket| - 1]
  {
    assert bucket[0] == log[|log| - |bucket|] && bucket[|bucket| - 1] == log[|log| - 1];
  }

  /** Attempts on other keys leave a bucket as it is while its newest event is younger than the window. */
  lemma {:induction false} YoungBucketStays(
    t: Table, key: string, now: real, others: Attempts, later: real, maxEvents: int, window: real)
    requires Avoids(others, key) && Ordered(others, now) && EndTime(others, now) <= later
    requires Bucket(t, key) != [] && Bucket(t, key)[|Bucket(t, key)| - 1] > later - window
    ensures Bucket(After(t, others, maxEvents, window), key) == Bucket(t, key)
    decreases |others|
  {
    hide DropOld;
    if others != [] {
      assert Avoids(others[1..], key) by {
        assert forall i :: 0 <= i < |others[1..]| ==> others[1..][i] == others[i + 1];
      }
      EndLater(others, now);
      var t' := CheckStep(t, others[0].0, others[0].1, maxEvents, window).0;
      assert !Stale(Bucket(t, key), others[0].1 - window);
      assert Bucket(t', key) == Bucket(t, key);
      YoungBucketStays(t', key, others[0].1, others[1..], later, maxEvents, window);
    }
  }

  lemma {:induction false} EndLater(attempts: Attempts, from: real)
    requires attempts != [] && Ordered(attempts, from)
    ensures attempts[0].1 <= EndTime(attempts, from) == EndTime(attempts[1..], attempts[0].1)
    decreases |attempts|
  {
    if |attempts| > 1 {
      EndLater(attempts[1..], attempts[0].1);
    }
  }

  /** Whoever waits less than the reported seconds, rounded down to the second before, is refused again, whatever the
      other keys do meanwhile; without any of them also at that very second. */
  lemma ShorterWaitRefused(before: Attempts, start: real, key: string, now: real, others: Attempts, later: real,
                           maxEvents: int, window: real)
    requires Ordered(before, start) && EndTime(before, start) <= now
    requires Avoids(others, key) && Ordered(others, now) && EndTime(others, now) <= later
    requires CheckStep(After(map[], before, maxEvents, window), key, now, maxEvents, window).1.Refused?
    requires var end := now
               + (CheckStep(After(map[], before, maxEvents, window), key, now, maxEvents, window).1.retryAfterSeconds
                  - 1) as real;
             later < end || (others == [] && later == end)
    ensures var refused := CheckStep(After(map[], before, maxEvents, window), key, now, maxEvents, window).0;
            CheckStep(After(refused, others, maxEvents, window), key, later, maxEvents, window).1.Refused?
  {
    if maxEvents <= 0 {
      NothingAccepted(map[], before, key, now, maxEvents, window);
      return;
    }
    hide CheckStep, After;
    var refused := CheckStep(After(map[], before, maxEvents, window), key, now, maxEvents, window).0;
    RefusedWait(before, start, key, now, maxEvents, window);
    if others == [] {
      NoAttempts(refused, maxEvents, window);
    } else {
      YoungBucketStays(refused, key, now, others, later, maxEvents, window);
    }
    StillFull(After(refused, others, maxEvents, window), key, later, maxEvents, window);
  }

  lemma NoAttempts(t: Table, maxEvents: int, window: real)
    ensures After(t, [], maxEvents, window) == t
  {
  }

  lemma StillFull(t: Table, key: string, later: real, maxEvents: nat, window: real)
    requires maxEvents > 0 && |Bucket(t, key)| == maxEvents && later - Bucket(t, key)[0] <= window
    ensures CheckStep(t, key, later, maxEvents, window).1.Refused?
  {
  }

  lemma {:induction false} DropOldShorter(bucket: seq<real>, now: real, window: real)
    ensures |DropOld(bucket, now, window)| <= |bucket|
  {
    if bucket != [] {
      DropOldShorter(bucket[1..], now, window);
    }
  }

  // --- The answers with and without pruning ----------------------------------------------

  function Answers(t: Table, attempts: Attempts, maxEvents: int, window: real): seq<Outcome>
    decreases |attempts|
  {
    if attempts == [] then []
    else
      var (t', r) := CheckStep(t, attempts[0].0, attempts[0].1, maxEvents, window);
      [r] + Answers(t', attempts[1..], maxEvents, window)
  }

  /** The answers of a limiter that never prunes. */
  function PlainAnswers(t: Table, attempts: Attempts, maxEvents: int, window: real): seq<Outcome>
    decreases |attempts|
  {
    if attempts == [] then []
    else
      var (t', r) := RecordStep(t, attempts[0].0, attempts[0].1, maxEvents, window);
      [r] + PlainAnswers(t', attempts[1..], maxEvents, window)
  }

  /** No attempt comes exactly one window after an earlier one on its key. */
  ghost predicate NoneAtTheEdge(attempts: Attempts, window: real) {
    forall i, j :: 0 <= i < j < |attempts| && attempts[i].0 == attempts[j].0
      ==> attempts[j].1 - attempts[i].1 != window
  }

  /** A bucket of times of past attempts, in order. */
  ghost predicate Recorded(bucket: seq<real>, key: string, past: Attempts, now: real) {
    && Increasing(bucket)
    && forall e :: e in bucket ==> e <= now && (key, e) in past
  }

  /** The pruned table's bucket is the other's, or gone when that one has no event younger
      than the window. */
  ghost predicate Alike(pruned: seq<real>, plain: seq<real>, now: real, window: real) {
    pruned == plain || (pruned == [] && forall e :: e in plain ==> e <= now - window)
  }

  ghost predicate AllAlike(t: Table, u: Table, past: Attempts, now: real, window: real) {
    forall k :: Alike(Bucket(t, k), Bucket(u, k), now, window) && Recorded(Bucket(u, k), k, past, now)
  }

  lemma {:induction false} DropOldRecorded(bucket: seq<real>, key: string, past: Attempts, now: real, later: real, window: real)
    requires Recorded(bucket, key, past, now) && now <= later
    ensures Recorded(DropOld(bucket, later, window), key, past, later)
  {
    if bucket != [] && later - bucket[0] > window {
      RecordedTail(bucket, key, past, now);
      DropOldRecorded(bucket[1..], key, past, now, later, window);
    }
  }

  lemma RecordedTail(bucket: seq<real>, key: string, past: Attempts, now: real)
    requires bucket != [] && Recorded(bucket, key, past, now)
    ensures Recorded(bucket[1..], key, past, now)
  {
    assert forall i :: 0 <= i < |bucket[1..]| ==> bucket[1..][i] == bucket[i + 1];
    assert forall e :: e in bucket[1..] ==> e in bucket;
  }

  lemma {:induction false} AllOld(bucket: seq<real>, now: real, window: real)
    requires forall e :: e in bucket ==> e < now - window
    ensures DropOld(bucket, now, window) == []
  {
    if bucket != [] {
      assert bucket[0] in bucket && forall e :: e in bucket[1..] ==> e in bucket;
      AllOld(bucket[1..], now, window);
    }
  }

  /** Where no attempt is at the edge, both buckets look the same to the next attempt. */
  lemma DropOldAlike(pruned: seq<real>, plain: seq<real>, past: Attempts, now: real, att: (string, real), window: real)
    requires Alike(pruned, plain, now, window) && Recorded(plain, att.0, past, now)
    requires now <= att.1 && NoneAtTheEdge(past + [att], window)
    ensures DropOld(pruned, att.1, window) == DropOld(plain, att.1, window)
  {
    if pruned != plain {
      forall e | e in plain ensures e < att.1 - window {
        var i :| 0 <= i < |past| && past[i] == (att.0, e);
        assert (past + [att])[i] == past[i] && (past + [att])[|past|] == att;
      }
      AllOld(plain, att.1, window);
    }
  }

  /** Pruning drops only buckets without an event younger than the window. */
  lemma PrunedAlike(t: Table, key: string, past: Attempts, now: real, window: real)
    requires Recorded(Bucket(t, key), key, past, now)
    ensures Alike(Bucket(Pruned(t, now - window), key), Bucket(t, key), now, window)
  {
    var b := Bucket(t, key);
    if b != [] && Stale(b, now - window) {
      forall e | e in b ensures e <= now - window {
        var i :| 0 <= i < |b| && b[i] == e;
        assert b[i] <= b[|b| - 1];
      }
    }
  }

  lemma PrunedOnce(t: Table, key: string, cutoff: real)
    ensures Bucket(Pruned(t, cutoff), key) == Bucket(t, key) || Bucket(Pruned(t, cutoff), key) == []
  {
  }

  lemma RecordedOn(bucket: seq<real>, key: string, past: Attempts, now: real, att: (string, real))
    requires Recorded(bucket, key, past, now) && now <= att.1
    ensures Recorded(bucket, key, past + [att], att.1)
    ensures key == att.0 ==> Recorded(bucket + [att.1], key, past + [att], att.1)
  {
    assert att in past + [att];
    assert forall i :: 0 <= i < |bucket| ==> bucket[i] in bucket;
  }

  /** One attempt: the same answer, and tables that stay alike. */
  lemma StepAlike(t: Table, u: Table, past: Attempts, now: real, att: (string, real), maxEvents: int, window: real)
    requires AllAlike(t, u, past, now, window) && now <= att.1 && NoneAtTheEdge(past + [att], window)
    ensures var (t', r) := CheckStep(t, att.0, att.1, maxEvents, window);
            var (u', r') := RecordStep(u, att.0, att.1, maxEvents, window);
            r == r' && AllAlike(t', u', past + [att], att.1, window)
  {
    hide Recorded, NoneAtTheEdge, DropOld, Pruned;
    var (t0, r0) := RecordStep(t, att.0, att.1, maxEvents, window);
    var t' := CheckStep(t, att.0, att.1, maxEvents, window).0;
    var u' := RecordStep(u, att.0, att.1, maxEvents, window).0;
    DropOldAlike(Bucket(t, att.0), Bucket(u, att.0), past, now, att, window);
    forall k ensures Alike(Bucket(t', k), Bucket(u', k), att.1, window)
                  && Recorded(Bucket(u', k), k, past + [att], att.1) {
      RecordedOn(Bucket(u, k), k, past, now, att);
      DropOldRecorded(Bucket(u, att.0), att.0, past, now, att.1, window);
      RecordedOn(DropOld(Bucket(u, att.0), att.1, window), att.0, past, att.1, att);
      PrunedOnce(t0, k, att.1 - window);
      assert Alike(Bucket(t0, k), Bucket(u', k), att.1, window);
      if Bucket(t0, k) == Bucket(u', k) {
        PrunedAlike(t0, k, past + [att], att.1, window);
      }
    }
  }

  lemma {:induction false} RunAlike(
    t: Table, u: Table, past: Attempts, now: real, attempts: Attempts, maxEvents: int, window: real)
    requires AllAlike(t, u, past, now, window) && Ordered(attempts, now) && NoneAtTheEdge(past + attempts, window)
    ensures Answers(t, attempts, maxEvents, window) == PlainAnswers(u, attempts, maxEvents, window)
    decreases |attempts|
  {
    hide AllAlike, NoneAtTheEdge, CheckStep, RecordStep;
    if attempts != [] {
      var att := attempts[0];
      assert past + attempts == past + [att] + attempts[1..];
      EarlierAtTheEdge(past + [att], attempts[1..], window);
      StepAlike(t, u, past, now, att, maxEvents, window);
      RunAlike(CheckStep(t, att.0, att.1, maxEvents, window).0, RecordStep(u, att.0, att.1, maxEvents, window).0,
               past + [att], att.1, attempts[1..], maxEvents, window);
    }
  }

  lemma EarlierAtTheEdge(before: Attempts, after: Attempts, window: real)
    requires NoneAtTheEdge(before + after, window)
    ensures NoneAtTheEdge(before, window)
  {
    forall i, j | 0 <= i < j < |before| && before[i].0 == before[j].0 ensures before[j].1 - before[i].1 != window {
      assert (before + after)[i] == before[i] && (before + after)[j] == before[j];
    }
  }

  /** Over any run in which no attempt comes exactly one window after an earlier one on its
      key, dropping the stale keys changes no answer. */
  lemma PruningUnobservable(attempts: Attempts, start: real, maxEvents: int, window: real)
    requires Ordered(attempts, start) && NoneAtTheEdge(attempts, window)
    ensures Answers(map[], attempts, maxEvents, window) == PlainAnswers(map[], attempts, maxEvents, window)
  {
    assert [] + attempts == attempts;
    RunAlike(map[], map[], [], start, attempts, maxEvents, window);
  }

  // --- A run in which the pruning shows --------------------------------------------------

  function Key(i: nat): string {
    seq(i, _ => 'a')
  }

  function KeysBelow(n: nat): (keys: set<string>)
    ensures |keys| == n
    ensures forall k :: k in keys <==> exists i: nat :: i < n && k == Key(i)
  {
    if n == 0 then {}
    else
      var keys := KeysBelow(n - 1);
      assert forall i: nat :: |Key(i)| == i;
      assert Key(n - 1) !in keys;
      keys + {Key(n - 1)}
  }

  /** One attempt each of the keys from *i* on, and then the first key again, all at one time. */
  function OthersThenFirst(i: nat, at: real): Attempts
    decreases TABLE_LIMIT + 1 - i
  {
    if i > TABLE_LIMIT then [(Key(0), at)] else [(Key(i), at)] + OthersThenFirst(i + 1, at)
  }

  /** The first key uses up what is left of its limit at time zero; one window later come the
      others and the first key again. */
  function EdgeRun(left: nat, window: real): Attempts {
    if left == 0 then OthersThenFirst(1, window) else [(Key(0), 0.0)] + EdgeRun(left - 1, window)
  }

  function Filled(n: nat): seq<real> {
    seq(n, _ => 0.0)
  }

  /** The first key is full; the keys from 1 to *i* - 1 were used one window later. */
  ghost predicate Filling(t: Table, i: nat, n: nat, window: real) {
    && t.Keys == KeysBelow(i)
    && Key(0) in t && t[Key(0)] == Filled(n)
    && forall j: nat :: 0 < j < i ==> t[Key(j)] == [window]
  }

  lemma FillOne(t: Table, i: nat, n: nat, window: real)
    requires 0 < i && Filling(t, i, n, window) && n > 0
    ensures RecordStep(t, Key(i), window, n, window) == (t[Key(i) := [window]], Accepted)
    ensures Filling(t[Key(i) := [window]], i + 1, n, window)
    ensures |t[Key(i) := [window]]| == i + 1
  {
    hide Key, KeysBelow, Filled;
    KeysDiffer(i);
    var t' := t[Key(i) := [window]];
    assert t'.Keys == KeysBelow(i + 1);
    assert |t'| == |t'.Keys|;
    assert [] + [window] == [window];
  }

  lemma KeysDiffer(i: nat)
    ensures Key(i) !in KeysBelow(i) && KeysBelow(i + 1) == KeysBelow(i) + {Key(i)}
    ensures forall j: nat :: Key(j) == Key(i) ==> j == i
  {
    assert forall j: nat :: |Key(j)| == j;
  }

  lemma FullStays(n: nat, window: real)
    requires n > 0
    ensures DropOld(Filled(n), window, window) == Filled(n)
  {
  }

  lemma {:induction false} PlainRefuses(t: Table, i: nat, n: nat, window: real)
    requires n > 0 && window > 0.0 && 0 < i <= TABLE_LIMIT + 1 && Filling(t, i, n, window)
    ensures var rs := PlainAnswers(t, OthersThenFirst(i, window), n, window); rs != [] && rs[|rs| - 1] == Refused(1)
    decreases TABLE_LIMIT + 1 - i
  {
    hide RecordStep, Filling;
    if i <= TABLE_LIMIT {
      FillOne(t, i, n, window);
      assert ([(Key(i), window)] + OthersThenFirst(i + 1, window))[1..] == OthersThenFirst(i + 1, window);
      PlainRefuses(t[Key(i) := [window]], i + 1, n, window);
    } else {
      FirstRefused(t, i, n, window);
    }
  }

  lemma FirstRefused(t: Table, i: nat, n: nat, window: real)
    requires n > 0 && Filling(t, i, n, window)
    ensures RecordStep(t, Key(0), window, n, window).1 == Refused(1)
  {
    FullStays(n, window);
    assert (window - (window - 0.0)).Floor == 0;
  }

  lemma {:induction false} PrunedAccepts(t: Table, i: nat, n: nat, window: real)
    requires n > 0 && window > 0.0 && 0 < i <= TABLE_LIMIT && Filling(t, i, n, window)
    ensures var rs := Answers(t, OthersThenFirst(i, window), n, window); rs != [] && rs[|rs| - 1] == Accepted
    decreases TABLE_LIMIT + 1 - i
  {
    hide RecordStep, Filling, Stale, Bucket;
    FillOne(t, i, n, window);
    var t' := t[Key(i) := [window]];
    assert ([(Key(i), window)] + OthersThenFirst(i + 1, window))[1..] == OthersThenFirst(i + 1, window);
    if i < TABLE_LIMIT {
      PrunedAccepts(t', i + 1, n, window);
    } else {
      FirstForgotten(t', n, window);
      LastAnswer(Pruned(t', window - window), n, window);
    }
  }

  lemma FirstForgotten(t: Table, n: nat, window: real)
    requires n > 0 && window > 0.0 && |t| > TABLE_LIMIT && Filling(t, TABLE_LIMIT + 1, n, window)
    ensures RecordStep(Pruned(t, window - window), Key(0), window, n, window).1 == Accepted
  {
    assert Filled(n)[n - 1] == 0.0;
    assert Key(0) !in Pruned(t, window - window);
  }

  lemma LastAnswer(t: Table, n: nat, window: real)
    ensures Answers(t, OthersThenFirst(TABLE_LIMIT + 1, window), n, window)
         == [CheckStep(t, Key(0), window, n, window).1]
  {
    hide CheckStep;
    var last := (Key(0), window);
    assert [last][1..] == [];
  }

  /** The table after the first key has used up *m* of its limit. */
  function FirstOnly(m: nat): Table {
    if m == 0 then map[] else map[Key(0) := Filled(m)]
  }

  lemma FirstAgain(m: nat, n: nat, window: real)
    requires m < n && window > 0.0
    ensures RecordStep(FirstOnly(m), Key(0), 0.0, n, window) == (FirstOnly(m + 1), Accepted)
    ensures CheckStep(FirstOnly(m), Key(0), 0.0, n, window) == (FirstOnly(m + 1), Accepted)
  {
    var bucket := Bucket(FirstOnly(m), Key(0));
    assert bucket == Filled(m) && DropOld(bucket, 0.0, window) == bucket;
    assert bucket + [0.0] == Filled(m + 1);
    assert FirstOnly(m)[Key(0) := Filled(m + 1)] == FirstOnly(m + 1);
    assert |FirstOnly(m + 1)| == 1;
  }

  lemma {:induction false} FillFirst(left: nat, n: nat, window: real)
    requires left <= n && n > 0 && window > 0.0
    ensures var t, run := FirstOnly(n - left), EdgeRun(left, window);
            var pruned, plain := Answers(t, run, n, window), PlainAnswers(t, run, n, window);
            && pruned != [] && pruned[|pruned| - 1] == Accepted
            && plain != [] && plain[|plain| - 1] == Refused(1)
  {
    hide OthersThenFirst, RecordStep, CheckStep, FirstOnly;
    if left == 0 {
      FirstFull(n, window);
      PrunedAccepts(FirstOnly(n), 1, n, window);
      PlainRefuses(FirstOnly(n), 1, n, window);
    } else {
      assert ([(Key(0), 0.0)] + EdgeRun(left - 1, window))[1..] == EdgeRun(left - 1, window);
      FirstAgain(n - left, n, window);
      FillFirst(left - 1, n, window);
    }
  }

  lemma FirstFull(n: nat, window: real)
    requires n > 0
    ensures Filling(FirstOnly(n), 1, n, window)
  {
    assert FirstOnly(n).Keys == KeysBelow(1);
  }

  /** A key that is full exactly one window after its events is refused without pruning, and
      accepted when the 1024 other keys of that moment make the table drop it. */
  lemma PruningShows(n: nat, window: real)
    requires n > 0 && window > 0.0
    ensures var run := EdgeRun(n, window);
            var pruned, plain := Answers(map[], run, n, window), PlainAnswers(map[], run, n, window);
            && Ordered(run, 0.0) && pruned != [] && pruned[|pruned| - 1] == Accepted
            && plain != [] && plain[|plain| - 1] == Refused(1)
  {
    hide Answers, PlainAnswers, EdgeRun;
    FillFirst(n, n, window);
    EdgeRunOrdered(n, window);
  }

  lemma {:induction false} EdgeRunOrdered(left: nat, window: real)
    requires window > 0.0
    ensures Ordered(EdgeRun(left, window), 0.0)
  {
    if left == 0 {
      OthersOrdered(1, window, 0.0);
    } else {
      assert ([(Key(0), 0.0)] + EdgeRun(left - 1, window))[1..] == EdgeRun(left - 1, window);
      EdgeRunOrdered(left - 1, window);
    }
  }

  lemma {:induction false} OthersOrdered(i: nat, at: real, from: real)
    requires from <= at
    ensures Ordered(OthersThenFirst(i, at), from)
    decreases TABLE_LIMIT + 1 - i
  {
    if i <= TABLE_LIMIT {
      assert ([(Key(i), at)] + OthersThenFirst(i + 1, at))[1..] == OthersThenFirst(i + 1, at);
      OthersOrdered(i + 1, at, at);
    }
  }
}
