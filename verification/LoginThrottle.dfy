/** The login throttle (backend/samadcon/auth/session.py). Times are in microseconds. */
module LoginThrottle {
  import opened Text

  datatype Entry = Entry(count: nat, last: int)

  type Failures = map<string, Entry>

  datatype Limits = Limits(maxAttempts: int, lockout: int) {
    predicate Enabled() {
      maxAttempts > 0 && lockout > 0
    }
  }

  /** More keys than this and the expired ones are dropped. */
  const TABLE_LIMIT := 4096

  const SECOND := 1000000

  datatype Login = Login(username: string, clientIp: Option<string>)

  /** An account and an address are counted separately. */
  function Keys(login: Login): (keys: seq<string>)
    ensures 1 <= |keys| <= 2 && (|keys| == 2 ==> keys[0] != keys[1])
  {
    var user := "user:" + Lower(login.username);
    if login.clientIp.Some? && login.clientIp.value != "" then
      var ip := "ip:" + login.clientIp.value;
      assert user[0] == 'u' && ip[0] == 'i';
      [user, ip]
    else [user]
  }

  predicate Expired(e: Entry, now: int, l: Limits) {
    now - e.last > l.lockout
  }

  /** The table after looking at the keys in turn, and the wait when one of them blocks. */
  function CheckKeys(f: Failures, keys: seq<string>, now: int, l: Limits): (Failures, Option<int>) {
    if keys == [] then (f, None)
    else if keys[0] !in f then CheckKeys(f, keys[1..], now, l)
    else if Expired(f[keys[0]], now, l) then CheckKeys(f - {keys[0]}, keys[1..], now, l)
    else if f[keys[0]].count >= l.maxAttempts then
      var remaining := (l.lockout - (now - f[keys[0]].last)) / SECOND;
      (f, Some(if remaining > 1 then remaining else 1))
    else CheckKeys(f, keys[1..], now, l)
  }

  function CheckStep(f: Failures, login: Login, now: int, l: Limits): (Failures, Option<int>) {
    if !l.Enabled() then (f, None) else CheckKeys(f, Keys(login), now, l)
  }

  function Failed(f: Failures, key: string, now: int, l: Limits): Failures {
    var count := if key in f && !Expired(f[key], now, l) then f[key].count else 0;
    f[key := Entry(count + 1, now)]
  }

  function RecordKeys(f: Failures, keys: seq<string>, now: int, l: Limits): Failures
    decreases |keys|
  {
    if keys == [] then f else RecordKeys(Failed(f, keys[0], now, l), keys[1..], now, l)
  }

  function Pruned(f: Failures, now: int, l: Limits): Failures {
    if |f| <= TABLE_LIMIT then f else map k | k in f && !Expired(f[k], now, l) :: f[k]
  }

  function FailureStep(f: Failures, login: Login, now: int, l: Limits, prune: bool): Failures {
    if !l.Enabled() then f
    else
      var f' := RecordKeys(f, Keys(login), now, l);
      if prune then Pruned(f', now, l) else f'
  }

  function SuccessStep(f: Failures, login: Login): Failures {
    f - (set k | k in Keys(login))
  }

  class Throttle {
    const limits: Limits
    var failures: Failures

    constructor (limits: Limits)
      ensures this.limits == limits && failures == map[]
    {
      this.limits := limits;
      this.failures := map[];
    }

    /** The wait in seconds when the sign-in may not be tried. */
    method Check(login: Login, now: int) returns (retryAfter: Option<int>)
      modifies this`failures
      ensures (failures, retryAfter) == CheckStep(old(failures), login, now, limits)
    {
      if !limits.Enabled() {
        return None;
      }
      var keys := Keys(login);
      assert keys[0..] == keys;
      for i := 0 to |keys|
        invariant CheckKeys(failures, keys[i..], now, limits) == CheckKeys(old(failures), keys, now, limits)
      {
        assert keys[i..][1..] == keys[i + 1..];
        var key := keys[i];
        if key !in failures {
          continue;
        }
        var entry := failures[key];
        if now - entry.last > limits.lockout {
          failures := failures - {key};
          continue;
        }
        if entry.count >= limits.maxAttempts {
          var remaining := (limits.lockout - (now - entry.last)) / SECOND;
          return Some(if remaining > 1 then remaining else 1);
        }
      }
      return None;
    }

    method RecordFailure(login: Login, now: int)
      modifies this`failures
      ensures failures == FailureStep(old(failures), login, now, limits, true)
    {
      if !limits.Enabled() {
        return;
      }
      var keys := Keys(login);
      assert keys[0..] == keys;
      for i := 0 to |keys|
        invariant RecordKeys(failures, keys[i..], now, limits) == RecordKeys(old(failures), keys, now, limits)
      {
        assert keys[i..][1..] == keys[i + 1..];
        var key := keys[i];
        var count, last := 0, now;
        if key in failures {
          count, last := failures[key].count, failures[key].last;
        }
        if now - last > limits.lockout {
          count := 0;
        }
        failures := failures[key := Entry(count + 1, now)];
      }
      Prune(now);
    }

    method Prune(now: int)
      modifies this`failures
      ensures failures == Pruned(old(failures), now, limits)
    {
      if |failures| <= TABLE_LIMIT {
        return;
      }
      failures := map k | k in failures && !Expired(failures[k], now, limits) :: failures[k];
    }

    method RecordSuccess(login: Login)
      modifies this`failures
      ensures failures == SuccessStep(old(failures), login)
    {
      var keys := Keys(login);
      for i := 0 to |keys|
        invariant failures == old(failures) - (set k | k in keys[..i])
      {
        assert keys[..i + 1] == keys[..i] + [keys[i]];
        failures := failures - {keys[i]};
      }
      assert keys[..|keys|] == keys;
    }
  }

  // --- One key at a time ------------------------------------------------------------------

  function Count(f: Failures, key: string): nat {
    if key in f then f[key].count else 0
  }

  /** A check that lets the sign-in through has found every key of it below the limit. */
  lemma {:induction false} CheckPasses(f: Failures, keys: seq<string>, now: int, l: Limits)
    requires CheckKeys(f, keys, now, l).1 == None
    ensures forall k :: k in keys ==> Count(CheckKeys(f, keys, now, l).0, k) < l.maxAttempts || l.maxAttempts <= 0
    decreases |keys|
  {
    if keys != [] {
      var f' := if keys[0] in f && Expired(f[keys[0]], now, l) then f - {keys[0]} else f;
      CheckPasses(f', keys[1..], now, l);
      CheckOnlyDrops(f', keys[1..], now, l);
    }
  }

  /** Checking adds nothing and changes no entry; what it drops has expired. */
  lemma {:induction false} CheckOnlyDrops(f: Failures, keys: seq<string>, now: int, l: Limits)
    ensures var f' := CheckKeys(f, keys, now, l).0;
            && (forall k :: k in f' ==> k in f && f'[k] == f[k])
            && (forall k :: k in f && k !in f' ==> k in keys && Expired(f[k], now, l))
    decreases |keys|
  {
    if keys != [] {
      var f' := if keys[0] in f && Expired(f[keys[0]], now, l) then f - {keys[0]} else f;
      CheckOnlyDrops(f', keys[1..], now, l);
    }
  }

  lemma {:induction false} RecordAt(f: Failures, keys: seq<string>, now: int, l: Limits, k: string)
    requires forall i, j :: 0 <= i < j < |keys| ==> keys[i] != keys[j]
    ensures var f' := RecordKeys(f, keys, now, l);
            && f'.Keys == f.Keys + (set x | x in keys)
            && (k in keys ==> f'[k] == Failed(f, k, now, l)[k])
            && (k in f && k !in keys ==> f'[k] == f[k])
    decreases |keys|
  {
    if keys != [] {
      assert forall i :: 0 <= i < |keys[1..]| ==> keys[1..][i] == keys[i + 1];
      RecordAt(Failed(f, keys[0], now, l), keys[1..], now, l, k);
    }
  }

  lemma FailureAt(f: Failures, login: Login, now: int, l: Limits, prune: bool, k: string)
    requires l.Enabled()
    ensures var f' := FailureStep(f, login, now, l, prune);
            && (k in Keys(login) ==> k in f' && f'[k] == Failed(f, k, now, l)[k])
            && (k !in Keys(login) && k in f' ==> k in f && f'[k] == f[k])
            && (k !in Keys(login) && k in f && k !in f' ==> prune && Expired(f[k], now, l))
  {
    RecordAt(f, Keys(login), now, l, k);
  }

  // --- Sign-ins in flight ---------------------------------------------------------------------

  /** What can happen: the check of a sign-in, and later its failure, its success, or an end
      that records neither. The number names the sign-in. */
  datatype Event =
    | Begin(id: nat, login: Login, now: int)
    | Fail(id: nat, now: int)
    | Succeed(id: nat)
    | Abandon(id: nat)

  datatype State = State(failures: Failures, inFlight: map<nat, Login>)

  function EventStep(s: State, e: Event, l: Limits): State {
    match e
    case Begin(id, login, now) =>
      var (f, blocked) := CheckStep(s.failures, login, now, l);
      State(f, if blocked == None && id !in s.inFlight then s.inFlight[id := login] else s.inFlight)
    case Fail(id, now) =>
      if id !in s.inFlight then s
      else State(FailureStep(s.failures, s.inFlight[id], now, l, true), s.inFlight - {id})
    case Succeed(id) =>
      if id !in s.inFlight then s
      else State(SuccessStep(s.failures, s.inFlight[id]), s.inFlight - {id})
    case Abandon(id) => State(s.failures, s.inFlight - {id})
  }

  function Flying(s: State, k: string): set<nat> {
    set id | id in s.inFlight && k in Keys(s.inFlight[id])
  }

  /** No failure counter and its sign-ins in flight add up to more. */
  predicate Bounded(s: State, k: string, l: Limits, most: int) {
    Count(s.failures, k) + |Flying(s, k)| <= l.maxAttempts - 1 + most
  }

  lemma BeginBounded(s: State, id: nat, login: Login, now: int, l: Limits, most: nat, k: string)
    requires l.Enabled() && Bounded(s, k, l, most)
    requires |Flying(EventStep(s, Begin(id, login, now), l), k)| <= most
    ensures Bounded(EventStep(s, Begin(id, login, now), l), k, l, most)
  {
    hide CheckKeys;
    var s' := EventStep(s, Begin(id, login, now), l);
    CheckOnlyDrops(s.failures, Keys(login), now, l);
    if s'.inFlight != s.inFlight {
      CheckPasses(s.failures, Keys(login), now, l);
      if k !in Keys(login) {
        assert Flying(s', k) == Flying(s, k);
      }
    }
  }

  lemma FlyingLanded(s: State, e: Event, l: Limits, k: string)
    requires !e.Begin? && e.id in s.inFlight
    ensures Flying(EventStep(s, e, l), k) == Flying(s, k) - {e.id}
    ensures e.id in Flying(s, k) <==> k in Keys(s.inFlight[e.id])
  {
    hide FailureStep, SuccessStep, Keys;
    assert EventStep(s, e, l).inFlight == s.inFlight - {e.id};
  }

  lemma LandBounded(s: State, e: Event, l: Limits, most: nat, k: string)
    requires l.Enabled() && Bounded(s, k, l, most) && most > 0 && !e.Begin?
    ensures Bounded(EventStep(s, e, l), k, l, most)
  {
    hide FailureStep, Keys, Flying;
    var s' := EventStep(s, e, l);
    if e.id in s.inFlight {
      var login := s.inFlight[e.id];
      FlyingLanded(s, e, l, k);
      if e.Fail? {
        FailureAt(s.failures, login, e.now, l, true, k);
      }
    } else {
      assert s'.inFlight == s.inFlight;
    }
  }

  function EventRun(s: State, events: seq<Event>, l: Limits): State
    decreases |events|
  {
    if events == [] then s else EventRun(EventStep(s, events[0], l), events[1..], l)
  }

  /** At no point of the run are more than *most* sign-ins of the key in flight. */
  ghost predicate AtMostInFlight(s: State, events: seq<Event>, l: Limits, k: string, most: nat)
    decreases |events|
  {
    |Flying(s, k)| <= most && (events != [] ==> AtMostInFlight(EventStep(s, events[0], l), events[1..], l, k, most))
  }

  lemma {:induction false} RunBounded(s: State, events: seq<Event>, l: Limits, k: string, most: nat)
    requires l.Enabled() && most > 0 && Bounded(s, k, l, most) && AtMostInFlight(s, events, l, k, most)
    ensures Bounded(EventRun(s, events, l), k, l, most)
    decreases |events|
  {
    hide Bounded, EventStep, Flying;
    if events != [] {
      var next := EventStep(s, events[0], l);
      match events[0] {
        case Begin(id, login, now) => BeginBounded(s, id, login, now, l, most, k);
        case _ => LandBounded(s, events[0], l, most, k);
      }
      RunBounded(next, events[1..], l, k, most);
    }
  }

  /** With the check and the recording as two steps, and at most *most* sign-ins of a key
      between them at any time, its counter never exceeds maxAttempts + most - 1. */
  lemma CounterBound(events: seq<Event>, l: Limits, k: string, most: nat)
    requires l.Enabled() && most > 0 && AtMostInFlight(State(map[], map[]), events, l, k, most)
    ensures Count(EventRun(State(map[], map[]), events, l).failures, k) <= l.maxAttempts + most - 1
  {
    hide EventRun, EventStep;
    assert Flying(State(map[], map[]), k) == {};
    RunBounded(State(map[], map[]), events, l, k, most);
  }

  // --- Pruning cannot be noticed ------------------------------------------------------------------

  datatype Op =
    | CheckOp(login: Login, now: int)
    | FailOp(login: Login, now: int)
    | SuccessOp(login: Login)

  function OpStep(f: Failures, op: Op, l: Limits, prune: bool): (Failures, Option<int>) {
    match op
    case CheckOp(login, now) => CheckStep(f, login, now, l)
    case FailOp(login, now) => (FailureStep(f, login, now, l, prune), None)
    case SuccessOp(login) => (SuccessStep(f, login), None)
  }

  function TimeOf(op: Op, before: int): int {
    if op.SuccessOp? then before else op.now
  }

  ghost predicate Ordered(ops: seq<Op>, from: int)
    decreases |ops|
  {
    ops == [] || (from <= TimeOf(ops[0], from) && Ordered(ops[1..], TimeOf(ops[0], from)))
  }

  /** Every answer the throttle gives over a run. */
  function Answers(f: Failures, ops: seq<Op>, l: Limits, prune: bool): seq<Option<int>>
    decreases |ops|
  {
    if ops == [] then []
    else
      var (f', answer) := OpStep(f, ops[0], l, prune);
      [answer] + Answers(f', ops[1..], l, prune)
  }

  /** One table is the other without some entries that have expired. */
  ghost predicate Thinner(thin: Failures, full: Failures, now: int, l: Limits) {
    && (forall k :: k in thin ==> k in full && thin[k] == full[k])
    && (forall k :: k in full && k !in thin ==> Expired(full[k], now, l))
  }

  lemma {:induction false} ThinCheck(thin: Failures, full: Failures, keys: seq<string>, now: int, l: Limits)
    requires Thinner(thin, full, now, l)
    ensures var (a, x), (b, y) := CheckKeys(thin, keys, now, l), CheckKeys(full, keys, now, l);
            x == y && Thinner(a, b, now, l)
    decreases |keys|
  {
    if keys != [] {
      var k := keys[0];
      var a := if k in thin && Expired(thin[k], now, l) then thin - {k} else thin;
      var b := if k in full && Expired(full[k], now, l) then full - {k} else full;
      ThinCheck(a, b, keys[1..], now, l);
    }
  }

  lemma ThinFailure(thin: Failures, full: Failures, login: Login, now: int, l: Limits)
    requires Thinner(thin, full, now, l)
    ensures Thinner(FailureStep(thin, login, now, l, true), FailureStep(full, login, now, l, false), now, l)
  {
    if l.Enabled() {
      hide FailureStep, Keys;
      var a, b := FailureStep(thin, login, now, l, true), FailureStep(full, login, now, l, false);
      forall k
        ensures k in a ==> k in b && a[k] == b[k]
        ensures k in b && k !in a ==> Expired(b[k], now, l)
      {
        FailureAt(thin, login, now, l, true, k);
        FailureAt(full, login, now, l, false, k);
      }
    }
  }

  lemma {:induction false} ThinRun(thin: Failures, full: Failures, ops: seq<Op>, now: int, l: Limits)
    requires Thinner(thin, full, now, l) && Ordered(ops, now)
    ensures Answers(thin, ops, l, true) == Answers(full, ops, l, false)
    decreases |ops|
  {
    hide FailureStep, CheckKeys;
    if ops != [] {
      var now' := TimeOf(ops[0], now);
      assert Thinner(thin, full, now', l);
      match ops[0] {
        case CheckOp(login, _) => ThinCheck(thin, full, Keys(login), now', l);
        case FailOp(login, _) => ThinFailure(thin, full, login, now', l);
        case SuccessOp(login) =>
      }
      ThinRun(OpStep(thin, ops[0], l, true).0, OpStep(full, ops[0], l, false).0, ops[1..], now', l);
    }
  }

  /** Over any run in time order the throttle answers as one that never prunes. */
  lemma PruningUnobservable(ops: seq<Op>, start: int, l: Limits)
    requires Ordered(ops, start)
    ensures Answers(map[], ops, l, true) == Answers(map[], ops, l, false)
  {
    ThinRun(map[], map[], ops, start, l);
  }

  // --- One sign-in after the other -------------------------------------------------------------------

  /** A whole sign-in: checked at one time, and when let through, over at a later one. */
  datatype SignIn = SignIn(login: Login, checked: int, over: int, ok: bool)

  function SignInStep(f: Failures, x: SignIn, l: Limits): (Failures, bool) {
    var (f', blocked) := CheckStep(f, x.login, x.checked, l);
    if blocked.Some? then (f', false)
    else if x.ok then (SuccessStep(f', x.login), true)
    else (FailureStep(f', x.login, x.over, l, true), true)
  }

  ghost predicate InTurn(run: seq<SignIn>, from: int)
    decreases |run|
  {
    run == [] || (from <= run[0].checked <= run[0].over && InTurn(run[1..], run[0].over))
  }

  /** The failures of a key that reached the domain controller, since its last success. */
  function FailureTimes(f: Failures, run: seq<SignIn>, k: string, l: Limits, since: seq<int>): seq<int>
    decreases |run|
  {
    if run == [] then since
    else
      var x := run[0];
      var (f', tried) := SignInStep(f, x, l);
      FailureTimes(f', run[1..], k, l,
                   if !tried || k !in Keys(x.login) then since else if x.ok then [] else since + [x.over])
  }

  /** Any maxAttempts + 1 failures in a row, with no success among them, span more than the lockout. */
  ghost predicate Spread(times: seq<int>, l: Limits) {
    && (forall i, j :: 0 <= i < j < |times| ==> times[i] <= times[j])
    && forall i, j :: 0 <= i < j && j == i + l.maxAttempts < |times| ==> times[j] - times[i] > l.lockout
  }

  /** The counter stands for the last failures; before those there is a gap of a lockout. */
  ghost predicate Tells(f: Failures, k: string, times: seq<int>, now: int, l: Limits) {
    && Spread(times, l)
    && (forall i :: 0 <= i < |times| ==> times[i] <= now)
    && (if k in f
        then var e := f[k];
             && 0 < e.count <= |times| && e.count <= l.maxAttempts && e.last == times[|times| - 1]
             && (e.count < |times| ==> times[|times| - e.count] - times[|times| - e.count - 1] > l.lockout)
        else times != [] ==> now - times[|times| - 1] > l.lockout)
  }

  lemma TellsLater(f: Failures, k: string, times: seq<int>, now: int, later: int, l: Limits)
    requires Tells(f, k, times, now, l) && now <= later
    ensures Tells(f, k, times, later, l)
  {
  }

  lemma TellsFailure(f: Failures, f': Failures, k: string, times: seq<int>, now: int, l: Limits)
    requires l.Enabled() && Tells(f, k, times, now, l) && Count(f, k) < l.maxAttempts
    requires k in f' && f'[k] == Failed(f, k, now, l)[k]
    ensures Tells(f', k, times + [now], now, l)
  {
    var times', n := times + [now], |times|;
    forall i, j | 0 <= i < j && j == i + l.maxAttempts < |times'| ensures times'[j] - times'[i] > l.lockout {
      if j == n {
        GapBehind(f, k, times, now, l, i);
      }
    }
  }

  lemma GapBehind(f: Failures, k: string, times: seq<int>, now: int, l: Limits, i: nat)
    requires l.Enabled() && Tells(f, k, times, now, l) && Count(f, k) < l.maxAttempts
    requires i + l.maxAttempts == |times|
    ensures now - times[i] > l.lockout
  {
    if k in f {
      var m := |times| - f[k].count;
      assert i <= m - 1 && times[i] <= times[m - 1] && times[m] <= now;
    } else {
      assert times[i] <= times[|times| - 1];
    }
  }

  lemma SignInTells(f: Failures, x: SignIn, k: string, times: seq<int>, now: int, l: Limits)
    requires l.Enabled() && Tells(f, k, times, now, l) && now <= x.checked <= x.over
    ensures var (f', tried) := SignInStep(f, x, l);
            var times' := if !tried || k !in Keys(x.login) then times else if x.ok then [] else times + [x.over];
            Tells(f', k, times', x.over, l)
  {
    hide CheckKeys, FailureStep, Keys, Tells;
    var (f', blocked) := CheckStep(f, x.login, x.checked, l);
    CheckOnlyDrops(f, Keys(x.login), x.checked, l);
    TellsDropped(f, f', k, times, now, x.checked, l);
    TellsLater(f', k, times, x.checked, x.over, l);
    if blocked == None {
      CheckPasses(f, Keys(x.login), x.checked, l);
      if x.ok {
        if k in Keys(x.login) {
          NothingToTell(SuccessStep(f', x.login), k, x.over, l);
        } else {
          TellsSame(f', SuccessStep(f', x.login), k, times, x.over, l);
        }
      } else {
        FailureAt(f', x.login, x.over, l, true, k);
        if k in Keys(x.login) {
          TellsFailure(f', FailureStep(f', x.login, x.over, l, true), k, times, x.over, l);
        } else {
          TellsDropped(f', FailureStep(f', x.login, x.over, l, true), k, times, x.over, x.over, l);
        }
      }
    }
  }

  lemma TellsSame(f: Failures, f': Failures, k: string, times: seq<int>, now: int, l: Limits)
    requires Tells(f, k, times, now, l) && (k in f <==> k in f') && (k in f ==> f'[k] == f[k])
    ensures Tells(f', k, times, now, l)
  {
  }

  lemma NothingToTell(f: Failures, k: string, now: int, l: Limits)
    requires k !in f
    ensures Tells(f, k, [], now, l)
  {
  }

  /** Dropping an expired entry leaves the counter telling the truth. */
  lemma TellsDropped(f: Failures, f': Failures, k: string, times: seq<int>, now: int, later: int, l: Limits)
    requires Tells(f, k, times, now, l) && now <= later
    requires k in f' ==> k in f && f'[k] == f[k]
    requires k in f && k !in f' ==> Expired(f[k], later, l)
    ensures Tells(f', k, times, later, l)
  {
  }

  lemma {:induction false} RunTells(f: Failures, run: seq<SignIn>, k: string, times: seq<int>, now: int, l: Limits)
    requires l.Enabled() && Tells(f, k, times, now, l) && InTurn(run, now)
    ensures Spread(FailureTimes(f, run, k, l, times), l)
    decreases |run|
  {
    hide Spread, SignInStep, Keys;
    if run == [] {
      TellsSpread(f, k, times, now, l);
    } else {
      var x := run[0];
      var (f', tried) := SignInStep(f, x, l);
      var times' := if !tried || k !in Keys(x.login) then times else if x.ok then [] else times + [x.over];
      SignInTells(f, x, k, times, now, l);
      RunTells(f', run[1..], k, times', x.over, l);
    }
  }

  lemma TellsSpread(f: Failures, k: string, times: seq<int>, now: int, l: Limits)
    requires Tells(f, k, times, now, l)
    ensures Spread(times, l)
  {
  }

  /** How many of the times lie in the closed interval. */
  function CountIn(times: seq<int>, lo: int, hi: int): nat {
    if times == [] then 0 else (if lo <= times[0] <= hi then 1 else 0) + CountIn(times[1..], lo, hi)
  }

  lemma {:induction false} CountAtMost(times: seq<int>, lo: int, hi: int, n: nat)
    requires forall i :: n <= i < |times| ==> !(lo <= times[i] <= hi)
    ensures CountIn(times, lo, hi) <= n
  {
    if times != [] {
      CountAtMost(times[1..], lo, hi, if n == 0 then 0 else n - 1);
    }
  }

  lemma {:induction false} SpreadCount(times: seq<int>, lo: int, l: Limits)
    requires l.Enabled() && Spread(times, l)
    ensures CountIn(times, lo, lo + l.lockout) <= l.maxAttempts
  {
    if times != [] {
      if times[0] < lo {
        SpreadCount(times[1..], lo, l);
      } else {
        forall i | l.maxAttempts <= i < |times| ensures times[i] > lo + l.lockout {
          assert times[l.maxAttempts] - times[0] > l.lockout && times[l.maxAttempts] <= times[i];
        }
        CountAtMost(times, lo, lo + l.lockout, l.maxAttempts);
      }
    }
  }

  /** One sign-in after the other, no interval of the lockout's length holds more failures of
      an account or an address than the limit, unless a success lies between them. */
  lemma SequentialBound(run: seq<SignIn>, start: int, k: string, l: Limits, lo: int)
    requires l.Enabled() && InTurn(run, start)
    ensures CountIn(FailureTimes(map[], run, k, l, []), lo, lo + l.lockout) <= l.maxAttempts
  {
    RunTells(map[], run, k, [], start, l);
    SpreadCount(FailureTimes(map[], run, k, l, []), lo, l);
  }
}
