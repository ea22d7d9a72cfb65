/** Exactly when the login throttle blocks, and what the wait means (backend/samadcon/auth/session.py 157-248). */
module ThrottleExact {
  import opened Text
  import opened LoginThrottle

  // --- Whom a sign-in is counted for ------------------------------------------------------------

  /** An account by its name in any case, or an address. */
  datatype Subject = Account(name: string) | Address(ip: string)

  predicate Concerns(login: Login, who: Subject) {
    match who
    case Account(name) => EqualIgnoringCase(login.username, name)
    case Address(ip) => ip != "" && login.clientIp == Some(ip)
  }

  function KeyOf(who: Subject): string {
    match who case Account(name) => "user:" + Lower(name) case Address(ip) => "ip:" + ip
  }

  lemma KeyIff(login: Login, who: Subject)
    requires who.Address? ==> who.ip != ""
    ensures KeyOf(who) in Keys(login) <==> Concerns(login, who)
  {
    hide Lower;
    var user := "user:" + Lower(login.username);
    var key := KeyOf(who);
    match who {
      case Account(name) =>
        LowerIff(login.username, name);
        assert key[5..] == Lower(name) && user[5..] == Lower(login.username);
        if login.clientIp.Some? {
          assert ("ip:" + login.clientIp.value)[0] == 'i' && key[0] == 'u';
        }
      case Address(ip) =>
        assert user[0] == 'u' && key[0] == 'i' && key[3..] == ip;
        if login.clientIp.Some? {
          assert ("ip:" + login.clientIp.value)[3..] == login.clientIp.value;
        }
    }
  }

  /** The account and, where there is one, the address of a sign-in. */
  function Subjects(login: Login): seq<Subject> {
    [Account(login.username)]
    + if login.clientIp.Some? && login.clientIp.value != "" then [Address(login.clientIp.value)] else []
  }

  lemma KeysAreSubjects(login: Login)
    ensures |Keys(login)| == |Subjects(login)|
    ensures forall i :: 0 <= i < |Keys(login)| ==> Keys(login)[i] == KeyOf(Subjects(login)[i])
  {
  }

  // --- The failures -----------------------------------------------------------------------------------

  /** The times of the failures that concern someone, since the last success that does. */
  function FailuresOf(ops: seq<Op>, who: Subject): seq<int>
    decreases |ops|
  {
    if ops == [] then []
    else
      var before, op := FailuresOf(ops[..|ops| - 1], who), ops[|ops| - 1];
      match op
      case CheckOp(_, _) => before
      case FailOp(login, now) => if Concerns(login, who) then before + [now] else before
      case SuccessOp(login) => if Concerns(login, who) then [] else before
  }

  /** The last *n* failures, the last one no further back than the lockout and no two in a row further apart. */
  predicate Locked(times: seq<int>, n: int, lockout: int, now: int) {
    && 0 < n <= |times|
    && now - times[|times| - 1] <= lockout
    && forall i :: |times| - n < i < |times| ==> times[i] - times[i - 1] <= lockout
  }

  /** How many failures at the end have no gap longer than the lockout between them. */
  function Streak(times: seq<int>, lockout: int): (n: nat)
    ensures n <= |times| && (times != [] ==> n > 0)
  {
    if times == [] then 0
    else if |times| > 1 && times[|times| - 1] - times[|times| - 2] <= lockout then
      1 + Streak(times[..|times| - 1], lockout)
    else 1
  }

  lemma {:induction false} StreakGaps(times: seq<int>, lockout: int)
    requires times != []
    ensures var n := Streak(times, lockout);
            && (forall i :: |times| - n < i < |times| ==> times[i] - times[i - 1] <= lockout)
            && (n < |times| ==> times[|times| - n] - times[|times| - n - 1] > lockout)
  {
    if |times| > 1 && times[|times| - 1] - times[|times| - 2] <= lockout {
      var before := times[..|times| - 1];
      assert forall i :: 0 <= i < |before| ==> before[i] == times[i];
      StreakGaps(before, lockout);
    }
  }

  lemma LockedIff(times: seq<int>, n: int, lockout: int, now: int)
    requires times != [] && n > 0
    ensures Locked(times, n, lockout, now)
       <==> now - times[|times| - 1] <= lockout && Streak(times, lockout) >= n
  {
    var k := Streak(times, lockout);
    StreakGaps(times, lockout);
    if k < n <= |times| {
      assert times[|times| - k] - times[|times| - k - 1] > lockout;
      assert !Locked(times, n, lockout, now);
    }
  }

  lemma StreakSnoc(times: seq<int>, now: int, lockout: int)
    ensures Streak(times + [now], lockout)
         == if times != [] && now - times[|times| - 1] <= lockout then 1 + Streak(times, lockout) else 1
  {
    assert (times + [now])[..|times|] == times;
  }

  /** What the table says of a key: how long the streak of failures is and when it ended. A key that is not in the
      table has no failure, or none younger than the lockout. */
  ghost predicate Counts(f: Failures, key: string, times: seq<int>, now: int, l: Limits) {
    && (times != [] ==> times[|times| - 1] <= now)
    && if key in f then times != [] && f[key] == Entry(Streak(times, l.lockout), times[|times| - 1])
       else times == [] || now - times[|times| - 1] > l.lockout
  }

  // --- Runs -----------------------------------------------------------------------------------------------

  function After(f: Failures, ops: seq<Op>, l: Limits): Failures
    decreases |ops|
  {
    if ops == [] then f else OpStep(After(f, ops[..|ops| - 1], l), ops[|ops| - 1], l, true).0
  }

  /** The times of checks and failures never go back. */
  predicate InOrder(ops: seq<Op>, until: int) {
    forall i, j :: 0 <= i <= j < |ops| && !ops[i].SuccessOp? && !ops[j].SuccessOp? ==> ops[i].now <= ops[j].now <= until
  }

  lemma CountsDropped(f: Failures, f': Failures, key: string, times: seq<int>, now: int, later: int, l: Limits)
    requires Counts(f, key, times, now, l) && now <= later
    requires key in f' ==> key in f && f'[key] == f[key]
    requires key in f && key !in f' ==> Expired(f[key], later, l)
    ensures Counts(f', key, times, later, l)
  {
    hide Streak;
  }

  lemma CountsFailure(f: Failures, f': Failures, key: string, times: seq<int>, now: int, later: int, l: Limits)
    requires Counts(f, key, times, now, l) && now <= later
    requires key in f' && f'[key] == Failed(f, key, later, l)[key]
    ensures Counts(f', key, times + [later], later, l)
  {
    hide Streak;
    StreakSnoc(times, later, l.lockout);
  }

  lemma StepCounts(f: Failures, op: Op, who: Subject, times: seq<int>, now: int, l: Limits)
    requires l.Enabled() && (who.Address? ==> who.ip != "")
    requires Counts(f, KeyOf(who), times, now, l) && now <= TimeOf(op, now)
    ensures var f' := OpStep(f, op, l, true).0;
            var times' := match op
                          case CheckOp(_, _) => times
                          case FailOp(login, at) => if Concerns(login, who) then times + [at] else times
                          case SuccessOp(login) => if Concerns(login, who) then [] else times;
            Counts(f', KeyOf(who), times', TimeOf(op, now), l)
  {
    hide Counts, KeyOf, Concerns, Keys, CheckKeys, FailureStep;
    var f', key := OpStep(f, op, l, true).0, KeyOf(who);
    KeyIff(op.login, who);
    match op {
      case CheckOp(login, at) =>
        CheckOnlyDrops(f, Keys(login), at, l);
        CountsDropped(f, f', key, times, now, at, l);
      case FailOp(login, at) =>
        FailureAt(f, login, at, l, true, key);
        if key in Keys(login) {
          CountsFailure(f, f', key, times, now, at, l);
        } else {
          CountsDropped(f, f', key, times, now, at, l);
        }
      case SuccessOp(login) =>
        if key in Keys(login) {
          NothingCounts(f', key, now, l);
        } else {
          CountsDropped(f, f', key, times, now, now, l);
        }
    }
  }

  lemma NothingCounts(f: Failures, key: string, now: int, l: Limits)
    requires key !in f
    ensures Counts(f, key, [], now, l)
  {
  }

  /** The latest time of the run, not before its start. */
  function LastTime(ops: seq<Op>, start: int): int
    decreases |ops|
  {
    if ops == [] then start else TimeOf(ops[|ops| - 1], LastTime(ops[..|ops| - 1], start))
  }

  lemma {:induction false} LastTimeIs(ops: seq<Op>, start: int, until: int)
    requires InOrder(ops, until) && start <= until
    requires forall i :: 0 <= i < |ops| && !ops[i].SuccessOp? ==> start <= ops[i].now
    ensures start <= LastTime(ops, start) <= until
    ensures forall i :: 0 <= i < |ops| && !ops[i].SuccessOp? ==> ops[i].now <= LastTime(ops, start)
    ensures LastTime(ops, start) == start
         || exists i :: 0 <= i < |ops| && !ops[i].SuccessOp? && ops[i].now == LastTime(ops, start)
    decreases |ops|
  {
    if ops != [] {
      var before := ops[..|ops| - 1];
      assert forall i :: 0 <= i < |before| ==> before[i] == ops[i];
      LastTimeIs(before, start, until);
    }
  }

  lemma {:induction false} RunCounts(ops: seq<Op>, who: Subject, start: int, until: int, l: Limits)
    requires l.Enabled() && (who.Address? ==> who.ip != "") && InOrder(ops, until) && start <= until
    requires forall i :: 0 <= i < |ops| && !ops[i].SuccessOp? ==> start <= ops[i].now
    ensures Counts(After(map[], ops, l), KeyOf(who), FailuresOf(ops, who), LastTime(ops, start), l)
    decreases |ops|
  {
    hide Counts, Concerns, OpStep, KeyOf;
    if ops == [] {
      NothingCounts(map[], KeyOf(who), start, l);
    } else {
      var before, op := ops[..|ops| - 1], ops[|ops| - 1];
      assert forall i :: 0 <= i < |before| ==> before[i] == ops[i];
      RunCounts(before, who, start, until, l);
      LastTimeIs(before, start, until);
      assert LastTime(before, start) <= TimeOf(op, LastTime(before, start));
      StepCounts(After(map[], before, l), op, who, FailuresOf(before, who), LastTime(before, start), l);
    }
  }

  // --- Blocking --------------------------------------------------------------------------------------------

  lemma CountsLocked(f: Failures, key: string, times: seq<int>, now: int, later: int, l: Limits)
    requires l.Enabled() && Counts(f, key, times, now, l) && now <= later
    ensures key in f && !Expired(f[key], later, l) && f[key].count >= l.maxAttempts
       <==> Locked(times, l.maxAttempts, l.lockout, later)
    ensures key in f ==> times != [] && f[key].last == times[|times| - 1]
  {
    hide Streak;
    if times != [] {
      LockedIff(times, l.maxAttempts, l.lockout, later);
    }
  }

  /** The keys are looked at in turn; dropping one changes nothing for the others. */
  predicate Blocks(f: Failures, key: string, now: int, l: Limits) {
    key in f && !Expired(f[key], now, l) && f[key].count >= l.maxAttempts
  }

  /** The whole seconds left, rounded down, but never less than one. */
  predicate WaitEnds(wait: int, last: int, now: int, l: Limits) {
    var left := last + l.lockout - now;
    && wait >= 1 && left >= 0
    && left < (wait + 1) * SECOND
    && (wait > 1 ==> wait * SECOND <= left)
  }

  lemma {:induction false} CheckBlocks(f: Failures, keys: seq<string>, now: int, l: Limits)
    requires forall i, j :: 0 <= i < j < |keys| ==> keys[i] != keys[j]
    ensures CheckKeys(f, keys, now, l).1.Some? <==> exists k :: k in keys && Blocks(f, k, now, l)
    ensures CheckKeys(f, keys, now, l).1.Some? ==>
              exists k :: k in keys && Blocks(f, k, now, l) && WaitEnds(CheckKeys(f, keys, now, l).1.value, f[k].last, now, l)
    decreases |keys|
  {
    if keys != [] {
      var key := keys[0];
      assert forall i :: 0 <= i < |keys[1..]| ==> keys[1..][i] == keys[i + 1];
      var f' := if key in f && Expired(f[key], now, l) then f - {key} else f;
      CheckBlocks(f', keys[1..], now, l);
      if Blocks(f, key, now, l) {
        WaitIs(f[key].last, now, l);
      } else {
        OthersBlock(f, f', key, keys[1..], now, l);
        assert forall k :: k in keys <==> k == key || k in keys[1..];
      }
    }
  }

  lemma WaitIs(last: int, now: int, l: Limits)
    requires now - last <= l.lockout
    ensures var remaining := (l.lockout - (now - last)) / SECOND;
            WaitEnds(if remaining > 1 then remaining else 1, last, now, l)
  {
  }

  lemma OthersBlock(f: Failures, f': Failures, key: string, rest: seq<string>, now: int, l: Limits)
    requires key !in rest && (f' == f || f' == f - {key})
    ensures forall k :: k in rest ==> (Blocks(f, k, now, l) <==> Blocks(f', k, now, l)) && (k in f' ==> f'[k] == f[k])
  {
  }

  ghost predicate IsLocked(ops: seq<Op>, who: Subject, now: int, l: Limits) {
    Locked(FailuresOf(ops, who), l.maxAttempts, l.lockout, now)
  }

  /** Over a run in time order, a check blocks exactly when throttling is on and the account or the address of the
      sign-in has the limit's number of failures since its last success, no two in a row further apart than the lockout
      and the last within it. The lockout of one of them then ends in the second after the wait; where less than a second
      is left, the wait is one. */
  lemma BlocksIff(ops: seq<Op>, login: Login, now: int, l: Limits)
    requires InOrder(ops, now)
    ensures var answer := CheckStep(After(map[], ops, l), login, now, l).1;
            && (answer.Some? <==> l.Enabled() && exists who :: who in Subjects(login) && IsLocked(ops, who, now, l))
            && (answer.Some? ==>
                  exists who :: who in Subjects(login) && IsLocked(ops, who, now, l)
                                && WaitEnds(answer.value, LastOf(FailuresOf(ops, who)), now, l))
  {
    hide Keys, CheckKeys, IsLocked, KeyOf, Subjects, WaitEnds, Counts, FailuresOf, After;
    if l.Enabled() {
      var f, keys, whos := After(map[], ops, l), Keys(login), Subjects(login);
      KeysAreSubjects(login);
      CheckBlocks(f, keys, now, l);
      forall who | who in whos
        ensures Blocks(f, KeyOf(who), now, l) <==> IsLocked(ops, who, now, l)
        ensures Blocks(f, KeyOf(who), now, l) ==> f[KeyOf(who)].last == LastOf(FailuresOf(ops, who))
      {
        SubjectBlocks(ops, login, who, now, l);
      }
      forall k | k in keys ensures exists who :: who in whos && KeyOf(who) == k {
        var i :| 0 <= i < |keys| && keys[i] == k;
        assert whos[i] in whos;
      }
      forall who | who in whos ensures KeyOf(who) in keys {
        var i :| 0 <= i < |whos| && whos[i] == who;
        assert keys[i] in keys;
      }
    }
  }

  function LastOf(times: seq<int>): int {
    if times == [] then 0 else times[|times| - 1]
  }

  lemma SubjectBlocks(ops: seq<Op>, login: Login, who: Subject, now: int, l: Limits)
    requires l.Enabled() && InOrder(ops, now) && who in Subjects(login)
    ensures var f := After(map[], ops, l);
            && (Blocks(f, KeyOf(who), now, l) <==> IsLocked(ops, who, now, l))
            && (Blocks(f, KeyOf(who), now, l) ==> f[KeyOf(who)].last == LastOf(FailuresOf(ops, who)))
  {
    hide Counts, FailuresOf, After, KeyOf, Locked;
    var start := Earliest(ops, now);
    RunCounts(ops, who, start, now, l);
    LastTimeIs(ops, start, now);
    CountsLocked(After(map[], ops, l), KeyOf(who), FailuresOf(ops, who), LastTime(ops, start), now, l);
  }

  /** A time no later than any of the run. */
  function Earliest(ops: seq<Op>, until: int): (start: int)
    ensures start <= until && forall i :: 0 <= i < |ops| && !ops[i].SuccessOp? ==> start <= ops[i].now
  {
    if ops == [] then until
    else
      var before := ops[..|ops| - 1];
      var start := Earliest(before, until);
      assert forall i :: 0 <= i < |before| ==> before[i] == ops[i];
      if !ops[|ops| - 1].SuccessOp? && ops[|ops| - 1].now < start then ops[|ops| - 1].now else start
  }
}
