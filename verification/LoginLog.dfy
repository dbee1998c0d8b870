/** The login failure log: attempts stamped in whole seconds, and the check that the login handler makes against
    them. */
module LoginLog {
  import opened Text

  const FAILURE_WINDOW_MINUTES := 15

  datatype Reason = UnknownOrDisabled | BadPassword | BadTotp | BadRecoveryCode

  /** A row of `login_attempts`; the reason is there for failures.  `at`, in milliseconds, is history: the row keeps
      only whole seconds. */
  datatype Attempt = Attempt(username: string, success: bool, reason: Option<Reason>, createdAt: int, at: int)

  /** A time in milliseconds as the text form keeps it. */
  function Seconds(ms: int): int { ms / 1000 }

  /** `recordAttempt` */
  function Recorded(log: seq<Attempt>, username: string, success: bool, reason: Option<Reason>,
      now: int): seq<Attempt> {
    log + [Attempt(username, success, reason, Seconds(now), now)]
  }

  predicate Fails(a: Attempt, username: string) { a.username == username && !a.success }

  /** `SELECT COUNT(*) … WHERE username = ? AND success = 0 AND created_at > ?` */
  function FailuresSince(log: seq<Attempt>, username: string, since: int): nat {
    if log == [] then 0
    else
      var a := log[|log| - 1];
      FailuresSince(log[..|log| - 1], username, since) + if Fails(a, username) && a.createdAt > since then 1 else 0
  }

  /** The bound of `recentFailureCount`. */
  function Since(now: int): int { Seconds(now - FAILURE_WINDOW_MINUTES * 60_000) }

  /** What a login turns out to claim: whether the admin is there and enabled, whether the password is right, whether
      a one-time code is asked for, given and right. */
  datatype Claim = Claim(found: bool, enabled: bool, passwordOk: bool, totpEnabled: bool, totpGiven: bool, totpOk: bool)

  datatype Reply = RateLimited | InvalidCredentials | TotpRequired | TotpInvalid | LoggedIn

  /** The login handler. */
  function LoginStep(log: seq<Attempt>, username: string, claim: Claim, now: int,
      limit: int): (seq<Attempt>, Reply) {
    if FailuresSince(log, username, Since(now)) >= limit then (log, RateLimited)
    else if !(claim.found && claim.enabled) then
      (Recorded(log, username, false, Some(UnknownOrDisabled), now), InvalidCredentials)
    else if !claim.passwordOk then (Recorded(log, username, false, Some(BadPassword), now), InvalidCredentials)
    else if claim.totpEnabled && !claim.totpGiven then (log, TotpRequired)
    else if claim.totpEnabled && !claim.totpOk then
      (Recorded(log, username, false, Some(BadTotp), now), TotpInvalid)
    else (Recorded(log, username, true, None, now), LoggedIn)
  }

  /** The recovery handler, which makes no check. */
  function RecoverStep(log: seq<Attempt>, username: string, codeOk: bool, now: int): seq<Attempt> {
    if codeOk then log else Recorded(log, username, false, Some(BadRecoveryCode), now)
  }

  datatype Event = LoginAttempt(username: string, claim: Claim, now: int) |
      Recovery(username: string, codeOk: bool, now: int)

  function Next(log: seq<Attempt>, e: Event, limit: int): seq<Attempt> {
    match e
    case LoginAttempt(username, claim, now) => LoginStep(log, username, claim, now, limit).0
    case Recovery(username, codeOk, now) => RecoverStep(log, username, codeOk, now)
  }

  /** The log after some events. */
  function After(events: seq<Event>, limit: int): seq<Attempt> {
    if events == [] then [] else Next(After(events[..|events| - 1], limit), events[|events| - 1], limit)
  }

  /** A failure that the login handler recorded. */
  predicate LoginFailure(a: Attempt, username: string) { Fails(a, username) && a.reason != Some(BadRecoveryCode) }

  /** Login failures stamped with one of the seconds from `lo` on and before `hi`. */
  function StampedFailures(log: seq<Attempt>, username: string, lo: int, hi: int): nat {
    if log == [] then 0
    else
      var a := log[|log| - 1];
      StampedFailures(log[..|log| - 1], username, lo, hi) + if LoginFailure(a, username) && lo <= a.createdAt < hi
          then 1 else 0
  }

  /** Login failures that happened from the millisecond `lo` on and before `hi`. */
  function TimedFailures(log: seq<Attempt>, username: string, lo: int, hi: int): nat {
    if log == [] then 0
    else
      var a := log[|log| - 1];
      TimedFailures(log[..|log| - 1], username, lo, hi) + if LoginFailure(a, username) && lo <= a.at < hi then 1 else 0
  }

  // ---------------------------------------------------------------- what a login is told

  /** The failures that count at a time: those of the user with the stamp of one of the last 900 seconds, or a later
      one. */
  predicate Counts(a: Attempt, username: string, now: int) {
    a.username == username && !a.success && now / 1000 - 900 < a.createdAt
  }

  function CountedAt(log: seq<Attempt>, username: string, now: int): set<int> {
    set i | 0 <= i < |log| && Counts(log[i], username, now)
  }

  lemma {:induction false} SinceSeconds(now: int)
    ensures Since(now) == now / 1000 - 900
  {
  }

  lemma {:induction false} CountsSet(log: seq<Attempt>, username: string, now: int)
    ensures FailuresSince(log, username, Since(now)) == |CountedAt(log, username, now)|
  {
    SinceSeconds(now);
    if log != [] {
      var n := |log| - 1;
      var init := log[..n];
      CountsSet(init, username, now);
      assert CountedAt(log, username, now) ==
             CountedAt(init, username, now) + if Counts(log[n], username, now) then {n} else {};
    }
  }

  predicate RightPassword(c: Claim) { c.found && c.enabled && c.passwordOk }

  /** What is asked for is right. */
  predicate RightClaim(c: Claim) { RightPassword(c) && (c.totpEnabled ==> c.totpGiven && c.totpOk) }

  /** The row of an attempt of this moment. */
  predicate IsRow(a: Attempt, username: string, now: int, success: bool, reason: Option<Reason>) {
    a.username == username && a.success == success && a.reason == reason && a.createdAt == now / 1000 && a.at == now
  }

  /** A login is let in if and only if all it claims is right and fewer failures than the limit count; at the limit it
      is refused whatever it claims.  Each other reply is for its own kind of claim. */
  lemma {:induction false} LoginReplies(log: seq<Attempt>, username: string, claim: Claim, now: int, limit: int)
    ensures var below := |CountedAt(log, username, now)| < limit;
            var r := LoginStep(log, username, claim, now, limit).1;
            && (r == RateLimited <==> !below)
            && (r == LoggedIn <==> below && RightClaim(claim))
            && (r == InvalidCredentials <==> below && !RightPassword(claim))
            && (r == TotpRequired <==> below && RightPassword(claim) && claim.totpEnabled && !claim.totpGiven)
            && (r == TotpInvalid <==>
                  below && RightPassword(claim) && claim.totpEnabled && claim.totpGiven && !claim.totpOk)
  {
    CountsSet(log, username, now);
  }

  /** The reply says what is recorded: nothing for a refusal at the limit and for a missing code, a success for one that
      is let in, and a failure with its reason for the others. */
  lemma {:induction false} LoginRecords(log: seq<Attempt>, username: string, claim: Claim, now: int, limit: int)
    ensures var (after, r) := LoginStep(log, username, claim, now, limit);
            if r == RateLimited || r == TotpRequired then after == log
            else |after| == |log| + 1 && after[..|log|] == log && IsRow(after[|log|], username, now, r == LoggedIn,
                if r == LoggedIn then None
                else if r == TotpInvalid then Some(BadTotp)
                else if claim.found && claim.enabled then Some(BadPassword) else Some(UnknownOrDisabled))
  {
  }

  /** A recovery records only that its code is wrong, and that counts for logins too. */
  lemma {:induction false} RecoveryCounts(log: seq<Attempt>, username: string, codeOk: bool, now: int)
    ensures var after := RecoverStep(log, username, codeOk, now);
            && (codeOk ==> after == log)
            && (!codeOk ==>
                  && |after| == |log| + 1 && after[..|log|] == log
                  && IsRow(after[|log|], username, now, false, Some(BadRecoveryCode))
                  && |CountedAt(after, username, now)| == |CountedAt(log, username, now)| + 1)
  {
    var after := RecoverStep(log, username, codeOk, now);
    CountsSet(log, username, now);
    CountsSet(after, username, now);
    SinceSeconds(now);
    if !codeOk { assert after[..|log|] == log; }
  }

  // ---------------------------------------------------------------- locking out

  lemma {:induction false} LogGrows(events: seq<Event>, more: seq<Event>, limit: int)
    ensures After(events, limit) <= After(events + more, limit)
  {
    if more == [] {
      assert events + more == events;
    } else {
      var init, last := more[..|more| - 1], more[|more| - 1];
      LogGrows(events, init, limit);
      AfterLast(events, more, limit);
      var a := StepAdds(After(events + init, limit), last, limit);
    }
  }

  lemma {:induction false} FewerCount(a: set<int>, b: set<int>)
    requires a <= b
    ensures |a| <= |b|
  {
    assert b == a + (b - a);
  }

  /** In every run, whatever else happens: once the limit is reached, every login of the user is refused, right or
      wrong, until the oldest failure that counts has left the window. */
  lemma {:induction false} LockedOut(events: seq<Event>, more: seq<Event>, username: string, claim: Claim, now: int,
      later: int, limit: int)
    requires |CountedAt(After(events, limit), username, now)| >= limit
    requires forall a | a in After(events, limit) && Counts(a, username, now) :: Counts(a, username, later)
    ensures LoginStep(After(events + more, limit), username, claim, later, limit) ==
            (After(events + more, limit), RateLimited)
  {
    var log, after := After(events, limit), After(events + more, limit);
    LogGrows(events, more, limit);
    assert CountedAt(log, username, now) <= CountedAt(after, username, later);
    FewerCount(CountedAt(log, username, now), CountedAt(after, username, later));
    LoginReplies(after, username, claim, later, limit);
    LoginRecords(after, username, claim, later, limit);
  }

  /** Events that leave the user's failures as they are: those of others, and logins that the limit refuses. */
  predicate Adds(log: seq<Attempt>, e: Event, username: string, limit: int) {
    e.username == username && Next(log, e, limit) != log
  }

  lemma {:induction false} OtherKeeps(log: seq<Attempt>, e: Event, username: string, later: int, limit: int)
    requires !Adds(log, e, username, limit)
    ensures CountedAt(Next(log, e, limit), username, later) == CountedAt(log, username, later)
  {
    var a := StepAdds(log, e, limit);
  }

  lemma {:induction false} AfterLast(events: seq<Event>, more: seq<Event>, limit: int)
    requires more != []
    ensures var n := |more| - 1;
            After(events + more, limit) == Next(After(events + more[..n], limit), more[n], limit)
  {
    assert (events + more)[..|events + more| - 1] == events + more[..|more| - 1];
  }

  lemma {:induction false} OthersKeep(events: seq<Event>, more: seq<Event>, username: string, later: int, limit: int)
    requires forall k | 0 <= k < |more| :: !Adds(After(events + more[..k], limit), more[k], username, limit)
    ensures CountedAt(After(events + more, limit), username, later) == CountedAt(After(events, limit), username, later)
  {
    if more == [] {
      assert events + more == events;
    } else {
      var init, last := more[..|more| - 1], more[|more| - 1];
      forall k | 0 <= k < |init| ensures !Adds(After(events + init[..k], limit), init[k], username, limit) {
        assert init[..k] == more[..k];
      }
      OthersKeep(events, init, username, later, limit);
      AfterLast(events, more, limit);
      OtherKeeps(After(events + init, limit), last, username, later, limit);
    }
  }

  /** And it is then over: where exactly the limit counts and the user's log has no new rows, the first login with right
      claims after the oldest failure has left the window is let in. */
  lemma {:induction false} LockoutEnds(events: seq<Event>, more: seq<Event>, username: string, claim: Claim, now: int,
      later: int, limit: int, oldest: int)
    requires |CountedAt(After(events, limit), username, now)| == limit && now <= later && RightClaim(claim)
    requires oldest in CountedAt(After(events, limit), username, now)
    requires !Counts(After(events, limit)[oldest], username, later)
    requires forall k | 0 <= k < |more| :: !Adds(After(events + more[..k], limit), more[k], username, limit)
    ensures LoginStep(After(events + more, limit), username, claim, later, limit).1 == LoggedIn
  {
    var log := After(events, limit);
    OthersKeep(events, more, username, later, limit);
    assert CountedAt(log, username, later) <= CountedAt(log, username, now) - {oldest};
    FewerCount(CountedAt(log, username, later), CountedAt(log, username, now) - {oldest});
    LoginReplies(After(events + more, limit), username, claim, later, limit);
  }

  // ---------------------------------------------------------------- the bound in stamped seconds

  /** Everything stamped with the last 900 seconds is counted, recovery failures too. */
  lemma {:induction false} CountedSince(log: seq<Attempt>, username: string, lo: int, hi: int, since: int)
    requires since < lo
    ensures StampedFailures(log, username, lo, hi) <= FailuresSince(log, username, since)
  {
    if log != [] { CountedSince(log[..|log| - 1], username, lo, hi, since); }
  }

  /** A step adds at most one attempt; a login failure only while fewer than the limit are counted. */
  lemma {:induction false} StepAdds(log: seq<Attempt>, e: Event, limit: int) returns (a: Attempt)
    ensures Next(log, e, limit) == log || Next(log, e, limit) == log + [a]
    ensures a.username == e.username && a.createdAt == Seconds(e.now)
    ensures a.reason != Some(BadRecoveryCode) && Next(log, e, limit) != log
            ==> FailuresSince(log, e.username, Since(e.now)) < limit
  {
    var after := Next(log, e, limit);
    a := if after == log then Attempt(e.username, true, None, Seconds(e.now), e.now) else after[|log|];
  }

  lemma {:induction false} StepBounded(log: seq<Attempt>, e: Event, limit: int, username: string, lo: int)
    requires limit >= 0 && StampedFailures(log, username, lo, lo + 900) <= limit
    ensures StampedFailures(Next(log, e, limit), username, lo, lo + 900) <= limit
  {
    var a := StepAdds(log, e, limit);
    if Next(log, e, limit) != log {
      if LoginFailure(a, username) && lo <= a.createdAt < lo + 900 {
        CountedSince(log, username, lo, lo + 900, Since(e.now));
      }
    }
  }

  /** In every run, whatever the clock does and whatever recoveries fail in between, no 900 successive seconds are
      stamped on more login failures of one user than the limit. */
  lemma {:induction false} Bounded(events: seq<Event>, limit: int, username: string, lo: int)
    requires limit >= 0
    ensures StampedFailures(After(events, limit), username, lo, lo + 900) <= limit
  {
    if events != [] {
      Bounded(events[..|events| - 1], limit, username, lo);
      StepBounded(After(events[..|events| - 1], limit), events[|events| - 1], limit, username, lo);
    }
  }

  // ---------------------------------------------------------------- the bound in milliseconds

  predicate Stamped(log: seq<Attempt>) { forall a | a in log :: a.createdAt == Seconds(a.at) }

  lemma {:induction false} AlwaysStamped(events: seq<Event>, limit: int)
    ensures Stamped(After(events, limit))
  {
    if events != [] { AlwaysStamped(events[..|events| - 1], limit); }
  }

  /** An interval of at most 899 001 ms touches at most 900 stamps. */
  lemma {:induction false} TimedStamped(log: seq<Attempt>, username: string, t: int, length: int)
    requires Stamped(log) && length <= 899_001
    ensures TimedFailures(log, username, t, t + length) <= StampedFailures(log, username, Seconds(t), Seconds(t) + 900)
  {
    if log != [] {
      var init, a := log[..|log| - 1], log[|log| - 1];
      assert a in log;
      forall b | b in init ensures b in log {}
      TimedStamped(init, username, t, length);
    }
  }

  /** The clock never goes back. */
  predicate Timely(events: seq<Event>) { forall i, j | 0 <= i < j < |events| :: events[i].now <= events[j].now }

  function Times(n: nat, e: Event): (r: seq<Event>)
    ensures |r| == n && forall i | 0 <= i < n :: r[i] == e
  {
    if n == 0 then [] else Times(n - 1, e) + [e]
  }

  const WRONG_PASSWORD := Claim(true, true, false, false, false, false)

  /** Wrong passwords for one user up to the limit at 0.999 s, and again at 900 s. */
  function TwoBursts(username: string, limit: nat): seq<Event> {
    Times(limit, LoginAttempt(username, WRONG_PASSWORD, 999)) + Times(limit,
        LoginAttempt(username, WRONG_PASSWORD, 900_000))
  }

  lemma {:induction false} OneMore(init: seq<Event>, n: nat, e: Event)
    requires n > 0
    ensures init + Times(n, e) == init + Times(n - 1, e) + [e]
  {
  }

  /** What a burst of `n` failures has added. */
  predicate Added(init: seq<Event>, events: seq<Event>, username: string, limit: nat, now: int, n: nat, lo: int,
      hi: int) {
    && TimedFailures(After(events, limit), username, lo, hi) == TimedFailures(After(init, limit), username, lo, hi) + n
    && FailuresSince(After(events, limit), username, Since(now)) ==
       FailuresSince(After(init, limit), username, Since(now)) + n
  }

  lemma {:induction false} AddedOne(init: seq<Event>, events: seq<Event>, username: string, limit: nat, now: int,
      n: nat, lo: int, hi: int)
    requires n > 0 && Since(now) < Seconds(now) && lo <= now < hi
             && Added(init, events, username, limit, now, n - 1, lo, hi)
    requires FailuresSince(After(init, limit), username, Since(now)) + n <= limit
    ensures Added(init, events + [LoginAttempt(username, WRONG_PASSWORD, now)], username, limit, now, n, lo, hi)
  {
    var e := LoginAttempt(username, WRONG_PASSWORD, now);
    assert (events + [e])[..|events|] == events;
    WrongAdds(After(events, limit), username, limit, now, lo, hi);
  }

  lemma {:induction false} WrongAdds(log: seq<Attempt>, username: string, limit: nat, now: int, lo: int, hi: int)
    requires Since(now) < Seconds(now) && lo <= now < hi && FailuresSince(log, username, Since(now)) < limit
    ensures var after := Next(log, LoginAttempt(username, WRONG_PASSWORD, now), limit);
            && TimedFailures(after, username, lo, hi) == TimedFailures(log, username, lo, hi) + 1
            && FailuresSince(after, username, Since(now)) == FailuresSince(log, username, Since(now)) + 1
  {
    var a := Attempt(username, false, Some(BadPassword), Seconds(now), now);
    assert (log + [a])[..|log|] == log;
  }

  /** A burst of wrong passwords of which fewer than the limit are counted. */
  lemma {:induction false} Burst(init: seq<Event>, username: string, limit: nat, now: int, n: nat, lo: int, hi: int)
    requires Since(now) < Seconds(now) && FailuresSince(After(init, limit), username, Since(now)) + n <= limit
             && lo <= now < hi
    ensures Added(init, init + Times(n, LoginAttempt(username, WRONG_PASSWORD, now)), username, limit, now, n, lo, hi)
  {
    var e := LoginAttempt(username, WRONG_PASSWORD, now);
    if n == 0 {
      assert init + Times(0, e) == init;
    } else {
      Burst(init, username, limit, now, n - 1, lo, hi);
      OneMore(init, n, e);
      AddedOne(init, init + Times(n - 1, e), username, limit, now, n, lo, hi);
    }
  }

  lemma {:induction false} OldUncounted(log: seq<Attempt>, username: string, since: int)
    requires forall a | a in log :: a.createdAt <= since
    ensures FailuresSince(log, username, since) == 0
  {
    if log != [] {
      assert log[|log| - 1] in log;
      forall a | a in log[..|log| - 1] ensures a in log {}
      OldUncounted(log[..|log| - 1], username, since);
    }
  }

  lemma {:induction false} StampsUpTo(events: seq<Event>, limit: int, bound: int)
    requires forall e | e in events :: Seconds(e.now) <= bound
    ensures forall a | a in After(events, limit) :: a.createdAt <= bound
  {
    if events != [] {
      var init := events[..|events| - 1];
      assert events[|events| - 1] in events;
      forall e | e in init ensures e in events {}
      StampsUpTo(init, limit, bound);
    }
  }

  lemma {:induction false} FirstBurst(username: string, limit: nat, first: seq<Event>)
    requires first == Times(limit, LoginAttempt(username, WRONG_PASSWORD, 999))
    ensures TimedFailures(After(first, limit), username, 999, 900_001) == limit
    ensures FailuresSince(After(first, limit), username, Since(900_000)) == 0
  {
    assert [] + first == first;
    Burst([], username, limit, 999, limit, 999, 900_001);
    StampsUpTo(first, limit, 0);
    OldUncounted(After(first, limit), username, 0);
  }

  /** A run with twice the limit inside 15 minutes. */
  lemma {:induction false} TwiceTheLimit(username: string, limit: nat)
    ensures Timely(TwoBursts(username, limit))
    ensures TimedFailures(After(TwoBursts(username, limit), limit), username, 999, 900_001) == 2 * limit
  {
    var first := Times(limit, LoginAttempt(username, WRONG_PASSWORD, 999));
    FirstBurst(username, limit, first);
    Burst(first, username, limit, 900_000, limit, 999, 900_001);
  }

  lemma {:induction false} WiderCounts(log: seq<Attempt>, username: string, lo: int, hi: int, wider: int)
    requires hi <= wider
    ensures TimedFailures(log, username, lo, hi) <= TimedFailures(log, username, lo, wider)
  {
    if log != [] { WiderCounts(log[..|log| - 1], username, lo, hi, wider); }
  }

  predicate WithinLimit(events: seq<Event>, username: string, t: int, length: int, limit: nat) {
    TimedFailures(After(events, limit), username, t, t + length) <= limit
  }

  /** No run has more login failures of a user than the limit in an interval of this length. */
  ghost predicate KeepsLimit(length: int, limit: nat) {
    forall events: seq<Event>, username: string, t: int | Timely(events) ::
        WithinLimit(events, username, t, length, limit)
  }

  /** The length in milliseconds for which the limit holds: just short of 15 minutes, since a stamp loses up to 999 ms
      at each end.  A full sliding window of 15 minutes can hold twice the limit. */
  lemma {:induction false} KeptUpTo(length: int, limit: nat)
    requires limit >= 1
    ensures KeepsLimit(length, limit) <==> length <= 899_001
  {
    if length <= 899_001 {
      forall events: seq<Event>, username: string, t: int | Timely(events)
        ensures WithinLimit(events, username, t, length, limit)
      {
        AlwaysStamped(events, limit);
        TimedStamped(After(events, limit), username, t, length);
        Bounded(events, limit, username, Seconds(t));
      }
    } else {
      var events := TwoBursts("admin", limit);
      TwiceTheLimit("admin", limit);
      WiderCounts(After(events, limit), "admin", 999, 900_001, 999 + length);
      assert !WithinLimit(events, "admin", 999, length, limit);
    }
  }

  // ---------------------------------------------------------------- the handlers as they run

  class AuthRouter {
    var attempts: seq<Attempt>

    constructor ()
      ensures attempts == []
    {
      attempts := [];
    }

    method RecordAttempt(username: string, success: bool, reason: Option<Reason>, now: int)
      modifies this
      ensures attempts == Recorded(old(attempts), username, success, reason, now)
    {
      attempts := attempts + [Attempt(username, success, reason, Seconds(now), now)];
    }

    /** `recentFailureCount` */
    method RecentFailureCount(username: string, now: int) returns (total: nat)
      ensures total == FailuresSince(attempts, username, Since(now))
    {
      var since := Seconds(now - FAILURE_WINDOW_MINUTES * 60_000);
      total := 0;
      for i := 0 to |attempts|
        invariant total == FailuresSince(attempts[..i], username, since)
      {
        assert attempts[..i + 1][..i] == attempts[..i];
        if attempts[i].username == username && !attempts[i].success && attempts[i].createdAt > since {
          total := total + 1;
        }
      }
      assert attempts[..|attempts|] == attempts;
    }

    /** `POST /login`, with what it turns out to claim. */
    method Login(username: string, claim: Claim, now: int, limit: int) returns (r: Reply)
      modifies this
      ensures (attempts, r) == LoginStep(old(attempts), username, claim, now, limit)
    {
      var failures := RecentFailureCount(username, now);
      if failures >= limit { return RateLimited; }
      if !claim.found || !claim.enabled {
        RecordAttempt(username, false, Some(UnknownOrDisabled), now);
        return InvalidCredentials;
      }
      if !claim.passwordOk {
        RecordAttempt(username, false, Some(BadPassword), now);
        return InvalidCredentials;
      }
      if claim.totpEnabled {
        if !claim.totpGiven { return TotpRequired; }
        if !claim.totpOk {
          RecordAttempt(username, false, Some(BadTotp), now);
          return TotpInvalid;
        }
      }
      RecordAttempt(username, true, None, now);
      return LoggedIn;
    }

    /** `POST /recover`, as far as the log goes. */
    method Recover(username: string, codeOk: bool, now: int)
      modifies this
      ensures attempts == RecoverStep(old(attempts), username, codeOk, now)
    {
      if !codeOk { RecordAttempt(username, false, Some(BadRecoveryCode), now); }
    }
  }
}
