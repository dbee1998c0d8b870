/** What each operation on the user table does to its row and to the answers that follow, told by the row's fields. */
module AllowlistAnswers {
  import opened Numbers
  import opened Text
  import opened Allowlist

  // ---------------------------------------------------------------- answers by the fields of a row

  predicate IsOver(u: User, now: int) { u.expiresAt.Some? && u.expiresAt.value <= now }

  predicate IsSpent(u: User) { u.quota.Some? && u.quota.value <= u.used }

  /** The answer for a user with this row: the expiry is looked at first, then the quota, then the flag. */
  predicate Told(r: Response, id: string, u: User, now: int) {
    && (r == Denied(HasExpired) <==> IsOver(u, now))
    && (r == Denied(OverQuota) <==> IsSpent(u) && !IsOver(u, now))
    && (r == Denied(Disabled) <==> !u.enabled && !IsSpent(u) && !IsOver(u, now))
    && (r == Allowed(id) <==> u.enabled && !IsSpent(u) && !IsOver(u, now))
  }

  predicate HexOnly(s: string) { forall c | c in s :: IsHex(c) }

  /** Five groups of hexadecimal digits between dashes, of 8, 4, 4, 4 and 12. */
  predicate FiveGroups(parts: seq<string>) {
    && |parts| == 5 && |parts[0]| == 8 && |parts[1]| == 4 && |parts[2]| == 4 && |parts[3]| == 4 && |parts[4]| == 12
    && HexOnly(parts[0]) && HexOnly(parts[1]) && HexOnly(parts[2]) && HexOnly(parts[3]) && HexOnly(parts[4])
  }

  lemma {:induction false} JoinedFive(a: string, b: string, c: string, d: string, e: string)
    ensures Join([a, b, c, d, e], '-') == a + "-" + b + "-" + c + "-" + d + "-" + e
  {
    assert [a, b, c, d, e][1..] == [b, c, d, e] && [b, c, d, e][1..] == [c, d, e];
    assert [c, d, e][1..] == [d, e] && [d, e][1..] == [e];
    assert Join([d, e], '-') == d + "-" + e;
    assert Join([c, d, e], '-') == c + "-" + (d + "-" + e);
    assert Join([b, c, d, e], '-') == b + "-" + (c + "-" + (d + "-" + e));
    assert Join([a, b, c, d, e], '-') == a + "-" + (b + "-" + (c + "-" + (d + "-" + e)));
  }

  lemma {:induction false} GroupsIf(uuid: string)
    requires FiveGroups(Split(uuid, '-'))
    ensures IsUuid(uuid)
  {
    var p := Split(uuid, '-');
    JoinSplit(uuid, '-');
    JoinedFive(p[0], p[1], p[2], p[3], p[4]);
    assert p == [p[0], p[1], p[2], p[3], p[4]];
    assert uuid == p[0] + "-" + p[1] + "-" + p[2] + "-" + p[3] + "-" + p[4];
    forall i | 0 <= i < 36 ensures if i in {8, 13, 18, 23} then uuid[i] == '-' else IsHex(uuid[i]) {
      assert i < 8 ==> uuid[i] == p[0][i];
      assert 8 < i < 13 ==> uuid[i] == p[1][i - 9];
      assert 13 < i < 18 ==> uuid[i] == p[2][i - 14];
      assert 18 < i < 23 ==> uuid[i] == p[3][i - 19];
      assert 23 < i ==> uuid[i] == p[4][i - 24];
    }
  }

  lemma {:induction false} GroupsOnlyIf(uuid: string)
    requires IsUuid(uuid)
    ensures FiveGroups(Split(uuid, '-'))
  {
    var a, b, c, d, e := uuid[..8], uuid[9..13], uuid[14..18], uuid[19..23], uuid[24..];
    assert uuid == a + "-" + b + "-" + c + "-" + d + "-" + e;
    JoinedFive(a, b, c, d, e);
    SplitJoin([a, b, c, d, e], '-');
  }

  /** What is no UUID is refused as such, and nothing else is: a UUID is five groups of digits between dashes. */
  lemma {:induction false} InvalidIff(s: State, uuid: string, getOk: bool, putOk: bool)
    ensures Authorize(s, uuid, getOk, putOk).1 == Denied(InvalidUuid) <==> !FiveGroups(Split(uuid, '-'))
    ensures !FiveGroups(Split(uuid, '-')) ==> Authorize(s, uuid, getOk, putOk).0 == s
  {
    if IsUuid(uuid) { GroupsOnlyIf(uuid); }
    if FiveGroups(Split(uuid, '-')) { GroupsIf(uuid); }
  }

  /** A request whose verdict is not kept is answered by the row of its credential; if there is none, it is for an
      unknown user. */
  lemma {:induction false} FreshAnswer(s: State, uuid: string, getOk: bool, putOk: bool)
    requires WellFormed(s.users) && IsUuid(uuid) && Cached(s, AllowKey(uuid), getOk).None?
    ensures var r := Authorize(s, uuid, getOk, putOk).1;
            && (forall id | Holds(s.users, id, ToLower(uuid)) :: Told(r, id, s.users[id], s.now))
            && (!Held(s.users, ToLower(uuid)) ==> r == Denied(UnknownUuid))
  {
  }

  /** The verdict of such a request is kept for exactly 60 s, in which requests are answered without the table.  Nothing
      else changes, and nothing at all if it cannot be put or is there. */
  lemma {:induction false} VerdictKept(s: State, uuid: string, passed: nat, getOk: bool, putOk: bool, again: bool)
    requires WellFormed(s.users) && IsUuid(uuid)
    ensures var key, (t, r) := AllowKey(uuid), Authorize(s, uuid, getOk, putOk);
            && t.users == s.users && t.now == s.now && t.kv - {key} == s.kv - {key}
            && (Cached(s, key, getOk).Some? || !putOk ==> t == s)
            && (Cached(s, key, getOk).None? && putOk ==>
                  var later := t.(now := s.now + passed);
                  if passed >= 60_000 then Cached(later, key, true).None?
                  else Authorize(later, uuid, true, again) == (later, if r.Allowed? then r else Denied(NotAllowed)))
  {
    var key := AllowKey(uuid);
    if putOk && Cached(s, key, getOk).None? {
      var t := Authorize(s, uuid, getOk, putOk).0;
      assert key in t.kv && t.kv[key].written == s.now && t.kv[key].ttl == 60;
    }
  }

  // ---------------------------------------------------------------- changes by the service

  /** Nothing changes but the row `id` and the keys of these credentials, which are deleted. */
  predicate OnlyRow(s: State, t: State, id: string, credentials: set<string>) {
    && t.now == s.now && t.users - {id} == s.users - {id}
    && t.kv == s.kv - (set c | c in credentials :: AllowKey(c))
  }

  /** `days` after a time, less the part of a second that the text form drops. */
  predicate DaysAfter(e: int, days: int, from: int) {
    from + days * 86_400_000 - 1000 < e <= from + days * 86_400_000 && e % 1000 == 0
  }

  lemma {:induction false} DaysPlus(days: int, from: int)
    ensures DaysAfter(PlusDays(days, from), days, from)
  {
  }

  /** The answer under a credential whose key is gone. */
  ghost predicate TellsRow(t: State, id: string, uuid: string, getOk: bool, putOk: bool) {
    id in t.users && Told(Authorize(t, uuid, getOk, putOk).1, id, t.users[id], t.now)
  }

  lemma {:induction false} RowTold(t: State, id: string, uuid: string, getOk: bool, putOk: bool)
    requires WellFormed(t.users) && IsUuid(uuid) && Holds(t.users, id, ToLower(uuid)) && AllowKey(uuid) !in t.kv
    ensures TellsRow(t, id, uuid, getOk, putOk)
  {
    FreshAnswer(t, uuid, getOk, putOk);
  }

  lemma {:induction false} SameKey(uuid: string)
    ensures AllowKey(ToLower(uuid)) == AllowKey(uuid)
  {
    LowerTwice(uuid);
  }

  /** `createUser`: the credential is allowed exactly by the flag, the quota and the expiry that were given. */
  lemma {:induction false} CreateAnswers(s: State, id: string, credential: string, input: CreateInput, uuid: string,
      getOk: bool, putOk: bool)
    requires Inv(s) && Possible(s, Create(id, credential, input)) && IsUuid(uuid) && ToLower(uuid) == credential
    ensures var t := Next(s, Create(id, credential, input));
            && OnlyRow(s, t, id, {credential}) && TellsRow(t, id, uuid, getOk, putOk)
            && t.users[id].credential == credential && t.users[id].enabled == input.enabled
            && t.users[id].quota == input.quota && t.users[id].used == 0
            && (input.expiresAt.Some? ==> t.users[id].expiresAt == input.expiresAt)
            && (input.expiresAt.None? ==>
                  if input.expiresInDays.Some? && input.expiresInDays.value > 0 then
                    t.users[id].expiresAt.Some?
                    && DaysAfter(t.users[id].expiresAt.value, input.expiresInDays.value, s.now)
                  else t.users[id].expiresAt.None?)
  {
    var t := Next(s, Create(id, credential, input));
    StepKeeps(s, Create(id, credential, input));
    SameKey(uuid);
    if input.expiresInDays.Some? { DaysPlus(input.expiresInDays.value, s.now); }
    RowTold(t, id, uuid, getOk, putOk);
  }

  /** `updateUser`: each field that is given has its value, each other its old one. */
  lemma {:induction false} UpdateAnswers(s: State, id: string, input: UpdateInput, uuid: string, getOk: bool,
      putOk: bool)
    requires Inv(s) && Holds(s.users, id, ToLower(uuid)) && IsUuid(uuid)
    ensures var t := Next(s, Update(id, input));
            && OnlyRow(s, t, id, {s.users[id].credential}) && TellsRow(t, id, uuid, getOk, putOk)
            && t.users[id].credential == s.users[id].credential && t.users[id].used == s.users[id].used
            && t.users[id].enabled == (if input.enabled.Some? then input.enabled.value else s.users[id].enabled)
            && t.users[id].quota == (if input.quota.Some? then input.quota.value else s.users[id].quota)
            && (if input.expiresAt.Some? then t.users[id].expiresAt == input.expiresAt.value
                else if input.expiresInDays.None? then t.users[id].expiresAt == s.users[id].expiresAt
                else if input.expiresInDays.value <= 0 then t.users[id].expiresAt.None?
                else t.users[id].expiresAt.Some?
                     && DaysAfter(t.users[id].expiresAt.value, input.expiresInDays.value, s.now))
  {
    var t := Next(s, Update(id, input));
    StepKeeps(s, Update(id, input));
    SameKey(uuid);
    if input.expiresInDays.Some? { DaysPlus(input.expiresInDays.value, s.now); }
    RowTold(t, id, uuid, getOk, putOk);
  }

  /** `deleteUser`: the row is gone and its credential unknown. */
  lemma {:induction false} RemoveAnswers(s: State, id: string, uuid: string, getOk: bool, putOk: bool)
    requires Inv(s) && Holds(s.users, id, ToLower(uuid)) && IsUuid(uuid)
    ensures var t := Next(s, Remove(id));
            OnlyRow(s, t, id, {s.users[id].credential}) && id !in t.users
            && Authorize(t, uuid, getOk, putOk).1 == Denied(UnknownUuid)
  {
    var t := Next(s, Remove(id));
    StepKeeps(s, Remove(id));
    SameKey(uuid);
    FreshAnswer(t, uuid, getOk, putOk);
  }

  /** `resetTraffic`: nothing is used, so that nobody with a positive quota is refused for it. */
  lemma {:induction false} ResetAnswers(s: State, id: string, uuid: string, getOk: bool, putOk: bool)
    requires Inv(s) && Holds(s.users, id, ToLower(uuid)) && IsUuid(uuid)
    ensures var t, u := Next(s, Reset(id)), s.users[id];
            && OnlyRow(s, t, id, {u.credential}) && TellsRow(t, id, uuid, getOk, putOk)
            && t.users[id] == User(u.credential, u.enabled, u.quota, 0, u.expiresAt)
            && ((u.quota.Some? ==> u.quota.value > 0) ==>
                Authorize(t, uuid, getOk, putOk).1 != Denied(OverQuota))
  {
    var t := Next(s, Reset(id));
    StepKeeps(s, Reset(id));
    SameKey(uuid);
    RowTold(t, id, uuid, getOk, putOk);
  }

  /** `extendUser`: the days are counted from now or from a later expiry, and with a positive number of them nobody is
      refused as expired. */
  lemma {:induction false} ExtendAnswers(s: State, id: string, days: int, uuid: string, getOk: bool, putOk: bool)
    requires Inv(s) && Holds(s.users, id, ToLower(uuid)) && IsUuid(uuid)
    ensures var t, u := Next(s, Extend(id, days)), s.users[id];
            && OnlyRow(s, t, id, {u.credential}) && TellsRow(t, id, uuid, getOk, putOk)
            && t.users[id].expiresAt.Some?
            && DaysAfter(t.users[id].expiresAt.value, days, Max(s.now, u.expiresAt.GetOr(s.now)))
            && t.users[id] == User(u.credential, u.enabled, u.quota, u.used, t.users[id].expiresAt)
            && (days > 0 ==> Authorize(t, uuid, getOk, putOk).1 != Denied(HasExpired))
  {
    var t, u := Next(s, Extend(id, days)), s.users[id];
    StepKeeps(s, Extend(id, days));
    SameKey(uuid);
    DaysPlus(days, Max(s.now, u.expiresAt.GetOr(s.now)));
    RowTold(t, id, uuid, getOk, putOk);
  }

  /** `rotateCredentials`: the old credential is unknown, and the new one is answered by the same row. */
  lemma {:induction false} RotateAnswers(s: State, id: string, credential: string, uuid: string, getOk: bool,
      putOk: bool)
    requires Inv(s) && Possible(s, Rotate(id, credential)) && id in s.users && IsUuid(uuid)
    ensures var t, u := Next(s, Rotate(id, credential)), s.users[id];
            && OnlyRow(s, t, id, {u.credential, credential})
            && id in t.users && t.users[id] == User(credential, u.enabled, u.quota, u.used, u.expiresAt)
            && (ToLower(uuid) == u.credential ==> Authorize(t, uuid, getOk, putOk).1 == Denied(UnknownUuid))
            && (ToLower(uuid) == credential ==> Told(Authorize(t, uuid, getOk, putOk).1, id, u, s.now))
  {
    var t, u := Next(s, Rotate(id, credential)), s.users[id];
    StepKeeps(s, Rotate(id, credential));
    SameKey(uuid);
    assert !Holds(s.users, id, credential);
    if ToLower(uuid) == u.credential || ToLower(uuid) == credential { FreshAnswer(t, uuid, getOk, putOk); }
  }

  /** `setEnabled` */
  lemma {:induction false} EnableAnswers(s: State, id: string, enabled: bool, uuid: string, getOk: bool, putOk: bool)
    requires Inv(s) && Holds(s.users, id, ToLower(uuid)) && IsUuid(uuid)
    ensures var t, u := Next(s, SetEnabled(id, enabled)), s.users[id];
            && OnlyRow(s, t, id, {u.credential}) && TellsRow(t, id, uuid, getOk, putOk)
            && t.users[id] == User(u.credential, enabled, u.quota, u.used, u.expiresAt)
  {
    var t := Next(s, SetEnabled(id, enabled));
    StepKeeps(s, SetEnabled(id, enabled));
    SameKey(uuid);
    RowTold(t, id, uuid, getOk, putOk);
  }

  /** A change for an id that is in no row does nothing. */
  lemma {:induction false} NobodyChanged(s: State, step: Step)
    requires Possible(s, step) && ByService(step) && step.id !in s.users
    ensures Next(s, step) == s
  {
  }

  // ---------------------------------------------------------------- changes by traffic, by the cron job, by priming

  /** `recordTraffic`: a positive count is added to what the user has used; no verdict goes. */
  lemma {:induction false} TrafficAdds(s: State, id: string, bytes: int, uuid: string)
    ensures var t := Next(s, Traffic(id, bytes));
            && t.now == s.now && t.users - {id} == s.users - {id} && (id in t.users <==> id in s.users)
            && (id in s.users ==>
                  var u := s.users[id];
                  t.users[id] == User(u.credential, u.enabled, u.quota, u.used + Max(bytes, 0), u.expiresAt))
            && (AllowKey(uuid) in t.kv <==> AllowKey(uuid) in s.kv)
            && (AllowKey(uuid) in t.kv ==> t.kv[AllowKey(uuid)] == s.kv[AllowKey(uuid)])
  {
    TrafficKeyElsewhere(uuid, id);
  }

  /** `cronHourly`: whoever is enabled and expired by the last whole second is disabled, and answered by the table. */
  lemma {:induction false} CronAnswers(s: State, id: string, uuid: string, getOk: bool, putOk: bool)
    requires Inv(s) && Holds(s.users, id, ToLower(uuid)) && IsUuid(uuid)
    ensures var t, u := Next(s, Cron), s.users[id];
            var due := u.enabled && u.expiresAt.Some? && u.expiresAt.value <= s.now - s.now % 1000;
            && t.now == s.now && t.users.Keys == s.users.Keys
            && t.users[id] == User(u.credential, u.enabled && !due, u.quota, u.used, u.expiresAt)
            && (due ==> TellsRow(t, id, uuid, getOk, putOk))
            && (!due ==> Authorize(t, uuid, getOk, putOk).1 == Authorize(s, uuid, getOk, putOk).1)
  {
    var t := Next(s, Cron);
    StepKeeps(s, Cron);
    SameKey(uuid);
    if Due(s.users[id], s.now) {
      RowTold(t, id, uuid, getOk, putOk);
    } else {
      KeptKey(s, id, uuid);
      if Cached(s, AllowKey(uuid), getOk).None? {
        FreshAnswer(s, uuid, getOk, putOk);
        FreshAnswer(t, uuid, getOk, putOk);
      }
    }
  }

  lemma {:induction false} KeptKey(s: State, id: string, uuid: string)
    requires Inv(s) && Holds(s.users, id, ToLower(uuid)) && !Due(s.users[id], s.now)
    ensures var t := Next(s, Cron);
            && (AllowKey(uuid) in t.kv <==> AllowKey(uuid) in s.kv)
            && (AllowKey(uuid) in t.kv ==> t.kv[AllowKey(uuid)] == s.kv[AllowKey(uuid)])
  {
    SameKey(uuid);
    forall other | other in s.users && Due(s.users[other], s.now)
      ensures AllowKey(s.users[other].credential) != AllowKey(uuid)
    {
      KeysDiffer(s.users[other].credential, ToLower(uuid));
    }
  }

  lemma {:induction false} PrimedAt(s: State, ids: seq<string>, failed: set<string>, key: string)
    requires WellFormed(s.users) && forall id | id in ids :: id in s.users
    ensures var t := Primed(s, ids, failed);
            && t.users == s.users && t.now == s.now
            && (forall id | id in ids && id !in failed && AllowKey(s.users[id].credential) == key ::
                  key in t.kv && t.kv[key] == UserEntry(id, s.users[id], s.now, 300))
            && ((forall id | id in ids && id !in failed :: AllowKey(s.users[id].credential) != key) ==>
                  (key in t.kv <==> key in s.kv) && (key in t.kv ==> t.kv[key] == s.kv[key]))
  {
    if ids != [] {
      var init, last := ids[..|ids| - 1], ids[|ids| - 1];
      assert last in ids && ids == init + [last];
      forall id | id in init ensures id in ids {}
      PrimedAt(s, init, failed, key);
      forall id | id in ids && AllowKey(s.users[id].credential) == key && AllowKey(s.users[last].credential) == key
        ensures id == last
      {
        KeysDiffer(s.users[id].credential, s.users[last].credential);
      }
    }
  }

  /** `primeUserAllowlist`: each row's verdict is kept for exactly 300 s but where the put fails, and nothing else
      changes. */
  lemma {:induction false} PrimeAnswers(s: State, ids: seq<string>, failed: set<string>, uuid: string, passed: nat,
      putOk: bool)
    requires Inv(s) && Possible(s, Prime(ids, failed)) && IsUuid(uuid)
    ensures var t, key := Next(s, Prime(ids, failed)), AllowKey(uuid);
            && t.users == s.users && t.now == s.now
            && (forall id | id in ids && id !in failed && Holds(s.users, id, ToLower(uuid)) ::
                  var later, u := t.(now := s.now + passed), s.users[id];
                  if passed >= 300_000 then Cached(later, key, true).None?
                  else Authorize(later, uuid, true, putOk) ==
                       (later, if u.enabled && !IsSpent(u) && !IsOver(u, s.now) then Allowed(id)
                               else Denied(NotAllowed)))
            && ((forall id | id in ids && id !in failed :: s.users[id].credential != ToLower(uuid)) ==>
                  (key in t.kv <==> key in s.kv) && (key in t.kv ==> t.kv[key] == s.kv[key]))
  {
    var key := AllowKey(uuid);
    SameKey(uuid);
    LowerTwice(uuid);
    PrimedAt(s, ids, failed, key);
    forall id | id in ids ensures AllowKey(s.users[id].credential) == key <==> s.users[id].credential == ToLower(uuid) {
      KeysDiffer(s.users[id].credential, ToLower(uuid));
    }
  }

  // ---------------------------------------------------------------- credentials that are given up

  predicate Draws(step: Step, credential: string) {
    (step.Create? || step.Rotate?) && step.uuid == credential
  }

  lemma {:induction false} DrawnFrom(s: State, step: Step, id: string)
    requires Possible(s, step) && (step.Create? || step.Rotate?) && id in Next(s, step).users
    ensures var credential := Next(s, step).users[id].credential;
            Holds(s.users, id, credential) || Draws(step, credential)
  {
  }

  lemma {:induction false} ChangedFrom(s: State, step: Step, id: string)
    requires Possible(s, step) && (step.Update? || step.Reset? || step.Extend? || step.SetEnabled?)
    requires id in Next(s, step).users
    ensures Holds(s.users, id, Next(s, step).users[id].credential)
  {
  }

  lemma {:induction false} LeftFrom(s: State, step: Step, id: string)
    requires Possible(s, step) && (step.Remove? || step.Traffic? || step.Cron? || step.Evict? || step.Tick?)
    requires id in Next(s, step).users
    ensures Holds(s.users, id, Next(s, step).users[id].credential)
  {
  }

  lemma {:induction false} SameUsers(s: State, step: Step)
    requires Inv(s) && Possible(s, step) && (step.Request? || step.Prime?)
    ensures Next(s, step).users == s.users
  {
    if step.Prime? { PrimeKeeps(s, step.ids, step.failed); }
  }

  lemma {:induction false} StillUnheld(s: State, step: Step, credential: string)
    requires Inv(s) && Possible(s, step) && !Held(s.users, credential) && !Draws(step, credential)
    ensures !Held(Next(s, step).users, credential)
  {
    var users := Next(s, step).users;
    if step.Request? || step.Prime? { SameUsers(s, step); }
    forall id ensures !Holds(users, id, credential) {
      assert !Holds(s.users, id, credential);
      if id in users {
        if step.Create? || step.Rotate? { DrawnFrom(s, step, id); }
        else if step.Update? || step.Reset? || step.Extend? || step.SetEnabled? { ChangedFrom(s, step, id); }
        else if !step.Request? && !step.Prime? { LeftFrom(s, step, id); }
      }
    }
  }

  /** A rotation or deletion by which this credential is given up. */
  predicate GivesUp(s: State, step: Step, credential: string) {
    (step.Rotate? || step.Remove?) && Holds(s.users, step.id, credential)
  }

  lemma {:induction false} GivenUp(s: State, step: Step, credential: string)
    requires Inv(s) && Possible(s, step) && GivesUp(s, step, credential)
    ensures !Held(Next(s, step).users, credential)
  {
    forall id ensures !Holds(Next(s, step).users, id, credential) {
      assert Holds(s.users, step.id, credential);
    }
  }

  lemma {:induction false} UnheldNext(run: seq<State>, steps: seq<Step>, k: nat, credential: string)
    requires IsRun(run, steps) && Initial(run[0]) && k + 1 < |run|
    requires GivesUp(run[k], steps[k], credential)
             || (!Held(run[k].users, credential) && !Draws(steps[k], credential))
    ensures !Held(run[k + 1].users, credential)
  {
    var s, step := run[k], steps[k];
    RunKeeps(run, steps, k);
    assert Possible(s, step) && run[k + 1] == Next(s, step);
    if GivesUp(s, step, credential) { GivenUp(s, step, credential); } else { StillUnheld(s, step, credential); }
  }

  lemma {:induction false} UnheldLater(run: seq<State>, steps: seq<Step>, i: nat, j: nat, credential: string)
    requires IsRun(run, steps) && Initial(run[0]) && i < j < |run| && GivesUp(run[i], steps[i], credential)
    requires forall k | i < k < j :: !Draws(steps[k], credential)
    ensures !Held(run[j].users, credential)
  {
    if j > i + 1 { UnheldLater(run, steps, i, j - 1, credential); }
    UnheldNext(run, steps, j - 1, credential);
  }

  /** In every run, a credential that was given up is never allowed again, whatever is cached, until it is drawn
      anew. */
  lemma {:induction false} GivenUpForGood(run: seq<State>, steps: seq<Step>, i: nat, j: nat, uuid: string, getOk: bool,
      putOk: bool)
    requires IsRun(run, steps) && Initial(run[0]) && i < j < |run| && IsUuid(uuid)
    requires GivesUp(run[i], steps[i], ToLower(uuid)) && forall k | i < k < j :: !Draws(steps[k], ToLower(uuid))
    ensures Authorize(run[j], uuid, getOk, putOk).1.Denied?
  {
    UnheldLater(run, steps, i, j, ToLower(uuid));
    AnswerSound(run, steps, j, uuid, getOk, putOk);
  }
}
