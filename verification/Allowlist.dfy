/** The edge's user allowlist: verdicts cached in KV in front of the user table, and every operation that changes
    either. Each operation is a function from state to state; the service's methods are proved against them. */
module Allowlist {
  import opened Numbers
  import opened Text

  /** A row of `users`, as far as a verdict depends on it.  Times are milliseconds. */
  datatype User = User(credential: string, enabled: bool, quota: Option<int>, used: int, expiresAt: Option<int>)

  /** A cached verdict with the time it was put and its `expirationTtl` in seconds.  `seen` is history: the row that the
      verdict was computed from. */
  datatype Entry = Entry(userId: string, allowed: bool, written: int, ttl: nat, seen: Option<User>)

  datatype State = State(users: map<string, User>, kv: map<string, Entry>, now: int)

  predicate Expired(u: User, now: int) { u.expiresAt.Some? && u.expiresAt.value <= now }

  predicate Exhausted(u: User) { u.quota.Some? && u.used >= u.quota.value }

  /** What the table says about a user. */
  predicate Good(u: User, now: int) { u.enabled && !Expired(u, now) && !Exhausted(u) }

  predicate Live(e: Entry, now: int) { now < e.written + 1000 * e.ttl }

  function AllowKey(uuid: string): string { "edge:user:" + ToLower(uuid) }

  /** The key that `recordTraffic` deletes. */
  function TrafficKey(id: string): string { "edge:usercache:" + id }

  /** The text form of a UUID, in either case. */
  predicate IsUuid(s: string) {
    |s| == 36 && forall i | 0 <= i < 36 :: if i in {8, 13, 18, 23} then s[i] == '-' else IsHex(s[i])
  }

  predicate Holds(users: map<string, User>, id: string, credential: string) {
    id in users && users[id].credential == credential
  }

  ghost predicate Held(users: map<string, User>, credential: string) { exists id :: Holds(users, id, credential) }

  /** `SELECT … FROM users WHERE credential_uuid = ?` */
  ghost function Lookup(users: map<string, User>, credential: string): (r: Option<string>)
    ensures r.Some? ==> Holds(users, r.value, credential)
    ensures r.None? ==> !Held(users, credential)
  {
    if Held(users, credential) then
      var id :| Holds(users, id, credential);
      Some(id)
    else None
  }

  /** `KV.get`, which answers nothing for an expired entry and, through its `catch`, for a failed call. */
  function Cached(s: State, key: string, getOk: bool): Option<Entry> {
    if getOk && key in s.kv && Live(s.kv[key], s.now) then Some(s.kv[key]) else None
  }

  /** `KV.put`, whose failure is swallowed. */
  function Put(s: State, key: string, e: Entry, putOk: bool): State {
    if putOk then s.(kv := s.kv[key := e]) else s
  }

  function Delete(s: State, keys: set<string>): State { s.(kv := s.kv - keys) }

  // ---------------------------------------------------------------- authorizing

  datatype Reason = InvalidUuid | NotAllowed | UnknownUuid | HasExpired | OverQuota | Disabled

  datatype Response = Allowed(userId: string) | Denied(reason: Reason)

  function UserEntry(id: string, u: User, now: int, ttl: nat): Entry { Entry(id, Good(u, now), now, ttl, Some(u)) }

  function NobodyEntry(now: int): Entry { Entry("", false, now, 60, None) }

  function Answer(id: string, u: User, now: int): Response {
    if Good(u, now) then Allowed(id)
    else Denied(if Expired(u, now) then HasExpired else if Exhausted(u) then OverQuota else Disabled)
  }

  function CachedAnswer(e: Entry): Response { if e.allowed then Allowed(e.userId) else Denied(NotAllowed) }

  /** `authorizeUuid` */
  ghost function Authorize(s: State, uuid: string, getOk: bool, putOk: bool): (State, Response) {
    var key := AllowKey(uuid);
    if !IsUuid(uuid) then (s, Denied(InvalidUuid))
    else if Cached(s, key, getOk).Some? then (s, CachedAnswer(Cached(s, key, getOk).value))
    else
      match Lookup(s.users, ToLower(uuid))
      case None => (Put(s, key, NobodyEntry(s.now), putOk), Denied(UnknownUuid))
      case Some(id) => (Put(s, key, UserEntry(id, s.users[id], s.now, 60), putOk), Answer(id, s.users[id], s.now))
  }

  // ---------------------------------------------------------------- the user service

  const DAY := 86_400_000

  /** `isoPlusDays`: the text form keeps whole seconds. */
  function PlusDays(days: int, from: int): int { WholeSecond(from + days * DAY) }

  datatype CreateInput = CreateInput(enabled: bool, quota: Option<int>, expiresAt: Option<int>,
      expiresInDays: Option<int>)

  function NewUser(input: CreateInput, uuid: string, now: int): User {
    var expiresAt :=
      if input.expiresAt.Some? then input.expiresAt
      else if input.expiresInDays.Some? && input.expiresInDays.value > 0
          then Some(PlusDays(input.expiresInDays.value, now))
      else None;
    User(uuid, input.enabled, input.quota, 0, expiresAt)
  }

  /** `createUser`, with the id and credential that were drawn. */
  function Created(s: State, id: string, uuid: string, input: CreateInput): State {
    Delete(s.(users := s.users[id := NewUser(input, uuid, s.now)]), {AllowKey(uuid)})
  }

  /** The fields a caller may leave out; an inner `None` is `null`. */
  datatype UpdateInput = UpdateInput(enabled: Option<bool>, quota: Option<Option<int>>,
      expiresAt: Option<Option<int>>, expiresInDays: Option<int>)

  function Updated(u: User, input: UpdateInput, now: int): User {
    u.(quota := input.quota.GetOr(u.quota),
       enabled := input.enabled.GetOr(u.enabled),
       expiresAt :=
         if input.expiresAt.Some? then input.expiresAt.value
         else if input.expiresInDays.None? then u.expiresAt
         else if input.expiresInDays.value > 0 then Some(PlusDays(input.expiresInDays.value, now))
         else None)
  }

  /** Replaces a row and deletes the keys of its old and its new credential. */
  function Replace(s: State, id: string, u: User): State
    requires id in s.users
  {
    Delete(s.(users := s.users[id := u]), {AllowKey(s.users[id].credential), AllowKey(u.credential)})
  }

  /** `updateUser` */
  function UpdatedUser(s: State, id: string, input: UpdateInput): State {
    if id in s.users then Replace(s, id, Updated(s.users[id], input, s.now)) else s
  }

  /** `deleteUser` */
  function DeletedUser(s: State, id: string): State {
    if id in s.users then Delete(s.(users := s.users - {id}), {AllowKey(s.users[id].credential)}) else s
  }

  /** `resetTraffic` */
  function ResetTraffic(s: State, id: string): State {
    if id in s.users then Replace(s, id, s.users[id].(used := 0)) else s
  }

  function ExtendedTo(u: User, days: int, now: int): int {
    PlusDays(days, if u.expiresAt.Some? && u.expiresAt.value > now then u.expiresAt.value else now)
  }

  /** `extendUser` */
  function ExtendedUser(s: State, id: string, days: int): State {
    if id in s.users then Replace(s, id, s.users[id].(expiresAt := Some(ExtendedTo(s.users[id], days, s.now)))) else s
  }

  /** `rotateCredentials`, with the credential that was drawn. */
  function Rotated(s: State, id: string, uuid: string): State {
    if id in s.users then Replace(s, id, s.users[id].(credential := uuid)) else s
  }

  /** `setEnabled` */
  function EnabledSet(s: State, id: string, enabled: bool): State {
    if id in s.users then Replace(s, id, s.users[id].(enabled := enabled)) else s
  }

  /** `recordTraffic` */
  function TrafficRecorded(s: State, id: string, bytes: int): State {
    if bytes <= 0 then s
    else
      var users := if id in s.users then s.users[id := s.users[id].(used := s.users[id].used + bytes)] else s.users;
      Delete(s.(users := users), {TrafficKey(id)})
  }

  /** The rows that the hourly job disables: it compares with the time in whole seconds. */
  predicate Due(u: User, now: int) { u.enabled && Expired(u, WholeSecond(now)) }

  function DueIds(s: State): set<string> { set id | id in s.users && Due(s.users[id], s.now) }

  /** The expiry part of `cronHourly`, for the rows `ids` of those that are due. */
  function ExpiredDisabled(s: State, ids: set<string>): State {
    Delete(s.(users := map id | id in s.users :: if id in ids then s.users[id].(enabled := false) else s.users[id]),
           set id | id in s.users && id in ids :: AllowKey(s.users[id].credential))
  }

  /** `primeUserAllowlist` for the rows `ids`; the puts of `failed` fail. */
  function Primed(s: State, ids: seq<string>, failed: set<string>): State
    requires forall id | id in ids :: id in s.users
  {
    if ids == [] then s
    else
      var id := ids[|ids| - 1];
      Put(Primed(s, ids[..|ids| - 1], failed), AllowKey(s.users[id].credential),
          UserEntry(id, s.users[id], s.now, 300), id !in failed)
  }

  // ---------------------------------------------------------------- runs

  datatype Step =
    | Create(id: string, uuid: string, input: CreateInput)
    | Update(id: string, change: UpdateInput)
    | Remove(id: string)
    | Reset(id: string)
    | Extend(id: string, days: int)
    | Rotate(id: string, uuid: string)
    | SetEnabled(id: string, enabled: bool)
    | Traffic(id: string, bytes: int)
    | Cron
    | Prime(ids: seq<string>, failed: set<string>)
    | Request(uuid: string, getOk: bool, putOk: bool)
    | Evict(keys: set<string>)
    | Tick(passed: nat)

  /** Drawn ids and credentials are new; credentials come in lower case. */
  ghost predicate Possible(s: State, step: Step) {
    match step
    case Create(id, uuid, _) => id !in s.users && !Held(s.users, uuid) && ToLower(uuid) == uuid
    case Rotate(_, uuid) => !Held(s.users, uuid) && ToLower(uuid) == uuid
    case Prime(ids, _) => forall id | id in ids :: id in s.users
    case _ => true
  }

  ghost function Next(s: State, step: Step): State
    requires Possible(s, step)
  {
    match step
    case Create(id, uuid, input) => Created(s, id, uuid, input)
    case Update(id, change) => UpdatedUser(s, id, change)
    case Remove(id) => DeletedUser(s, id)
    case Reset(id) => ResetTraffic(s, id)
    case Extend(id, days) => ExtendedUser(s, id, days)
    case Rotate(id, uuid) => Rotated(s, id, uuid)
    case SetEnabled(id, enabled) => EnabledSet(s, id, enabled)
    case Traffic(id, bytes) => TrafficRecorded(s, id, bytes)
    case Cron => ExpiredDisabled(s, DueIds(s))
    case Prime(ids, failed) => Primed(s, ids, failed)
    case Request(uuid, getOk, putOk) => Authorize(s, uuid, getOk, putOk).0
    case Evict(keys) => Delete(s, keys)
    case Tick(passed) => s.(now := s.now + passed)
  }

  ghost predicate IsRun(run: seq<State>, steps: seq<Step>) {
    && |run| == |steps| + 1
    && forall i | 0 <= i < |steps| :: Possible(run[i], steps[i]) && run[i + 1] == Next(run[i], steps[i])
  }

  /** An empty cache in front of a table whose credentials are distinct and in lower case. */
  ghost predicate Initial(s: State) { s.kv == map[] && WellFormed(s.users) }

  ghost predicate WellFormed(users: map<string, User>) {
    && (forall id | id in users :: ToLower(users[id].credential) == users[id].credential)
    && (forall a, b | a in users && b in users && users[a].credential == users[b].credential :: a == b)
  }

  // ---------------------------------------------------------------- the invariant

  /** The row now differs from the row seen only in traffic counted since. */
  predicate OnlyTraffic(seen: User, row: User) { row == seen.(used := row.used) && row.used >= seen.used }

  ghost predicate EntryOk(users: map<string, User>, uuid: string, e: Entry, now: int) {
    && e.written <= now && (e.ttl == 60 || e.ttl == 300)
    && match e.seen
       case None => !e.allowed && !Held(users, uuid)
       case Some(row) =>
         && Holds(users, e.userId, uuid)
         && OnlyTraffic(row, users[e.userId])
         && e.allowed == Good(row, e.written)
  }

  ghost predicate CacheOk(s: State) {
    forall uuid | ToLower(uuid) == uuid && AllowKey(uuid) in s.kv && Live(s.kv[AllowKey(uuid)], s.now) ::
      EntryOk(s.users, uuid, s.kv[AllowKey(uuid)], s.now)
  }

  ghost predicate Inv(s: State) { WellFormed(s.users) && CacheOk(s) }

  lemma {:induction false} KeysDiffer(a: string, b: string)
    requires ToLower(a) == a && ToLower(b) == b
    ensures AllowKey(a) == AllowKey(b) <==> a == b
  {
    if AllowKey(a) == AllowKey(b) {
      assert a == AllowKey(a)[10..] && b == AllowKey(b)[10..];
    }
  }

  /** The key that `recordTraffic` deletes is never one of the allowlist. */
  lemma {:induction false} TrafficKeyElsewhere(uuid: string, id: string)
    ensures AllowKey(uuid) != TrafficKey(id)
  {
    assert AllowKey(uuid)[9] == ':' && TrafficKey(id)[9] == 'c';
  }

  /** `after` is `before` with the rows `ids` added, changed or removed, and with their keys, under the old credential
      and the new, deleted. */
  ghost predicate Touches(before: State, after: State, ids: set<string>) {
    && after.now == before.now
    && (forall id | id !in ids :: (id in before.users <==> id in after.users)
          && (id in before.users ==> before.users[id] == after.users[id]))
    && (forall key | key in after.kv :: key in before.kv && after.kv[key] == before.kv[key])
    && (forall id | id in ids && id in before.users :: AllowKey(before.users[id].credential) !in after.kv)
    && (forall id | id in ids && id in after.users :: AllowKey(after.users[id].credential) !in after.kv)
  }

  lemma {:induction false} TouchesKeeps(before: State, after: State, ids: set<string>)
    requires Inv(before) && WellFormed(after.users) && Touches(before, after, ids)
    ensures Inv(after)
  {
    forall uuid | ToLower(uuid) == uuid && AllowKey(uuid) in after.kv && Live(after.kv[AllowKey(uuid)], after.now)
      ensures EntryOk(after.users, uuid, after.kv[AllowKey(uuid)], after.now)
    {
      var e := before.kv[AllowKey(uuid)];
      assert EntryOk(before.users, uuid, e, before.now);
      if e.seen.None? {
        forall id ensures !Holds(after.users, id, uuid) { assert !Holds(before.users, id, uuid); }
      } else {
        assert Holds(before.users, e.userId, uuid);
        assert e.userId !in ids;
      }
    }
  }

  lemma {:induction false} WellFormedWith(users: map<string, User>, id: string, u: User)
    requires WellFormed(users) && ToLower(u.credential) == u.credential
    requires (id in users && u.credential == users[id].credential) || !Held(users, u.credential)
    ensures WellFormed(users[id := u])
  {
    forall i | i in users && i != id
      ensures users[i].credential != u.credential
    {
      assert Holds(users, i, users[i].credential);
    }
  }

  lemma {:induction false} ReplaceKeeps(s: State, id: string, u: User)
    requires Inv(s) && id in s.users && ToLower(u.credential) == u.credential
    requires u.credential == s.users[id].credential || !Held(s.users, u.credential)
    ensures Inv(Replace(s, id, u))
  {
    var after := Replace(s, id, u);
    WellFormedWith(s.users, id, u);
    TouchesKeeps(s, after, {id});
  }

  lemma {:induction false} CreateKeeps(s: State, id: string, uuid: string, input: CreateInput)
    requires Inv(s) && Possible(s, Create(id, uuid, input))
    ensures Inv(Created(s, id, uuid, input))
  {
    var after := Created(s, id, uuid, input);
    WellFormedWith(s.users, id, NewUser(input, uuid, s.now));
    TouchesKeeps(s, after, {id});
  }

  lemma {:induction false} DeleteKeeps(s: State, keys: set<string>)
    requires Inv(s)
    ensures Inv(Delete(s, keys))
  {
    TouchesKeeps(s, Delete(s, keys), {});
  }

  lemma {:induction false} RemoveKeeps(s: State, id: string)
    requires Inv(s)
    ensures Inv(DeletedUser(s, id))
  {
    if id in s.users { TouchesKeeps(s, DeletedUser(s, id), {id}); }
  }

  lemma {:induction false} CronKeeps(s: State, ids: set<string>)
    requires Inv(s)
    ensures Inv(ExpiredDisabled(s, ids))
  {
    var after := ExpiredDisabled(s, ids);
    forall a | a in after.users ensures after.users[a].credential == s.users[a].credential {}
    TouchesKeeps(s, after, ids);
  }

  lemma {:induction false} TrafficKeeps(s: State, id: string, bytes: int)
    requires Inv(s)
    ensures Inv(TrafficRecorded(s, id, bytes))
  {
    var after := TrafficRecorded(s, id, bytes);
    if bytes > 0 {
      forall a | a in after.users ensures after.users[a].credential == s.users[a].credential {}
      forall uuid | ToLower(uuid) == uuid && AllowKey(uuid) in after.kv && Live(after.kv[AllowKey(uuid)], after.now)
        ensures EntryOk(after.users, uuid, after.kv[AllowKey(uuid)], after.now)
      {
        var e := s.kv[AllowKey(uuid)];
        assert EntryOk(s.users, uuid, e, s.now);
        forall i | Holds(after.users, i, uuid) ensures Holds(s.users, i, uuid) {}
      }
    }
  }

  lemma {:induction false} TickKeeps(s: State, passed: nat)
    requires Inv(s)
    ensures Inv(s.(now := s.now + passed))
  {
    var after := s.(now := s.now + passed);
    forall uuid | ToLower(uuid) == uuid && AllowKey(uuid) in after.kv && Live(after.kv[AllowKey(uuid)], after.now)
      ensures EntryOk(after.users, uuid, after.kv[AllowKey(uuid)], after.now)
    {
      assert EntryOk(s.users, uuid, s.kv[AllowKey(uuid)], s.now);
    }
  }

  lemma {:induction false} PutKeeps(s: State, uuid: string, e: Entry, putOk: bool)
    requires Inv(s) && ToLower(uuid) == uuid && EntryOk(s.users, uuid, e, s.now)
    ensures Inv(Put(s, AllowKey(uuid), e, putOk))
  {
    var after := Put(s, AllowKey(uuid), e, putOk);
    forall u | ToLower(u) == u && AllowKey(u) in after.kv && Live(after.kv[AllowKey(u)], after.now)
      ensures EntryOk(after.users, u, after.kv[AllowKey(u)], after.now)
    {
      KeysDiffer(u, uuid);
      if u != uuid || !putOk { assert EntryOk(s.users, u, s.kv[AllowKey(u)], s.now); }
    }
  }

  lemma {:induction false} PrimeKeeps(s: State, ids: seq<string>, failed: set<string>)
    requires Inv(s) && forall id | id in ids :: id in s.users
    ensures var t := Primed(s, ids, failed); Inv(t) && t.users == s.users && t.now == s.now
  {
    if ids != [] {
      var id := ids[|ids| - 1];
      PrimeKeeps(s, ids[..|ids| - 1], failed);
      PutKeeps(Primed(s, ids[..|ids| - 1], failed), s.users[id].credential, UserEntry(id, s.users[id], s.now, 300),
          id !in failed);
    }
  }

  lemma {:induction false} LowerTwice(s: string)
    ensures ToLower(ToLower(s)) == ToLower(s)
  {
    if s != "" {
      LowerTwice(s[1..]);
      assert ToLower(s)[1..] == ToLower(s[1..]);
    }
  }

  lemma {:induction false} AuthorizeKeeps(s: State, uuid: string, getOk: bool, putOk: bool)
    requires Inv(s)
    ensures Inv(Authorize(s, uuid, getOk, putOk).0)
  {
    var lower := ToLower(uuid);
    LowerTwice(uuid);
    assert AllowKey(uuid) == AllowKey(lower);
    if IsUuid(uuid) && Cached(s, AllowKey(uuid), getOk).None? {
      var found := Lookup(s.users, lower);
      if found.Some? {
        PutKeeps(s, lower, UserEntry(found.value, s.users[found.value], s.now, 60), putOk);
      } else {
        PutKeeps(s, lower, NobodyEntry(s.now), putOk);
      }
    }
  }

  /** Every step keeps the invariant. */
  lemma {:induction false} StepKeeps(s: State, step: Step)
    requires Inv(s) && Possible(s, step)
    ensures Inv(Next(s, step))
  {
    match step
    case Create(id, uuid, input) => CreateKeeps(s, id, uuid, input);
    case Update(id, change) => if id in s.users { ReplaceKeeps(s, id, Updated(s.users[id], change, s.now)); }
    case Remove(id) => RemoveKeeps(s, id);
    case Reset(id) => if id in s.users { ReplaceKeeps(s, id, s.users[id].(used := 0)); }
    case Extend(id, days) =>
      if id in s.users {
        ReplaceKeeps(s, id, s.users[id].(expiresAt := Some(ExtendedTo(s.users[id], days, s.now))));
      }
    case Rotate(id, uuid) => if id in s.users { ReplaceKeeps(s, id, s.users[id].(credential := uuid)); }
    case SetEnabled(id, enabled) => if id in s.users { ReplaceKeeps(s, id, s.users[id].(enabled := enabled)); }
    case Traffic(id, bytes) => TrafficKeeps(s, id, bytes);
    case Cron => CronKeeps(s, DueIds(s));
    case Prime(ids, failed) => PrimeKeeps(s, ids, failed);
    case Request(uuid, getOk, putOk) => AuthorizeKeeps(s, uuid, getOk, putOk);
    case Evict(keys) => DeleteKeeps(s, keys);
    case Tick(passed) => TickKeeps(s, passed);
  }

  lemma {:induction false} RunKeeps(run: seq<State>, steps: seq<Step>, i: nat)
    requires IsRun(run, steps) && Initial(run[0]) && i < |run|
    ensures Inv(run[i])
  {
    if i > 0 {
      RunKeeps(run, steps, i - 1);
      assert Possible(run[i - 1], steps[i - 1]) && run[i] == Next(run[i - 1], steps[i - 1]);
      StepKeeps(run[i - 1], steps[i - 1]);
    }
  }

  // ---------------------------------------------------------------- what a request is told

  /** The verdict of the table alone. */
  ghost predicate Permitted(s: State, uuid: string) {
    exists id :: Holds(s.users, id, ToLower(uuid)) && Good(s.users[id], s.now)
  }

  /** How an allowed user may have become unfit since its entry was put, less than the entry's 60 or 300 seconds ago:
      the row passed the check then, nothing but its traffic has changed, and the expiry or the quota was reached in
      between. */
  predicate Lagging(row: User, e: Entry, now: int) {
    && e.seen.Some? && Good(e.seen.value, e.written) && OnlyTraffic(e.seen.value, row)
    && (e.ttl == 60 || e.ttl == 300) && e.written <= now < e.written + 1000 * e.ttl
    && (|| (row.expiresAt.Some? && e.written < row.expiresAt.value <= now)
        || (row.quota.Some? && e.seen.value.used < row.quota.value <= row.used))
  }

  /** In every run, whatever the cache holds: a denial is what the table says, and an allowance is for an enabled
      user of that credential whom the table allows too, or whose expiry or quota was reached within the entry's
      lifetime. */
  lemma {:induction false} AnswerSound(run: seq<State>, steps: seq<Step>, i: nat, uuid: string, getOk: bool,
      putOk: bool)
    requires IsRun(run, steps) && Initial(run[0]) && i < |run| && IsUuid(uuid)
    ensures var s := run[i]; var r := Authorize(s, uuid, getOk, putOk).1;
            && (r.Denied? ==> !Permitted(s, uuid))
            && (r.Allowed? ==>
                  && Holds(s.users, r.userId, ToLower(uuid)) && s.users[r.userId].enabled
                  && (|| Good(s.users[r.userId], s.now)
                      || (AllowKey(uuid) in s.kv && Lagging(s.users[r.userId], s.kv[AllowKey(uuid)], s.now))))
  {
    RunKeeps(run, steps, i);
    AnswerAt(run[i], uuid, getOk, putOk);
  }

  lemma {:induction false} OnlyHolder(s: State, id: string, uuid: string)
    requires WellFormed(s.users) && Holds(s.users, id, ToLower(uuid))
    ensures Permitted(s, uuid) <==> Good(s.users[id], s.now)
  {
  }

  lemma {:induction false} AnswerAt(s: State, uuid: string, getOk: bool, putOk: bool)
    requires Inv(s) && IsUuid(uuid)
    ensures var r := Authorize(s, uuid, getOk, putOk).1;
            && (r.Denied? ==> !Permitted(s, uuid))
            && (r.Allowed? ==>
                  && Holds(s.users, r.userId, ToLower(uuid)) && s.users[r.userId].enabled
                  && (|| Good(s.users[r.userId], s.now)
                      || (AllowKey(uuid) in s.kv && Lagging(s.users[r.userId], s.kv[AllowKey(uuid)], s.now))))
  {
    var lower := ToLower(uuid);
    LowerTwice(uuid);
    assert AllowKey(uuid) == AllowKey(lower);
    var cached := Cached(s, AllowKey(uuid), getOk);
    if cached.Some? {
      var e := cached.value;
      assert EntryOk(s.users, lower, e, s.now);
      if e.seen.Some? { OnlyHolder(s, e.userId, uuid); }
    } else {
      var found := Lookup(s.users, lower);
      if found.Some? { OnlyHolder(s, found.value, uuid); }
    }
  }

  /** Without a live entry the answer is the table's. */
  lemma {:induction false} UncachedExact(s: State, uuid: string, getOk: bool, putOk: bool)
    requires WellFormed(s.users) && IsUuid(uuid) && Cached(s, AllowKey(uuid), getOk).None?
    ensures Authorize(s, uuid, getOk, putOk).1.Allowed? <==> Permitted(s, uuid)
  {
    var found := Lookup(s.users, ToLower(uuid));
    if found.Some? { OnlyHolder(s, found.value, uuid); }
  }

  /** The changes made through the user service. */
  predicate ByService(step: Step) {
    step.Update? || step.Remove? || step.Reset? || step.Extend? || step.Rotate? || step.SetEnabled?
  }

  /** Such a change takes effect at the next request, under the old and the new credential. */
  lemma {:induction false} ChangesTakeEffect(s: State, step: Step, uuid: string, getOk: bool, putOk: bool)
    requires Inv(s) && Possible(s, step) && IsUuid(uuid)
    requires ByService(step) && step.id in s.users
    requires ToLower(uuid) == s.users[step.id].credential || Holds(Next(s, step).users, step.id, ToLower(uuid))
    ensures var t := Next(s, step); Authorize(t, uuid, getOk, putOk).1.Allowed? <==> Permitted(t, uuid)
  {
    var t := Next(s, step);
    LowerTwice(uuid);
    assert AllowKey(uuid) == AllowKey(ToLower(uuid));
    StepKeeps(s, step);
    UncachedExact(t, uuid, getOk, putOk);
  }

  // ---------------------------------------------------------------- what the cache cannot do

  /** Whether a request is told what the table says. */
  ghost predicate AnswersRight(s: State, uuid: string, getOk: bool, putOk: bool) {
    Authorize(s, uuid, getOk, putOk).1.Allowed? <==> Permitted(s, uuid)
  }

  /** A live entry holds this verdict. */
  predicate Remembers(s: State, uuid: string, getOk: bool, allowed: bool) {
    var cached := Cached(s, AllowKey(uuid), getOk);
    cached.Some? && cached.value.allowed == allowed
  }

  lemma {:induction false} WrongIff(s: State, uuid: string, getOk: bool, putOk: bool)
    requires WellFormed(s.users) && IsUuid(uuid)
    ensures AnswersRight(s, uuid, getOk, putOk) <==> !Remembers(s, uuid, getOk, !Permitted(s, uuid))
  {
    if Cached(s, AllowKey(uuid), getOk).None? { UncachedExact(s, uuid, getOk, putOk); }
  }

  /** Traffic leaves the user's entry where it is.  The next answer is wrong exactly when a live entry allows the user
      and the row with the new traffic is no longer good; the user is then allowed still. */
  lemma {:induction false} TrafficLags(s: State, id: string, bytes: int, uuid: string, getOk: bool, putOk: bool)
    requires Inv(s) && id in s.users && IsUuid(uuid) && ToLower(uuid) == s.users[id].credential
    ensures var t := TrafficRecorded(s, id, bytes);
            var row := s.users[id].(used := s.users[id].used + Max(bytes, 0));
            && (AnswersRight(t, uuid, getOk, putOk) <==> !(Remembers(s, uuid, getOk, true) && !Good(row, s.now)))
            && (!AnswersRight(t, uuid, getOk, putOk) ==> Authorize(t, uuid, getOk, putOk).1 == Allowed(id))
  {
    var t := TrafficRecorded(s, id, bytes);
    var lower := ToLower(uuid);
    assert AllowKey(uuid) == AllowKey(lower);
    TrafficKeyElsewhere(uuid, id);
    TrafficKeeps(s, id, bytes);
    WrongIff(t, uuid, getOk, putOk);
    assert Holds(t.users, id, lower);
    OnlyHolder(t, id, uuid);
    if Cached(t, AllowKey(uuid), getOk).Some? { LiveVerdict(t, id, uuid); }
  }

  /** What a live entry says of the user that holds the credential: a denied one is not good now. */
  lemma {:induction false} LiveVerdict(s: State, id: string, uuid: string)
    requires Inv(s) && Holds(s.users, id, ToLower(uuid))
    requires AllowKey(uuid) in s.kv && Live(s.kv[AllowKey(uuid)], s.now)
    ensures var e := s.kv[AllowKey(uuid)]; e.userId == id && (!e.allowed ==> !Good(s.users[id], s.now))
  {
    LowerTwice(uuid);
    assert AllowKey(uuid) == AllowKey(ToLower(uuid));
    assert EntryOk(s.users, ToLower(uuid), s.kv[AllowKey(uuid)], s.now);
  }

  /** Deleting the keys is needed.  If that fails, the answer after a change is wrong exactly when a live entry holds
      the verdict opposite to that of the new table; after disabling, exactly when a live entry allows the user. */
  lemma {:induction false} FailedDeleteLags(s: State, step: Step, uuid: string, getOk: bool, putOk: bool)
    requires Inv(s) && Possible(s, step) && IsUuid(uuid) && ByService(step)
    ensures var t := Next(s, step).(kv := s.kv);
            AnswersRight(t, uuid, getOk, putOk) <==> !Remembers(s, uuid, getOk, !Permitted(t, uuid))
    ensures step.SetEnabled? && !step.enabled && Holds(s.users, step.id, ToLower(uuid)) ==>
              var t := Next(s, step).(kv := s.kv);
              !Permitted(t, uuid) && (AnswersRight(t, uuid, getOk, putOk) <==> !Remembers(s, uuid, getOk, true))
  {
    var t := Next(s, step).(kv := s.kv);
    StepKeeps(s, step);
    WrongIff(t, uuid, getOk, putOk);
    if step.SetEnabled? && !step.enabled && Holds(s.users, step.id, ToLower(uuid)) {
      assert Holds(t.users, step.id, ToLower(uuid));
      OnlyHolder(t, step.id, uuid);
    }
  }
}
