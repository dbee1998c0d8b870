/** The operations on the user table and the allowlist as they run, each proved against its function in `Allowlist`. */
module AllowlistService {
  import opened Text
  import opened Allowlist

  /** One `column = ?` of an update. */
  datatype Assignment = Quota(quota: Option<int>) | Flag(enabled: bool) | Expiry(expiresAt: Option<int>)

  function Assign(u: User, a: Assignment): User {
    match a
    case Quota(q) => u.(quota := q)
    case Flag(e) => u.(enabled := e)
    case Expiry(t) => u.(expiresAt := t)
  }

  /** `UPDATE users SET …` with the assignments in their order. */
  function AssignAll(u: User, sets: seq<Assignment>): User {
    if sets == [] then u else Assign(AssignAll(u, sets[..|sets| - 1]), sets[|sets| - 1])
  }

  lemma {:induction false} AssignNext(u: User, sets: seq<Assignment>, a: Assignment)
    ensures AssignAll(u, sets + [a]) == Assign(AssignAll(u, sets), a)
  {
  }

  /** `push` */
  method Push(sets: seq<Assignment>, a: Assignment, ghost u: User) returns (more: seq<Assignment>)
    ensures more == sets + [a] && AssignAll(u, more) == Assign(AssignAll(u, sets), a)
  {
    AssignNext(u, sets, a);
    more := sets + [a];
  }

  /** The assignments that an update collects one by one. */
  method Assignments(u: User, input: UpdateInput, now: int) returns (sets: seq<Assignment>)
    ensures AssignAll(u, sets) == Updated(u, input, now)
  {
    sets := [];
    if input.quota.Some? { sets := Push(sets, Quota(input.quota.value), u); }
    if input.enabled.Some? { sets := Push(sets, Flag(input.enabled.value), u); }
    if input.expiresAt.Some? {
      sets := Push(sets, Expiry(input.expiresAt.value), u);
    } else if input.expiresInDays.Some? {
      sets := Push(sets, Expiry(if input.expiresInDays.value > 0 then Some(PlusDays(input.expiresInDays.value, now))
          else None), u);
    }
  }

  class Panel {
    var users: map<string, User>
    var kv: map<string, Entry>
    var now: int

    function State(): Allowlist.State
      reads this
    {
      Allowlist.State.State(users, kv, now)
    }

    constructor (table: map<string, User>, clock: int)
      requires WellFormed(table)
      ensures State() == Allowlist.State.State(table, map[], clock) && Initial(State())
    {
      users, kv, now := table, map[], clock;
    }

    /** `invalidateUserCache` */
    method InvalidateUserCache(uuid: string)
      modifies this`kv
      ensures State() == Delete(old(State()), {AllowKey(uuid)})
    {
      kv := kv - {AllowKey(uuid)};
    }

    /** `authorizeUuid` */
    method AuthorizeUuid(uuid: string, getOk: bool, putOk: bool) returns (r: Response)
      requires WellFormed(users)
      modifies this`kv
      ensures (State(), r) == Authorize(old(State()), uuid, getOk, putOk)
    {
      if !IsUuid(uuid) { return Denied(InvalidUuid); }
      var key := AllowKey(uuid);
      var cached := Cached(State(), key, getOk);
      if cached.Some? {
        return if cached.value.allowed then Allowed(cached.value.userId) else Denied(NotAllowed);
      }
      var rows := set id | id in users && users[id].credential == ToLower(uuid);
      if rows == {} {
        forall id ensures !Holds(users, id, ToLower(uuid)) { assert id in rows <==> Holds(users, id, ToLower(uuid)); }
        if putOk { kv := kv[key := Entry("", false, now, 60, None)]; }
        return Denied(UnknownUuid);
      }
      var id :| id in rows;
      assert Holds(users, id, ToLower(uuid));
      assert Lookup(users, ToLower(uuid)) == Some(id);
      var row := users[id];
      var expired := row.expiresAt.Some? && row.expiresAt.value <= now;
      var exhausted := row.quota.Some? && row.used >= row.quota.value;
      var allowed := row.enabled && !expired && !exhausted;
      if putOk { kv := kv[key := Entry(id, allowed, now, 60, Some(row))]; }
      return if allowed then Allowed(id)
          else Denied(if expired then HasExpired else if exhausted then OverQuota else Disabled);
    }

    /** `recordTraffic` */
    method RecordTraffic(id: string, bytes: int)
      modifies this`users, this`kv
      ensures State() == TrafficRecorded(old(State()), id, bytes)
    {
      if bytes <= 0 { return; }
      if id in users { users := users[id := users[id].(used := users[id].used + bytes)]; }
      kv := kv - {TrafficKey(id)};
    }

    /** `createUser`, with the id and the credential that were drawn. */
    method CreateUser(id: string, uuid: string, input: CreateInput)
      modifies this`users, this`kv
      ensures State() == Created(old(State()), id, uuid, input)
    {
      var expiresAt := input.expiresAt;
      if expiresAt.None? && input.expiresInDays.Some? && input.expiresInDays.value > 0 {
        expiresAt := Some(PlusDays(input.expiresInDays.value, now));
      }
      users := users[id := User(uuid, input.enabled, input.quota, 0, expiresAt)];
      InvalidateUserCache(uuid);
    }

    /** `updateUser`, which collects its assignments one by one. */
    method UpdateUser(id: string, input: UpdateInput) returns (found: bool)
      modifies this`users, this`kv
      ensures found == (id in old(users))
      ensures State() == UpdatedUser(old(State()), id, input)
    {
      if id !in users { return false; }
      var existing := users[id];
      var sets := Assignments(existing, input, now);
      users := users[id := AssignAll(existing, sets)];
      InvalidateUserCache(existing.credential);
      return true;
    }

    /** `deleteUser` */
    method DeleteUser(id: string) returns (found: bool)
      modifies this`users, this`kv
      ensures found == (id in old(users))
      ensures State() == DeletedUser(old(State()), id)
    {
      if id !in users { return false; }
      var credential := users[id].credential;
      users := users - {id};
      InvalidateUserCache(credential);
      return true;
    }

    /** `resetTraffic` */
    method ResetTraffic(id: string)
      modifies this`users, this`kv
      ensures State() == Allowlist.ResetTraffic(old(State()), id)
    {
      if id in users { users := users[id := users[id].(used := 0)]; }
      if id in users { InvalidateUserCache(users[id].credential); }
    }

    /** `extendUser` */
    method ExtendUser(id: string, days: int) returns (expiresAt: Option<int>)
      modifies this`users, this`kv
      ensures State() == ExtendedUser(old(State()), id, days)
      ensures expiresAt == if id in old(users) then users[id].expiresAt else None
    {
      if id !in users { return None; }
      var user := users[id];
      var base := if user.expiresAt.Some? && user.expiresAt.value > now then user.expiresAt.value else now;
      expiresAt := Some(PlusDays(days, base));
      users := users[id := user.(expiresAt := expiresAt)];
      InvalidateUserCache(user.credential);
    }

    /** `rotateCredentials`, with the credential that was drawn. */
    method RotateCredentials(id: string, uuid: string) returns (found: bool)
      modifies this`users, this`kv
      ensures found == (id in old(users))
      ensures State() == Rotated(old(State()), id, uuid)
    {
      if id !in users { return false; }
      var user := users[id];
      users := users[id := user.(credential := uuid)];
      InvalidateUserCache(user.credential);
      InvalidateUserCache(uuid);
      assert kv == old(kv) - {AllowKey(user.credential), AllowKey(uuid)};
      return true;
    }

    /** `setEnabled` */
    method SetEnabled(id: string, enabled: bool)
      modifies this`users, this`kv
      ensures State() == EnabledSet(old(State()), id, enabled)
    {
      if id !in users { return; }
      var user := users[id];
      users := users[id := user.(enabled := enabled)];
      InvalidateUserCache(user.credential);
    }

    /** The loop of `cronHourly` over the users that have expired, in whatever order the database returns them. */
    method DisableExpired()
      modifies this`users, this`kv
      ensures State() == ExpiredDisabled(old(State()), DueIds(old(State())))
    {
      var due := DueIds(State());
      var left := due;
      DisableNone(State());
      while left != {}
        invariant left <= due == DueIds(old(State())) <= old(users).Keys
        invariant State() == ExpiredDisabled(old(State()), due - left)
        decreases left
      {
        var id :| id in left;
        users := users[id := users[id].(enabled := false)];
        InvalidateUserCache(users[id].credential);
        left := left - {id};
        assert due - left == due - (left + {id}) + {id};
      }
      assert due - left == due;
    }

    /** `primeUserAllowlist` over the rows that the query returned; the puts of `failed` fail. */
    method PrimeUserAllowlist(ids: seq<string>, failed: set<string>) returns (synced: nat)
      requires forall id | id in ids :: id in users
      modifies this`kv
      ensures State() == Primed(old(State()), ids, failed) && synced == |ids|
    {
      synced := 0;
      for i := 0 to |ids|
        invariant synced == i && State() == Primed(old(State()), ids[..i], failed)
      {
        PrimeNext(old(State()), ids, i, failed);
        var row := users[ids[i]];
        var expired := row.expiresAt.Some? && row.expiresAt.value <= now;
        var exhausted := row.quota.Some? && row.used >= row.quota.value;
        var allowed := row.enabled && !expired && !exhausted;
        if ids[i] !in failed { kv := kv[AllowKey(row.credential) := Entry(ids[i], allowed, now, 300, Some(row))]; }
        synced := synced + 1;
      }
      assert ids[..|ids|] == ids;
    }
  }

  lemma {:induction false} DisableNone(s: State)
    ensures ExpiredDisabled(s, {}) == s
  {
  }

  lemma {:induction false} PrimeNext(s: State, ids: seq<string>, i: nat, failed: set<string>)
    requires i < |ids| && forall id | id in ids :: id in s.users
    ensures Primed(s, ids[..i], failed).users == s.users && Primed(s, ids[..i], failed).now == s.now
    ensures Primed(s, ids[..i + 1], failed) ==
            Put(Primed(s, ids[..i], failed), AllowKey(s.users[ids[i]].credential),
                UserEntry(ids[i], s.users[ids[i]], s.now, 300), ids[i] !in failed)
  {
    assert ids[..i + 1][..i] == ids[..i];
    if i > 0 { PrimeNext(s, ids, i - 1, failed); }
  }
}
