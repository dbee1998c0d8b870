/** Admin sessions: rows in the database behind a KV cache, and every operation that creates, reads or ends them.  Each
    operation is a function from state to state; the service's methods are proved against them. */
module Sessions {
  import opened Numbers
  import opened Text

  /** A row of `admins` joined with its role. */
  datatype Admin = Admin(username: string, role: string, enabled: bool)

  /** A row of `sessions`, which the table finds by its token hash.  Times are milliseconds. */
  datatype Session = Session(id: string, adminId: string, csrf: string, expiresAt: int, revoked: bool)

  /** What a request learns about who sent it. */
  datatype Context = Context(adminId: string, username: string, role: string, permissions: seq<string>,
      sessionId: string, csrf: string)

  /** A cached context with its own expiry, and the time until which KV keeps it. */
  datatype Entry = Entry(context: Context, expiresAt: int, keptUntil: int)

  /** `kv` holds the entries under `sess:` by token hash. */
  datatype State = State(sessions: map<string, Session>, admins: map<string, Admin>, kv: map<string, Entry>, now: int)

  /** The permission table of the roles. */
  type Permissions = string -> seq<string>

  const MINUTE := 60_000

  /** `isoPlusMinutes`: the text form keeps whole seconds. */
  function PlusMinutes(minutes: int, from: int): int { WholeSecond(from + minutes * MINUTE) }

  function Cached(s: State, hash: string, getOk: bool): Option<Entry> {
    if getOk && hash in s.kv && s.now < s.kv[hash].keptUntil then Some(s.kv[hash]) else None
  }

  function Put(s: State, hash: string, e: Entry, putOk: bool): State {
    if putOk then s.(kv := s.kv[hash := e]) else s
  }

  function Forget(s: State, hashes: set<string>): State { s.(kv := s.kv - hashes) }

  // ---------------------------------------------------------------- the operations

  function ContextOf(row: Session, admin: Admin, perms: Permissions): Context {
    Context(row.adminId, admin.username, admin.role, perms(admin.role), row.id, row.csrf)
  }

  /** `createSession` for an admin that the caller has read, with the ids and secrets that were drawn. */
  function Created(s: State, hash: string, id: string, csrf: string, adminId: string, admin: Admin, ttlMinutes: int,
      putOk: bool, perms: Permissions): State {
    var row := Session(id, adminId, csrf, PlusMinutes(ttlMinutes, s.now), false);
    Put(s.(sessions := s.sessions[hash := row]), hash,
        Entry(ContextOf(row, admin, perms), row.expiresAt, s.now + 1000 * Max(60, ttlMinutes * 60)), putOk)
  }

  /** The row of a token that the database accepts: joined with its admin, not revoked, enabled, not expired. */
  predicate Accepts(s: State, hash: string) {
    && hash in s.sessions
    && var row := s.sessions[hash];
       row.adminId in s.admins && !row.revoked && s.admins[row.adminId].enabled && row.expiresAt > s.now
  }

  function RowContext(s: State, hash: string, perms: Permissions): Context
    requires Accepts(s, hash)
  {
    ContextOf(s.sessions[hash], s.admins[s.sessions[hash].adminId], perms)
  }

  /** The lifetime in seconds of an entry that is written when a row is read. */
  function RefillTtl(expiresAt: int, now: int): int { Max(60, (expiresAt - now) / 1000) }

  /** `resolveSession` for a token of at least 20 characters. */
  function Resolve(s: State, hash: string, getOk: bool, putOk: bool, perms: Permissions): (State, Option<Context>) {
    var cached := Cached(s, hash, getOk);
    if cached.Some? then
      if cached.value.expiresAt <= s.now then (Forget(s, {hash}), None) else (s, Some(cached.value.context))
    else if !Accepts(s, hash) then (s, None)
    else
      var row := s.sessions[hash];
      var context := RowContext(s, hash, perms);
      (Put(s, hash, Entry(context, row.expiresAt, s.now + 1000 * RefillTtl(row.expiresAt, s.now)), putOk),
          Some(context))
  }

  /** `revokeSessionByToken` */
  function Revoked(s: State, hash: string): State {
    var t := Forget(s, {hash});
    if hash in s.sessions then t.(sessions := s.sessions[hash := s.sessions[hash].(revoked := true)]) else t
  }

  /** The empty exception counts as none. */
  predicate Excepted(row: Session, except: Option<string>) {
    except.Some? && except.value != "" && row.id == except.value
  }

  /** Whether `revokeAllSessions` ends a row. */
  predicate Ends(row: Session, adminId: string, except: Option<string>) {
    row.adminId == adminId && !row.revoked && !Excepted(row, except)
  }

  function EndedHashes(s: State, adminId: string, except: Option<string>): set<string> {
    set hash | hash in s.sessions && Ends(s.sessions[hash], adminId, except)
  }

  /** `revokeAllSessions` */
  function AllRevoked(s: State, adminId: string, except: Option<string>): State {
    var ended := EndedHashes(s, adminId, except);
    Forget(s, ended).(sessions := map hash | hash in s.sessions ::
      if hash in ended then s.sessions[hash].(revoked := true) else s.sessions[hash])
  }

  const SUPER := "super_admin"

  datatype Removal = Removed | Yourself | NotFound | LastOne

  predicate IsSuper(a: Admin) { a.role == SUPER && a.enabled }

  /** The checks of the delete-admin handler. */
  function RemovalOf(s: State, id: string, self: Option<string>): Removal {
    if self == Some(id) then Yourself
    else if id !in s.admins then NotFound
    else if s.admins[id].role == SUPER && |set a | a in s.admins && IsSuper(s.admins[a])| <= 1 then LastOne
    else Removed
  }

  /** The delete-admin handler: all sessions revoked, then the row deleted, which takes its sessions along. */
  function AdminRemoved(s: State, id: string, self: Option<string>): State {
    if RemovalOf(s, id, self) != Removed then s
    else
      var t := AllRevoked(s, id, None);
      t.(admins := t.admins - {id}, sessions := map hash | hash in t.sessions && t.sessions[hash].adminId != id ::
          t.sessions[hash])
  }

  /** The expired-session clean-up of `cronDaily`, which compares with the time in whole seconds. */
  function CleanedUp(s: State): State {
    s.(sessions := map hash | hash in s.sessions && s.sessions[hash].expiresAt >= WholeSecond(s.now) ::
        s.sessions[hash])
  }

  // ---------------------------------------------------------------- runs

  datatype Step =
    | Create(hash: string, id: string, csrf: string, adminId: string, ttlMinutes: int, putOk: bool)
    | Request(hash: string, getOk: bool, putOk: bool)
    | Logout(hash: string)
    | RevokeAll(adminId: string, except: Option<string>)
    | AddAdmin(adminId: string, admin: Admin)
    | RemoveAdmin(adminId: string, self: Option<string>)
    | CleanUp
    | Evict(hashes: set<string>)
    | Tick(passed: nat)

  /** Sessions are created for enabled admins under a token that was never used; admins under a new id. */
  predicate Possible(s: State, step: Step) {
    match step
    case Create(hash, _, _, adminId, _, _) => hash !in s.sessions && hash !in s.kv && adminId in s.admins
        && s.admins[adminId].enabled
    case AddAdmin(id, _) => id !in s.admins
    case _ => true
  }

  function Next(s: State, step: Step, perms: Permissions): State
    requires Possible(s, step)
  {
    match step
    case Create(hash, id, csrf, adminId, ttl, putOk) => Created(s, hash, id, csrf, adminId, s.admins[adminId], ttl,
        putOk, perms)
    case Request(hash, getOk, putOk) => Resolve(s, hash, getOk, putOk, perms).0
    case Logout(hash) => Revoked(s, hash)
    case RevokeAll(adminId, except) => AllRevoked(s, adminId, except)
    case AddAdmin(id, admin) => s.(admins := s.admins[id := admin])
    case RemoveAdmin(id, self) => AdminRemoved(s, id, self)
    case CleanUp => CleanedUp(s)
    case Evict(hashes) => Forget(s, hashes)
    case Tick(passed) => s.(now := s.now + passed)
  }

  predicate IsRun(run: seq<State>, steps: seq<Step>, perms: Permissions) {
    && |run| == |steps| + 1
    && forall i | 0 <= i < |steps| :: Possible(run[i], steps[i]) && run[i + 1] == Next(run[i], steps[i], perms)
  }

  // ---------------------------------------------------------------- the invariant

  /** A kept entry is the database's answer while its session lasts; once the row is cleaned up it has expired. */
  predicate EntryOk(s: State, hash: string, e: Entry, perms: Permissions) {
    if hash in s.sessions then
      && var row := s.sessions[hash];
         !row.revoked && row.adminId in s.admins && s.admins[row.adminId].enabled
         && e.expiresAt == row.expiresAt && e.context == ContextOf(row, s.admins[row.adminId], perms)
    else e.expiresAt <= s.now
  }

  predicate Inv(s: State, perms: Permissions) {
    forall hash | hash in s.kv && s.now < s.kv[hash].keptUntil :: EntryOk(s, hash, s.kv[hash], perms)
  }

  lemma {:induction false} CreateKeeps(s: State, step: Step, perms: Permissions)
    requires Inv(s, perms) && step.Create? && Possible(s, step)
    ensures Inv(Next(s, step, perms), perms)
  {
  }

  lemma {:induction false} ResolveKeeps(s: State, hash: string, getOk: bool, putOk: bool, perms: Permissions)
    requires Inv(s, perms)
    ensures Inv(Resolve(s, hash, getOk, putOk, perms).0, perms)
  {
  }

  /** `after` ends the sessions `ended` and keeps nothing of them in the cache; other sessions may also disappear if
      they had expired, or if they were not kept. */
  predicate Ended(before: State, after: State, ended: set<string>) {
    && after.now >= before.now
    && (forall hash | hash in after.kv :: hash in before.kv && after.kv[hash] == before.kv[hash] && hash !in ended)
    && (forall hash | hash in after.sessions && hash !in ended :: hash in before.sessions
          && after.sessions[hash] == before.sessions[hash])
    && (forall hash | hash in before.sessions && hash !in ended && hash !in after.sessions ::
          before.sessions[hash].expiresAt <= after.now || before.sessions[hash].revoked)
    && (forall hash | hash in after.sessions && hash !in ended && !after.sessions[hash].revoked
          && after.sessions[hash].adminId in before.admins ::
          after.sessions[hash].adminId in after.admins && after.admins[after.sessions[hash].adminId] ==
              before.admins[after.sessions[hash].adminId])
  }

  lemma {:induction false} EndedKeeps(before: State, after: State, ended: set<string>, perms: Permissions)
    requires Inv(before, perms) && Ended(before, after, ended)
    ensures Inv(after, perms)
  {
  }

  lemma {:induction false} RemoveKeeps(s: State, id: string, self: Option<string>, perms: Permissions)
    requires Inv(s, perms)
    ensures Inv(AdminRemoved(s, id, self), perms)
  {
  }

  /** Every step keeps the invariant. */
  lemma {:induction false} StepKeeps(s: State, step: Step, perms: Permissions)
    requires Inv(s, perms) && Possible(s, step)
    ensures Inv(Next(s, step, perms), perms)
  {
    match step
    case Create(_, _, _, _, _, _) => CreateKeeps(s, step, perms);
    case Request(hash, getOk, putOk) => ResolveKeeps(s, hash, getOk, putOk, perms);
    case Logout(hash) => EndedKeeps(s, Revoked(s, hash), {hash}, perms);
    case RevokeAll(adminId, except) => EndedKeeps(s, AllRevoked(s, adminId, except), EndedHashes(s, adminId, except),
        perms);
    case AddAdmin(id, admin) => EndedKeeps(s, s.(admins := s.admins[id := admin]), {}, perms);
    case RemoveAdmin(id, self) => RemoveKeeps(s, id, self, perms);
    case CleanUp => EndedKeeps(s, CleanedUp(s), {}, perms);
    case Evict(hashes) => EndedKeeps(s, Forget(s, hashes), {}, perms);
    case Tick(passed) => EndedKeeps(s, s.(now := s.now + passed), {}, perms);
  }

  lemma {:induction false} RunKeeps(run: seq<State>, steps: seq<Step>, i: nat, perms: Permissions)
    requires IsRun(run, steps, perms) && run[0].kv == map[] && i < |run|
    ensures Inv(run[i], perms)
  {
    if i > 0 {
      RunKeeps(run, steps, i - 1, perms);
      assert Possible(run[i - 1], steps[i - 1]) && run[i] == Next(run[i - 1], steps[i - 1], perms);
      StepKeeps(run[i - 1], steps[i - 1], perms);
    }
  }

  // ---------------------------------------------------------------- the cache is transparent

  function WithoutCache(s: State): State { s.(kv := map[]) }

  /** In every state of every run, a token resolves to exactly what it would resolve to with an empty cache. */
  lemma {:induction false} CacheTransparent(run: seq<State>, steps: seq<Step>, i: nat, hash: string, getOk: bool,
      putOk: bool, perms: Permissions)
    requires IsRun(run, steps, perms) && run[0].kv == map[] && i < |run|
    ensures Resolve(run[i], hash, getOk, putOk, perms).1 == Resolve(WithoutCache(run[i]), hash, true, true, perms).1
  {
    RunKeeps(run, steps, i, perms);
  }

  /** Who a token speaks for, by the table alone. */
  lemma {:induction false} ResolvesIff(run: seq<State>, steps: seq<Step>, i: nat, hash: string, getOk: bool,
      putOk: bool, perms: Permissions)
    requires IsRun(run, steps, perms) && run[0].kv == map[] && i < |run|
    ensures var r := Resolve(run[i], hash, getOk, putOk, perms).1;
            if Accepts(run[i], hash) then r == Some(RowContext(run[i], hash, perms)) else r == None
  {
    CacheTransparent(run, steps, i, hash, getOk, putOk, perms);
  }

  /** A session once ended is never resolved again, in any continuation of the run. */
  predicate Gone(s: State, hash: string) { hash in s.sessions ==> s.sessions[hash].revoked }

  /** No later step draws the token again. */
  predicate FreshAfter(steps: seq<Step>, i: nat, hash: string) {
    forall k | i < k < |steps| :: steps[k].Create? ==> steps[k].hash != hash
  }

  lemma {:induction false} GoneLater(run: seq<State>, steps: seq<Step>, i: nat, j: nat, hash: string,
      perms: Permissions)
    requires IsRun(run, steps, perms) && i < j < |run| && Gone(run[i + 1], hash) && FreshAfter(steps, i, hash)
    ensures Gone(run[j], hash)
    decreases j
  {
    if j > i + 1 { GoneLater(run, steps, i, j - 1, hash, perms); }
  }

  /** Steps that end a token's session: a logout, the revocation of all of its admin's sessions unless it is excepted,
      and the removal of that admin. */
  predicate EndsSession(s: State, step: Step, hash: string) {
    match step
    case Logout(h) => h == hash
    case RevokeAll(adminId, except) => hash in s.sessions && s.sessions[hash].adminId == adminId
                                       && (except.GetOr("") == "" || except.value != s.sessions[hash].id)
    case RemoveAdmin(adminId, self) => hash in s.sessions && s.sessions[hash].adminId == adminId
                                       && RemovalOf(s, adminId, self) == Removed
    case _ => false
  }

  lemma {:induction false} EndedIsGone(s: State, step: Step, hash: string, perms: Permissions)
    requires Possible(s, step) && EndsSession(s, step, hash)
    ensures Gone(Next(s, step, perms), hash)
  {
  }

  /** The end of a session is final: whatever happens later, the token resolves to nothing. */
  lemma {:induction false} EndIsFinal(run: seq<State>, steps: seq<Step>, i: nat, j: nat, hash: string, getOk: bool,
      putOk: bool, perms: Permissions)
    requires IsRun(run, steps, perms) && run[0].kv == map[] && i < j < |run|
    requires EndsSession(run[i], steps[i], hash) && FreshAfter(steps, i, hash)
    ensures Resolve(run[j], hash, getOk, putOk, perms).1 == None
  {
    EndedIsGone(run[i], steps[i], hash, perms);
    GoneLater(run, steps, i, j, hash, perms);
    ResolvesIff(run, steps, j, hash, getOk, putOk, perms);
  }

  /** In particular that of a logout. */
  lemma {:induction false} LogoutFinal(run: seq<State>, steps: seq<Step>, i: nat, j: nat, hash: string, getOk: bool,
      putOk: bool, perms: Permissions)
    requires IsRun(run, steps, perms) && run[0].kv == map[] && i < j < |run|
    requires steps[i] == Logout(hash) && FreshAfter(steps, i, hash)
    ensures Resolve(run[j], hash, getOk, putOk, perms).1 == None
  {
    EndIsFinal(run, steps, i, j, hash, getOk, putOk, perms);
  }

  /** After `revokeAllSessions` the admin's tokens resolve to nothing, but for the excepted session's, whose answer
      stays. */
  lemma {:induction false} RevokeAllExact(s: State, adminId: string, except: Option<string>, hash: string,
      perms: Permissions)
    requires Inv(s, perms) && hash in s.sessions && s.sessions[hash].adminId == adminId
    ensures var before := Resolve(s, hash, true, true, perms).1;
            var after := Resolve(AllRevoked(s, adminId, except), hash, true, true, perms).1;
            if Excepted(s.sessions[hash], except) then after == before else after == None
  {
  }

  /** The key has to be deleted: if that call fails, exactly the tokens that were accepted and are kept go on
      resolving. */
  lemma {:induction false} FailedDeleteLeaks(s: State, hash: string, getOk: bool, putOk: bool, perms: Permissions)
    requires Inv(s, perms)
    ensures var t := Revoked(s, hash).(kv := s.kv);
            && !Accepts(t, hash)
            && Resolve(t, hash, getOk, putOk, perms).1 ==
               if Cached(s, hash, getOk).Some? && Accepts(s, hash) then Some(RowContext(s, hash, perms)) else None
  {
  }

  /** The same for `revokeAllSessions`. */
  lemma {:induction false} FailedDeletesLeak(s: State, adminId: string, except: Option<string>, hash: string,
      getOk: bool, putOk: bool, perms: Permissions)
    requires Inv(s, perms) && hash in EndedHashes(s, adminId, except)
    ensures var t := AllRevoked(s, adminId, except).(kv := s.kv);
            && !Accepts(t, hash)
            && Resolve(t, hash, getOk, putOk, perms).1 ==
               if Cached(s, hash, getOk).Some? && Accepts(s, hash) then Some(RowContext(s, hash, perms)) else None
  {
  }
}
