/** The session operations as they run, each proved against its function in `Sessions`. */
module SessionService {
  import opened Numbers
  import opened Text
  import opened Sessions

  lemma {:induction false} TakeOne(all: set<string>, left: set<string>, hash: string)
    requires hash in left
    ensures all - (left - {hash}) == if hash in all then (all - left) + {hash} else all - left
  {
  }

  lemma {:induction false} WithoutOneMore(m: map<string, Entry>, gone: set<string>, hash: string)
    ensures m - gone - {hash} == m - (gone + {hash})
  {
  }

  class Store {
    var sessions: map<string, Session>
    var admins: map<string, Admin>
    var kv: map<string, Entry>
    var now: int

    function State(): Sessions.State
      reads this
    {
      Sessions.State.State(sessions, admins, kv, now)
    }

    constructor (table: map<string, Admin>, clock: int)
      ensures State() == Sessions.State.State(map[], table, map[], clock)
    {
      sessions, admins, kv, now := map[], table, map[], clock;
    }

    /** `createSession`, with the hash of the token, the id and the secret that were drawn. */
    method CreateSession(hash: string, id: string, csrf: string, adminId: string, admin: Admin, ttlMinutes: int,
        putOk: bool, perms: Permissions)
        returns (expiresAt: int)
      modifies this`sessions, this`kv
      ensures State() == Created(old(State()), hash, id, csrf, adminId, admin, ttlMinutes, putOk, perms)
      ensures expiresAt == sessions[hash].expiresAt
    {
      expiresAt := PlusMinutes(ttlMinutes, now);
      sessions := sessions[hash := Session(id, adminId, csrf, expiresAt, false)];
      if putOk {
        var context := Context(adminId, admin.username, admin.role, perms(admin.role), id, csrf);
        kv := kv[hash := Entry(context, expiresAt, now + 1000 * Max(60, ttlMinutes * 60))];
      }
    }

    /** `resolveSession` for a token of at least 20 characters. */
    method ResolveSession(hash: string, getOk: bool, putOk: bool, perms: Permissions) returns (r: Option<Context>)
      modifies this`kv
      ensures (State(), r) == Resolve(old(State()), hash, getOk, putOk, perms)
    {
      var cached := Cached(State(), hash, getOk);
      if cached.Some? {
        if cached.value.expiresAt <= now {
          kv := kv - {hash};
          return None;
        }
        return Some(cached.value.context);
      }
      if hash !in sessions || sessions[hash].adminId !in admins { return None; }
      var row := sessions[hash];
      var admin := admins[row.adminId];
      if row.revoked || !admin.enabled { return None; }
      if row.expiresAt <= now { return None; }
      var context := Context(row.adminId, admin.username, admin.role, perms(admin.role), row.id, row.csrf);
      var ttl := Max(60, (row.expiresAt - now) / 1000);
      if putOk { kv := kv[hash := Entry(context, row.expiresAt, now + 1000 * ttl)]; }
      return Some(context);
    }

    /** `revokeSessionByToken` */
    method RevokeSessionByToken(hash: string)
      modifies this`sessions, this`kv
      ensures State() == Revoked(old(State()), hash)
    {
      kv := kv - {hash};
      if hash in sessions { sessions := sessions[hash := sessions[hash].(revoked := true)]; }
    }

    /** The loop of `revokeAllSessions` over the rows that were read, in whatever order the database returns them. */
    method DeleteKeys(rows: set<string>, except: Option<string>, ghost ended: set<string>) returns (count: nat)
      requires rows <= sessions.Keys
      requires ended == set hash | hash in rows && !Excepted(sessions[hash], except)
      modifies this`kv
      ensures count == |ended| && kv == old(kv) - ended
    {
      var left := rows;
      ghost var gone: set<string> := {};
      count := 0;
      while left != {}
        invariant left <= rows && gone == ended - left && count == |gone| && kv == old(kv) - gone
        decreases left
      {
        var hash :| hash in left;
        TakeOne(ended, left, hash);
        left := left - {hash};
        if !Excepted(sessions[hash], except) {
          WithoutOneMore(old(kv), gone, hash);
          kv := kv - {hash};
          count := count + 1;
          gone := gone + {hash};
        }
      }
      assert gone == ended;
    }

    /** `revokeAllSessions`: the rows are read, their keys deleted and counted one by one, and one update ends them. */
    method RevokeAllSessions(adminId: string, except: Option<string>) returns (count: nat)
      modifies this`sessions, this`kv
      ensures State() == AllRevoked(old(State()), adminId, except)
      ensures count == |EndedHashes(old(State()), adminId, except)|
    {
      var rows := set hash | hash in sessions && sessions[hash].adminId == adminId && !sessions[hash].revoked;
      count := DeleteKeys(rows, except, EndedHashes(State(), adminId, except));
      sessions := map hash | hash in sessions ::
        if sessions[hash].adminId == adminId && !sessions[hash].revoked
           && !Excepted(sessions[hash], except)
        then sessions[hash].(revoked := true) else sessions[hash];
      assert sessions == AllRevoked(old(State()), adminId, except).sessions;
    }

    /** The delete-admin handler. */
    method DeleteAdmin(id: string, self: Option<string>) returns (r: Removal)
      modifies this`sessions, this`admins, this`kv
      ensures r == RemovalOf(old(State()), id, self)
      ensures State() == AdminRemoved(old(State()), id, self)
    {
      if self == Some(id) { return Yourself; }
      var supers := set a | a in admins && IsSuper(admins[a]);
      if id !in admins { return NotFound; }
      if admins[id].role == SUPER && |supers| <= 1 { return LastOne; }
      var _ := RevokeAllSessions(id, None);
      admins := admins - {id};
      sessions := map hash | hash in sessions && sessions[hash].adminId != id :: sessions[hash];
      return Removed;
    }
  }
}
