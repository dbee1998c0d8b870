/** What the session operations do to the answers, told by the fields of the rows. */
module SessionAnswers {
  import opened Numbers
  import opened Text
  import opened Sessions

  /** A token is good: its row is there, not revoked and not over, and its admin is there and enabled. */
  predicate IsGood(s: State, hash: string) {
    && hash in s.sessions && !s.sessions[hash].revoked && s.now < s.sessions[hash].expiresAt
    && s.sessions[hash].adminId in s.admins && s.admins[s.sessions[hash].adminId].enabled
  }

  /** The request is told who its admin is now, with the role's permissions and the session's own secret. */
  predicate Tells(r: Option<Context>, row: Session, admin: Admin, perms: Permissions) {
    && r.Some? && r.value.adminId == row.adminId && r.value.sessionId == row.id && r.value.csrf == row.csrf
    && r.value.username == admin.username && r.value.role == admin.role && r.value.permissions == perms(admin.role)
  }

  /** What every token resolves to, whatever is cached. */
  lemma {:induction false} TokenTold(s: State, hash: string, getOk: bool, putOk: bool, perms: Permissions)
    requires Inv(s, perms)
    ensures var r := Resolve(s, hash, getOk, putOk, perms).1;
            if IsGood(s, hash) then Tells(r, s.sessions[hash], s.admins[s.sessions[hash].adminId], perms) else r == None
  {
  }

  /** `ttl` minutes after a time, less the part of a second that the text form drops. */
  predicate MinutesAfter(e: int, ttl: int, from: int) {
    from + ttl * 60_000 - 1000 < e <= from + ttl * 60_000 && e % 1000 == 0
  }

  /** A new session resolves to its own admin until its time to live is over, and to nothing from then on. */
  lemma {:induction false} NewSessionLives(s: State, hash: string, id: string, csrf: string, adminId: string, ttl: int,
      put: bool, passed: nat, getOk: bool, putOk: bool, perms: Permissions)
    requires Inv(s, perms) && Possible(s, Create(hash, id, csrf, adminId, ttl, put))
    ensures var t := Next(s, Create(hash, id, csrf, adminId, ttl, put), perms);
            && hash in t.sessions && MinutesAfter(t.sessions[hash].expiresAt, ttl, s.now)
            && t.admins == s.admins && t.now == s.now && t.sessions - {hash} == s.sessions - {hash}
            && var r := Resolve(t.(now := t.now + passed), hash, getOk, putOk, perms).1;
               if s.now + passed < t.sessions[hash].expiresAt then
                 Tells(r, Session(id, adminId, csrf, t.sessions[hash].expiresAt, false), s.admins[adminId], perms)
               else r == None
  {
    var t := Next(s, Create(hash, id, csrf, adminId, ttl, put), perms);
    StepKeeps(s, Create(hash, id, csrf, adminId, ttl, put), perms);
    StepKeeps(t, Tick(passed), perms);
    TokenTold(t.(now := t.now + passed), hash, getOk, putOk, perms);
  }

  /** Its context is kept as long as it lasts, and for a minute at least. */
  lemma {:induction false} ContextKept(s: State, hash: string, id: string, csrf: string, adminId: string, ttl: int,
      perms: Permissions, passed: nat)
    requires Possible(s, Create(hash, id, csrf, adminId, ttl, true))
    ensures var later := Next(s, Create(hash, id, csrf, adminId, ttl, true), perms).(now := s.now + passed);
            Cached(later, hash, true).Some? <==> passed < ttl * 60_000 || passed < 60_000
  {
  }

  /** One that is read from the table again, until less than a second before its end, and for a minute at least. */
  lemma {:induction false} ContextKeptAgain(s: State, hash: string, perms: Permissions, passed: nat)
    requires IsGood(s, hash)
    ensures var left := s.sessions[hash].expiresAt - s.now;
            var later := Resolve(s, hash, false, true, perms).0.(now := s.now + passed);
            Cached(later, hash, true).Some? <==> passed < left - left % 1000 || passed < 60_000
  {
  }

  /** Every step but those that end a session, that create it, that add its admin and that let time pass leaves the
      answers to its token as they are. */
  lemma {:induction false} AnswersStay(s: State, step: Step, hash: string, getOk: bool, putOk: bool,
      perms: Permissions)
    requires Inv(s, perms) && Possible(s, step) && !EndsSession(s, step, hash)
    requires !step.Tick? && (step.Create? ==> step.hash != hash)
    requires step.AddAdmin? ==> hash !in s.sessions || s.sessions[hash].adminId != step.adminId
    ensures Resolve(Next(s, step, perms), hash, getOk, putOk, perms).1 == Resolve(s, hash, getOk, putOk, perms).1
  {
    var t := Next(s, step, perms);
    StepKeeps(s, step, perms);
    TokenTold(s, hash, getOk, putOk, perms);
    TokenTold(t, hash, getOk, putOk, perms);
    GoodStays(s, step, hash, perms);
  }

  lemma {:induction false} GoodStays(s: State, step: Step, hash: string, perms: Permissions)
    requires Possible(s, step) && !EndsSession(s, step, hash)
    requires !step.Tick? && (step.Create? ==> step.hash != hash)
    requires step.AddAdmin? ==> hash !in s.sessions || s.sessions[hash].adminId != step.adminId
    ensures var t := Next(s, step, perms);
            && (IsGood(t, hash) <==> IsGood(s, hash))
            && (IsGood(s, hash) ==> t.sessions[hash] == s.sessions[hash])
            && (IsGood(s, hash) ==> t.admins[t.sessions[hash].adminId] == s.admins[s.sessions[hash].adminId])
  {
  }

  /** And those that end it do. */
  lemma {:induction false} EndedNow(s: State, step: Step, hash: string, getOk: bool, putOk: bool, perms: Permissions)
    requires Inv(s, perms) && Possible(s, step) && EndsSession(s, step, hash)
    ensures Resolve(Next(s, step, perms), hash, getOk, putOk, perms).1 == None
  {
    StepKeeps(s, step, perms);
    TokenTold(Next(s, step, perms), hash, getOk, putOk, perms);
  }

  /** `revokeAllSessions` counts exactly the sessions that it ends: all of the admin's that were not ended yet, but the
      one that is excepted. */
  lemma {:induction false} CountedAreEnded(s: State, adminId: string, except: Option<string>, perms: Permissions)
    ensures var t := Next(s, RevokeAll(adminId, except), perms);
            && t.sessions.Keys == s.sessions.Keys && t.admins == s.admins && t.now == s.now
            && EndedHashes(s, adminId, except) ==
               (set hash | hash in s.sessions && !s.sessions[hash].revoked && t.sessions[hash].revoked)
    ensures forall hash | hash in s.sessions ::
              hash in EndedHashes(s, adminId, except) <==>
              !s.sessions[hash].revoked && EndsSession(s, RevokeAll(adminId, except), hash)
  {
  }

  /** The daily clean-up takes the rows that were over by the last whole second, and only those. */
  lemma {:induction false} CleanedExact(s: State, hash: string, perms: Permissions)
    ensures var t := Next(s, CleanUp, perms);
            && t.admins == s.admins && t.kv == s.kv && t.now == s.now
            && (hash in t.sessions <==> hash in s.sessions && s.now - s.now % 1000 <= s.sessions[hash].expiresAt)
            && (hash in t.sessions ==> t.sessions[hash] == s.sessions[hash])
  {
  }

  // ---------------------------------------------------------------- removing admins

  predicate IsEnabledSuper(s: State, id: string) {
    id in s.admins && s.admins[id].role == "super_admin" && s.admins[id].enabled
  }

  lemma {:induction false} TwoOf(all: set<string>)
    ensures |all| > 1 <==> exists a, b :: a in all && b in all && a != b
  {
    if a, b :| a in all && b in all && a != b { assert {a, b} <= all && |{a, b}| == 2; Smaller({a, b}, all); }
    if |all| > 1 {
      var a :| a in all;
      assert |all - {a}| > 0;
      var b :| b in all - {a};
    }
  }

  lemma {:induction false} Smaller(a: set<string>, b: set<string>)
    requires a <= b
    ensures |a| <= |b|
  {
    assert b == a + (b - a);
  }

  /** An admin is removed, by another, if and only if they are there and are no super admin or two super admins are
      enabled; whether the one removed is among these is not asked. */
  lemma {:induction false} RemovedIff(s: State, id: string, self: Option<string>)
    ensures RemovalOf(s, id, self) == Removed <==>
            && self != Some(id) && id in s.admins
            && (s.admins[id].role == "super_admin" ==>
                exists a, b :: IsEnabledSuper(s, a) && IsEnabledSuper(s, b) && a != b)
    ensures RemovalOf(s, id, self) == Yourself <==> self == Some(id)
    ensures RemovalOf(s, id, self) == NotFound <==> self != Some(id) && id !in s.admins
  {
    var supers := set a | a in s.admins && IsSuper(s.admins[a]);
    TwoOf(supers);
    assert forall a :: a in supers <==> IsEnabledSuper(s, a);
  }

  /** So an enabled super admin always remains. */
  lemma {:induction false} SuperRemains(s: State, step: Step, perms: Permissions)
    requires Possible(s, step) && exists a :: IsEnabledSuper(s, a)
    ensures exists a :: IsEnabledSuper(Next(s, step, perms), a)
  {
    var t := Next(s, step, perms);
    if step.RemoveAdmin? && RemovalOf(s, step.adminId, step.self) == Removed {
      RemovedIff(s, step.adminId, step.self);
      var a :| IsEnabledSuper(s, a);
      if s.admins[step.adminId].role == "super_admin" {
        var b, c :| IsEnabledSuper(s, b) && IsEnabledSuper(s, c) && b != c;
        assert IsEnabledSuper(t, if b == step.adminId then c else b);
      } else {
        assert IsEnabledSuper(t, a);
      }
    } else {
      var a :| IsEnabledSuper(s, a);
      assert IsEnabledSuper(t, a);
    }
  }

  /** The row of the one removed goes, with all their sessions; the other admins stay. */
  lemma {:induction false} RemovedRows(s: State, id: string, self: Option<string>, perms: Permissions)
    requires RemovalOf(s, id, self) == Removed
    ensures var t := Next(s, RemoveAdmin(id, self), perms);
            && t.admins == s.admins - {id} && t.now == s.now
            && (forall hash :: hash in t.sessions <==> hash in s.sessions && s.sessions[hash].adminId != id)
            && (forall hash | hash in t.sessions :: t.sessions[hash] == s.sessions[hash])
  {
  }

  lemma {:induction false} RefusedKeeps(s: State, id: string, self: Option<string>, perms: Permissions)
    requires RemovalOf(s, id, self) != Removed
    ensures Next(s, RemoveAdmin(id, self), perms) == s
  {
  }
}
