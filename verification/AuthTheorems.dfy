/** What the auth service guarantees: the two ways of deciding agree, the cache is coherent, the
    audit log replays to the granted overrides, and the middleware never refuses what the service grants. */
module AuthTheorems {
  import opened GoStrings
  import opened AuthModel

  /******* The two service decisions are one *******/

  lemma {:induction false} RoleSetMeaning(s: AuthState, f: Faults, roles: seq<string>, permission: string, now: Time)
    ensures permission in RoleSet(s, f, roles, now) <==> SomeRoleGrants(s, f, roles, permission, now)
  {
    if roles != [] {
      var n := |roles| - 1;
      RoleSetMeaning(s, f, roles[..n], permission, now);
      assert forall i :: 0 <= i < n ==> roles[..n][i] == roles[i];
      if SomeRoleGrants(s, f, roles[..n], permission, now) {
        var i :| 0 <= i < n && RoleGrants(ReadRole(s, f, roles[..n][i]), permission, now);
        assert RoleGrants(ReadRole(s, f, roles[i]), permission, now);
      }
    }
  }

  /** Looking overrides up first, or building the whole set and applying them last: same answer for
      every permission, whatever rows exist, have expired, or could not be read. */
  lemma HasIffComputed(s: AuthState, f: Faults, user: string, permission: string, now: Time)
    requires !f.lookup && user in s.members && SUPER_ADMIN !in s.members[user]
    ensures Has(s, f, user, permission, now) <==> permission in ComputedSet(s, f, user, s.members[user], now)
  {
    RoleSetMeaning(s, f, s.members[user], permission, now);
  }

  /** Two computed lists for the same rows are the same list, so map iteration order is invisible. */
  lemma ComputedListUnique(s: AuthState, f: Faults, user: string, roles: seq<string>, now: Time, a: seq<string>,
                           b: seq<string>)
    requires StrictlySorted(a) && Elements(a) == ComputedSet(s, f, user, roles, now)
    requires StrictlySorted(b) && Elements(b) == ComputedSet(s, f, user, roles, now)
    ensures a == b
  {
    StrictlySortedUnique(a, b);
  }

  /******* Coherence of the cache *******/

  /** Every entry shows the current rows of its owner. */
  ghost predicate Mirrors<R>(cache: map<string, Rows<R>>, t: Table<R>) {
    forall owner :: owner in cache ==> cache[owner] == RowsOf(t, owner)
  }

  ghost predicate Coherent(s: AuthState) {
    && Mirrors(s.roleCache, s.roleTable)
    && Mirrors(s.userCache, s.userTable)
    && (!s.redisUp ==> s.roleCache == map[] && s.userCache == map[])
  }

  /** Rewriting one owner's rows and dropping that owner's key keeps every other entry current. */
  lemma MirrorsAfterWrite<R>(cache: map<string, Rows<R>>, t: Table<R>, owner: string, rows: Rows<R>, redisUp: bool)
    requires Mirrors(cache, t) && (!redisUp ==> cache == map[])
    ensures Mirrors(DropKey(redisUp, cache, owner), t[owner := rows])
  {
  }

  /** A bulk update of a cached role in which a statement failed after another had succeeded: the one
      operation that changes rows and skips the invalidation. */
  predicate LeavesStaleEntry(s: AuthState, op: Op) {
    op.UpdateRole? && op.failedAfter.Some? && op.failedAfter.value > 0 && op.role in s.roleCache
  }

  /** From a coherent state, an operation keeps the cache coherent exactly when it is not such an update. */
  lemma CoherenceStep(s: AuthState, op: Op, s': AuthState)
    requires Coherent(s) && Step(s, op, s')
    ensures Coherent(s') <==> !LeavesStaleEntry(s, op)
  {
    if op.Grant? {
      CoherentAfterGrant(s, op.target, op.permission, op.isGranted, op.expiresAt, op.actor, op.now);
    } else if op.Revoke? {
      CoherentAfterRevoke(s, op.target, op.permission);
    } else if op.UpdateRole? {
      CoherentAfterUpdate(s, op, s');
    } else {
      CoherentAfterCacheStep(s, op, s');
    }
  }

  lemma CoherentAfterGrant(s: AuthState, t: Target, permission: string, isGranted: bool, expiresAt: Option<Time>,
                           actor: string, now: Time)
    requires Coherent(s)
    ensures Coherent(GrantWritten(s, t, permission, isGranted, expiresAt, actor, now))
  {
    if t.ToRole() {
      var rows := RowsOf(s.roleTable, t.role.value);
      var row := UpsertedRole(rows, permission, expiresAt, now);
      MirrorsAfterWrite(s.roleCache, s.roleTable, t.role.value, rows[permission := row], s.redisUp);
    } else if t.ToUser() {
      var rows := RowsOf(s.userTable, t.user.value);
      var row := UpsertedUser(rows, permission, isGranted, expiresAt, actor, now);
      MirrorsAfterWrite(s.userCache, s.userTable, t.user.value, rows[permission := row], s.redisUp);
    }
  }

  lemma CoherentAfterRevoke(s: AuthState, t: Target, permission: string)
    requires Coherent(s)
    ensures Coherent(RevokeWritten(s, t, permission))
  {
    if t.ToRole() {
      var rows := RowsOf(s.roleTable, t.role.value);
      MirrorsAfterWrite(s.roleCache, s.roleTable, t.role.value, rows - {permission}, s.redisUp);
    } else if t.ToUser() {
      var rows := RowsOf(s.userTable, t.user.value);
      MirrorsAfterWrite(s.userCache, s.userTable, t.user.value, rows - {permission}, s.redisUp);
    }
  }

  lemma CoherentAfterCacheStep(s: AuthState, op: Op, s': AuthState)
    requires Coherent(s) && Step(s, op, s')
    requires op.FetchRole? || op.FetchUser? || op.RoleEntryLapses? || op.UserEntryLapses?
    ensures Coherent(s')
  {
  }

  /** On failure the rows changed exactly when a statement had succeeded. */
  lemma FailedUpdateChangesRows(s: AuthState, op: Op, s': AuthState)
    requires op.UpdateRole? && op.failedAfter.Some? && Step(s, op, s')
    ensures RowsOf(s'.roleTable, op.role) != RowsOf(s.roleTable, op.role) <==> op.failedAfter.value > 0
  {
    var before, after := RowsOf(s.roleTable, op.role), RowsOf(s'.roleTable, op.role);
    if after.Keys == before.Keys {
      assert forall p :: p in after ==> after[p] == before[p];
      assert after == before;
    }
  }

  lemma CoherentAfterUpdate(s: AuthState, op: Op, s': AuthState)
    requires Coherent(s) && op.UpdateRole? && Step(s, op, s')
    ensures Coherent(s') <==> !LeavesStaleEntry(s, op)
  {
    assert forall r :: r != op.role ==> RowsOf(s'.roleTable, r) == RowsOf(s.roleTable, r);
    assert s'.userTable == s.userTable && s'.userCache == s.userCache && s'.redisUp == s.redisUp;
    if op.failedAfter.Some? {
      FailedUpdateChangesRows(s, op, s');
    }
  }

  /** The stale case is real: replacing a cached {"a"} by {"b"} and failing at the revocation leaves
      {"a"} in the cache and {"a", "b"} in the table. */
  lemma PartialUpdateLeavesStaleEntry() returns (s: AuthState, op: Op, s': AuthState)
    ensures Coherent(s) && Step(s, op, s') && LeavesStaleEntry(s, op) && !Coherent(s')
  {
    var a: Rows<RoleRow> := map["a" := RoleRow(0, None)];
    var ab := a["b" := RoleRow(1, None)];
    s := AuthState(map[], map["editor" := a], map[], [], true, map["editor" := a], map[]);
    op := UpdateRole("editor", {"b"}, 1, Some(1));
    s' := s.(roleTable := map["editor" := ab]);
    assert a.Keys == {"a"} && ab.Keys == {"a", "b"} && "b" !in a.Keys;
    CoherentAfterUpdate(s, op, s');
  }

  /** In every reachable state of a run without such an update, cached and direct reads agree. */
  lemma {:induction false} CacheCoherentOverRuns(states: seq<AuthState>, ops: seq<Op>, n: nat)
    requires Run(states, ops) && n < |states| && Coherent(states[0])
    requires forall i :: 0 <= i < |ops| ==> !LeavesStaleEntry(states[i], ops[i])
    ensures Coherent(states[n])
    ensures forall r :: CachedReadRole(states[n], NO_FAULTS, r) == ReadRole(states[n], NO_FAULTS, r)
    ensures forall u :: CachedReadUser(states[n], NO_FAULTS, u) == ReadUser(states[n], NO_FAULTS, u)
  {
    if n > 0 {
      CacheCoherentOverRuns(states, ops, n - 1);
      assert Step(states[n - 1], ops[n - 1], states[n - 1 + 1]);
      CoherenceStep(states[n - 1], ops[n - 1], states[n]);
    }
  }

  /** A bulk update does not renew what it keeps: after it succeeds, a requested permission is in force
      exactly when it was not already stored with an expiry that has passed. */
  lemma ActiveAfterUpdate(s: AuthState, role: string, requested: set<string>, t: Time, s': AuthState,
                          permission: string, now: Time)
    requires Step(s, UpdateRole(role, requested, t, None), s')
    ensures Active(RowsOf(s'.roleTable, role), permission, now) <==>
      permission in requested
      && !(permission in RowsOf(s.roleTable, role) && Expired(RowsOf(s.roleTable, role)[permission].expiresAt, now))
  {
    assert permission in RowsOf(s'.roleTable, role) <==> permission in requested;
  }

  /** Retrying a failed bulk update until it succeeds heals both the table and the cache: the rows that
      survive both are the original ones, and every entry is current again. */
  lemma RetriedUpdateHeals(s: AuthState, role: string, requested: set<string>, t1: Time, writes: nat, s1: AuthState,
                           t2: Time, s2: AuthState)
    requires Coherent(s)
    requires Step(s, UpdateRole(role, requested, t1, Some(writes)), s1)
    requires Step(s1, UpdateRole(role, requested, t2, None), s2)
    ensures Coherent(s2) && RowsOf(s2.roleTable, role).Keys == requested
    ensures forall p :: p in requested && p in RowsOf(s.roleTable, role) ==>
      RowsOf(s2.roleTable, role)[p] == RowsOf(s.roleTable, role)[p]
    ensures forall p :: p in requested && p !in RowsOf(s.roleTable, role) ==>
      RowsOf(s2.roleTable, role)[p].expiresAt == None
    ensures forall r :: r != role ==> RowsOf(s2.roleTable, r) == RowsOf(s.roleTable, r)
  {
    assert forall r :: r != role ==> RowsOf(s1.roleTable, r) == RowsOf(s.roleTable, r);
    assert s2.userTable == s.userTable && s2.userCache == s.userCache;
  }

  /******* Service against middleware *******/

  /** Some stored row of the user, live or not, matches the pattern. */
  ghost predicate RowMatches(s: AuthState, user: string, pattern: string)
    requires user in s.members
  {
    || (exists i :: 0 <= i < |s.members[user]| && SomeMatches(RowsOf(s.roleTable, s.members[user][i]).Keys, [pattern]))
    || SomeMatches(RowsOf(s.userTable, user).Keys, [pattern])
  }

  ghost predicate DeniedNow(s: AuthState, user: string, permission: string, now: Time) {
    var rows := RowsOf(s.userTable, user);
    permission in rows && !Expired(rows[permission].expiresAt, now) && !rows[permission].isGranted
  }

  /** A row for exactly this permission, in a role or as an override, that has not expired. */
  ghost predicate LiveRow(s: AuthState, user: string, permission: string, now: Time)
    requires user in s.members
  {
    || SomeRoleGrants(s, NO_FAULTS, s.members[user], permission, now)
    || permission in Overrides(RowsOf(s.userTable, user), now)
  }

  /** The middleware lets through everything the service grants, and lets through more exactly when
      a matching row is there but the permission itself is denied or has no live row: the middleware
      ignores expiry and the is_granted flag. */
  lemma ServiceAgainstMiddleware(s: AuthState, user: string, permission: string, now: Time)
    requires Coherent(s) && user in s.members && user != ""
    ensures Has(s, NO_FAULTS, user, permission, now) ==> Allowed(s, NO_FAULTS, user, [permission]) == Next
    ensures (Has(s, NO_FAULTS, user, permission, now) <==> Allowed(s, NO_FAULTS, user, [permission]) == Next)
       <==> (SUPER_ADMIN in s.members[user]
             || !(RowMatches(s, user, permission)
                  && (DeniedNow(s, user, permission, now) || !LiveRow(s, user, permission, now))))
  {
    assert forall r :: CachedReadRole(s, NO_FAULTS, r) == Ok(RowsOf(s.roleTable, r));
    assert CachedReadUser(s, NO_FAULTS, user) == Ok(RowsOf(s.userTable, user));
    LiveRowMatches(s, user, permission, now);
  }

  lemma LiveRowMatches(s: AuthState, user: string, permission: string, now: Time)
    requires user in s.members
    ensures LiveRow(s, user, permission, now) ==> RowMatches(s, user, permission)
  {
    assert MatchesPattern(permission, [permission][0]);
    if SomeRoleGrants(s, NO_FAULTS, s.members[user], permission, now) {
      var i :| 0 <= i < |s.members[user]| && Active(RowsOf(s.roleTable, s.members[user][i]), permission, now);
    }
  }

  ghost predicate NothingExpiredOrDenied(s: AuthState, user: string, now: Time)
    requires user in s.members
  {
    && (forall i, p :: 0 <= i < |s.members[user]| && p in RowsOf(s.roleTable, s.members[user][i]) ==>
          Active(RowsOf(s.roleTable, s.members[user][i]), p, now))
    && (forall p :: p in RowsOf(s.userTable, user) ==>
          p in Overrides(RowsOf(s.userTable, user), now) && RowsOf(s.userTable, user)[p].isGranted)
  }

  /** For a plain permission name and a user none of whose rows is expired or a denial, the two agree. */
  lemma DecisionsCoincide(s: AuthState, user: string, permission: string, now: Time)
    requires Coherent(s) && user in s.members && user != ""
    requires !HasSuffix(permission, ".*") && NothingExpiredOrDenied(s, user, now)
    ensures Has(s, NO_FAULTS, user, permission, now) <==> Allowed(s, NO_FAULTS, user, [permission]) == Next
  {
    ServiceAgainstMiddleware(s, user, permission, now);
    if RowMatches(s, user, permission) {
      if i :| 0 <= i < |s.members[user]| && SomeMatches(RowsOf(s.roleTable, s.members[user][i]).Keys, [permission]) {
        assert ReadRole(s, NO_FAULTS, s.members[user][i]) == Ok(RowsOf(s.roleTable, s.members[user][i]));
      }
    }
  }

  /** Over any run that keeps the cache coherent, what the service grants at the end the middleware
      lets through. */
  lemma GrantedIsAllowedOverRuns(states: seq<AuthState>, ops: seq<Op>, n: nat, user: string, permission: string,
                                 now: Time)
    requires Run(states, ops) && n < |states| && Coherent(states[0])
    requires forall i :: 0 <= i < |ops| ==> !LeavesStaleEntry(states[i], ops[i])
    requires user != "" && Has(states[n], NO_FAULTS, user, permission, now)
    ensures Allowed(states[n], NO_FAULTS, user, [permission]) == Next
  {
    CacheCoherentOverRuns(states, ops, n);
    ServiceAgainstMiddleware(states[n], user, permission, now);
  }

  /******* Replaying the audit log *******/

  ghost predicate About(e: LogEntry, user: string, permission: string) {
    e.target.ToUser() && e.target.user == Some(user) && e.permission == permission
  }

  /** The last entry about a user and a permission. */
  ghost function LastEntry(log: seq<LogEntry>, user: string, permission: string): Option<LogEntry> {
    if log == [] then None
    else if About(log[|log| - 1], user, permission) then Some(log[|log| - 1])
    else LastEntry(log[..|log| - 1], user, permission)
  }

  /** An override of one user and permission, as far as decisions depend on it. */
  datatype Override = Absent | Present(isGranted: bool, expiresAt: Option<Time>)

  /** What the table says. */
  ghost function Stored(t: Table<UserRow>, user: string, permission: string): Override {
    var rows := RowsOf(t, user);
    if permission in rows then Present(rows[permission].isGranted, rows[permission].expiresAt) else Absent
  }

  /** What one entry tells about the override after it. Storing a denial and deleting an override are both
      logged as revocations, but only a denial can have an expiry. */
  function Told(e: LogEntry): Override {
    if e.action == GrantAction then Present(true, e.expiresAt)
    else if e.expiresAt.Some? then Present(false, e.expiresAt)
    else Absent
  }

  /** What a reader of the log concludes. */
  ghost function Replayed(log: seq<LogEntry>, user: string, permission: string): Override {
    var last := LastEntry(log, user, permission);
    if last.Some? then Told(last.value) else Absent
  }

  /** A view in which a denial counts as no override. */
  function GrantedPart(o: Override): Override {
    if o.Present? && o.isGranted then o else Absent
  }

  /** The log replays to the whole table of overrides. */
  ghost predicate LogReplays(s: AuthState) {
    forall user, permission :: Replayed(s.log, user, permission) == Stored(s.userTable, user, permission)
  }

  /** The log replays to the granted overrides. */
  ghost predicate LogReplaysGrants(s: AuthState) {
    forall user, permission ::
      GrantedPart(Replayed(s.log, user, permission)) == GrantedPart(Stored(s.userTable, user, permission))
  }

  lemma LastEntryStep(log: seq<LogEntry>, e: LogEntry, user: string, permission: string)
    ensures LastEntry(log + [e], user, permission) ==
      if About(e, user, permission) then Some(e) else LastEntry(log, user, permission)
  {
    assert (log + [e])[..|log|] == log;
  }

  /** What a grant or revocation makes of the override it writes. */
  function NewOverride(op: Op): Override {
    if op.Grant? then Present(op.isGranted, op.expiresAt) else Absent
  }

  /** This operation writes the override of this user and permission. */
  predicate Writes(op: Op, user: string, permission: string) {
    && (op.Grant? || op.Revoke?) && op.tableOk
    && op.target.ToUser() && op.target.user.value == user && op.permission == permission
  }

  /** A user override is written and its log entry is stored or not. */
  predicate WritesOverride(op: Op, logged: bool) {
    (op.Grant? || op.Revoke?) && op.target.ToUser() && op.tableOk && op.logOk == logged
  }

  /** The override that the operation is about, before it. */
  ghost function Overwritten(s: AuthState, op: Op): Override
    requires (op.Grant? || op.Revoke?) && op.target.ToUser()
  {
    Stored(s.userTable, op.target.user.value, op.permission)
  }

  /** The table write happens and its log entry does not, and the write makes a difference. */
  ghost predicate Unlogged(s: AuthState, op: Op) {
    WritesOverride(op, false) && Overwritten(s, op) != NewOverride(op)
  }

  /** The same, as far as grants are concerned. */
  ghost predicate UnloggedGrant(s: AuthState, op: Op) {
    WritesOverride(op, false) && GrantedPart(Overwritten(s, op)) != GrantedPart(NewOverride(op))
  }

  /** A denial without an expiry is stored and logged: its entry reads like a deletion. */
  predicate PlainDenial(op: Op) {
    WritesOverride(op, true) && NewOverride(op) == Present(false, None)
  }

  /** This operation is an unlogged change or a logged denial without expiry. */
  ghost predicate Obscures(s: AuthState, op: Op) {
    Unlogged(s, op) || PlainDenial(op)
  }

  /** From a replayable state, an operation keeps the log replayable exactly when it is neither an unlogged
      change nor a logged denial without expiry. */
  lemma ReplayStep(s: AuthState, op: Op, s': AuthState)
    requires LogReplays(s) && Step(s, op, s')
    ensures LogReplays(s') <==> !Obscures(s, op)
  {
    if Obscures(s, op) {
      var user, permission := op.target.user.value, op.permission;
      assert Replayed(s.log, user, permission) == Stored(s.userTable, user, permission);
      ReplayStepAt(s, op, s', user, permission);
    } else {
      forall user, permission ensures Replayed(s'.log, user, permission) == Stored(s'.userTable, user, permission) {
        ReplayStepAt(s, op, s', user, permission);
      }
    }
  }

  lemma ReplayStepAt(s: AuthState, op: Op, s': AuthState, user: string, permission: string)
    requires Step(s, op, s') && Replayed(s.log, user, permission) == Stored(s.userTable, user, permission)
    ensures Replayed(s'.log, user, permission) == Stored(s'.userTable, user, permission)
       <==> !(Obscures(s, op) && Writes(op, user, permission))
  {
    OverrideStep(s, op, s', user, permission);
  }

  /** Granted overrides stay replayable exactly when the operation is not an unlogged change of one. */
  lemma ReplayGrantsStep(s: AuthState, op: Op, s': AuthState)
    requires LogReplaysGrants(s) && Step(s, op, s')
    ensures LogReplaysGrants(s') <==> !UnloggedGrant(s, op)
  {
    if UnloggedGrant(s, op) {
      var user, permission := op.target.user.value, op.permission;
      assert GrantedPart(Replayed(s.log, user, permission)) == GrantedPart(Stored(s.userTable, user, permission));
      OverrideStep(s, op, s', user, permission);
      assert GrantedPart(Replayed(s'.log, user, permission)) != GrantedPart(Stored(s'.userTable, user, permission));
    } else {
      forall user, permission
        ensures GrantedPart(Replayed(s'.log, user, permission)) == GrantedPart(Stored(s'.userTable, user, permission))
      {
        assert GrantedPart(Replayed(s.log, user, permission)) == GrantedPart(Stored(s.userTable, user, permission));
        OverrideStep(s, op, s', user, permission);
      }
    }
  }

  /** How any operation changes an override and what the log replays to. */
  lemma OverrideStep(s: AuthState, op: Op, s': AuthState, user: string, permission: string)
    requires Step(s, op, s')
    ensures Stored(s'.userTable, user, permission) ==
      if Writes(op, user, permission) then NewOverride(op) else Stored(s.userTable, user, permission)
    ensures Replayed(s'.log, user, permission) ==
      if Writes(op, user, permission) && op.logOk then Told(EntryOf(op)) else Replayed(s.log, user, permission)
  {
    StoredStep(s, op, s', user, permission);
    ReplayedStep(s, op, s', user, permission);
  }

  lemma StoredStep(s: AuthState, op: Op, s': AuthState, user: string, permission: string)
    requires Step(s, op, s')
    ensures Stored(s'.userTable, user, permission) ==
      if Writes(op, user, permission) then NewOverride(op) else Stored(s.userTable, user, permission)
  {
    if op.Grant? {
      StoredAfterGrant(s, op.target, op.permission, op.isGranted, op.expiresAt, op.actor, op.now, user, permission);
    } else if op.Revoke? {
      StoredAfterRevoke(s, op.target, op.permission, user, permission);
    } else {
      assert s'.userTable == s.userTable;
    }
  }

  lemma StoredAfterGrant(s: AuthState, t: Target, p: string, isGranted: bool, expiresAt: Option<Time>, actor: string,
                         now: Time, user: string, permission: string)
    ensures Stored(GrantWritten(s, t, p, isGranted, expiresAt, actor, now).userTable, user, permission) ==
      if t.ToUser() && t.user.value == user && p == permission then Present(isGranted, expiresAt)
      else Stored(s.userTable, user, permission)
  {
    if t.ToUser() {
      var row := UpsertedUser(RowsOf(s.userTable, t.user.value), p, isGranted, expiresAt, actor, now);
      StoredAfterPut(s.userTable, t.user.value, p, row, user, permission);
    }
  }

  lemma StoredAfterRevoke(s: AuthState, t: Target, p: string, user: string, permission: string)
    ensures Stored(RevokeWritten(s, t, p).userTable, user, permission) ==
      if t.ToUser() && t.user.value == user && p == permission then Absent else Stored(s.userTable, user, permission)
  {
    if t.ToUser() {
      StoredAfterDelete(s.userTable, t.user.value, p, user, permission);
    }
  }

  lemma StoredAfterPut(t: Table<UserRow>, owner: string, p: string, row: UserRow, user: string, permission: string)
    ensures Stored(PutRow(t, owner, p, row), user, permission) ==
      if (user, permission) == (owner, p) then Present(row.isGranted, row.expiresAt) else Stored(t, user, permission)
  {
  }

  lemma StoredAfterDelete(t: Table<UserRow>, owner: string, p: string, user: string, permission: string)
    ensures Stored(DeleteRow(t, owner, p), user, permission) ==
      if (user, permission) == (owner, p) then Absent else Stored(t, user, permission)
  {
  }

  /** The operation reaches its log entry, and the entry is stored. */
  predicate Appends(op: Op) {
    (op.Grant? || op.Revoke?) && op.logOk && (op.tableOk || !(op.target.ToRole() || op.target.ToUser()))
  }

  function EntryOf(op: Op): LogEntry
    requires op.Grant? || op.Revoke?
  {
    match op
    case Grant(t, p, g, exp, actor, now, _, _) =>
      LogEntry(if g then GrantAction else RevokeAction, t, p, g, actor, now, exp)
    case Revoke(t, p, actor, now, _, _) => LogEntry(RevokeAction, t, p, false, actor, now, None)
  }

  lemma LogAfterGrant(s: AuthState, op: Op)
    requires op.Grant?
    ensures var s' := AfterGrant(s, op.target, op.permission, op.isGranted, op.expiresAt, op.actor, op.now,
                                 op.tableOk, op.logOk);
      s'.log == if Appends(op) then s.log + [EntryOf(op)] else s.log
  {
  }

  lemma LogAfterRevoke(s: AuthState, op: Op)
    requires op.Revoke?
    ensures AfterRevoke(s, op.target, op.permission, op.actor, op.now, op.tableOk, op.logOk).log ==
      if Appends(op) then s.log + [EntryOf(op)] else s.log
  {
  }

  lemma LogAfter(s: AuthState, op: Op, s': AuthState)
    requires Step(s, op, s')
    ensures s'.log == if Appends(op) then s.log + [EntryOf(op)] else s.log
  {
    if op.Grant? {
      LogAfterGrant(s, op);
    } else if op.Revoke? {
      LogAfterRevoke(s, op);
    }
  }

  lemma ReplayedStep(s: AuthState, op: Op, s': AuthState, user: string, permission: string)
    requires Step(s, op, s')
    ensures Replayed(s'.log, user, permission) ==
      if Writes(op, user, permission) && op.logOk then Told(EntryOf(op)) else Replayed(s.log, user, permission)
  {
    LogAfter(s, op, s');
    if Appends(op) {
      LastEntryStep(s.log, EntryOf(op), user, permission);
    }
  }

  lemma {:induction false} LogReplaysUpTo(states: seq<AuthState>, ops: seq<Op>, n: nat)
    requires Run(states, ops) && n < |states| && LogReplays(states[0])
    requires forall i :: 0 <= i < n ==> !Obscures(states[i], ops[i])
    ensures LogReplays(states[n])
  {
    if n > 0 {
      LogReplaysUpTo(states, ops, n - 1);
      assert Step(states[n - 1], ops[n - 1], states[n - 1 + 1]);
      ReplayStep(states[n - 1], ops[n - 1], states[n]);
    }
  }

  /** Over every run, with reads, bulk updates and role changes in between: the log replays to the whole
      table of overrides in every state exactly when no override changes unlogged and no denial without
      expiry is stored and logged. */
  lemma LogReplaysOverRunsIff(states: seq<AuthState>, ops: seq<Op>)
    requires Run(states, ops) && LogReplays(states[0])
    ensures (forall n :: 0 <= n < |states| ==> LogReplays(states[n]))
       <==> forall i :: 0 <= i < |ops| ==> !Obscures(states[i], ops[i])
  {
    if forall i :: 0 <= i < |ops| ==> !Obscures(states[i], ops[i]) {
      forall n | 0 <= n < |states| ensures LogReplays(states[n]) {
        LogReplaysUpTo(states, ops, n);
      }
    } else {
      var i :| 0 <= i < |ops| && Obscures(states[i], ops[i]);
      assert Step(states[i], ops[i], states[i + 1]);
      if LogReplays(states[i]) {
        ReplayStep(states[i], ops[i], states[i + 1]);
      }
    }
  }

  /** Over every run without an unlogged change of a granted override, the log replays to the granted
      overrides, whatever denials are stored. */
  lemma {:induction false} LogReplaysGrantsOverRuns(states: seq<AuthState>, ops: seq<Op>, n: nat)
    requires Run(states, ops) && n < |states| && LogReplaysGrants(states[0])
    requires forall i :: 0 <= i < |ops| ==> !UnloggedGrant(states[i], ops[i])
    ensures LogReplaysGrants(states[n])
  {
    if n > 0 {
      LogReplaysGrantsOverRuns(states, ops, n - 1);
      assert Step(states[n - 1], ops[n - 1], states[n - 1 + 1]);
      ReplayGrantsStep(states[n - 1], ops[n - 1], states[n]);
    }
  }

  /** A role of this user, who is not super admin, has the permission. */
  ghost predicate RoleHas(s: AuthState, user: string, permission: string, now: Time) {
    && user in s.members && SUPER_ADMIN !in s.members[user]
    && SomeRoleGrants(s, NO_FAULTS, s.members[user], permission, now)
  }

  /** Storing a denial and deleting the override leave the same log exactly when the denial has no expiry.
      A user whose role has the permission keeps it after the deletion, and after the denial only once that
      has expired: no reader of the log can tell these two apart when there is no expiry. */
  lemma DenialLogsLikeDeletionIff(s: AuthState, user: string, permission: string, expiresAt: Option<Time>,
                                  actor: string, now: Time, later: Time)
    ensures
      var t := Target(UserPermissionType, None, Some(user));
      var denied := AfterGrant(s, t, permission, false, expiresAt, actor, now, true, true);
      var deleted := AfterRevoke(s, t, permission, actor, now, true, true);
      && (denied.log == deleted.log <==> expiresAt == None)
      && (RoleHas(s, user, permission, later) ==>
            && Has(deleted, NO_FAULTS, user, permission, later)
            && (Has(denied, NO_FAULTS, user, permission, later) <==> Expired(expiresAt, later)))
  {
    var t := Target(UserPermissionType, None, Some(user));
    var denied := AfterGrant(s, t, permission, false, expiresAt, actor, now, true, true);
    var deleted := AfterRevoke(s, t, permission, actor, now, true, true);
    assert denied.log[|s.log|].expiresAt == expiresAt && deleted.log[|s.log|].expiresAt == None;
    if user in s.members {
      SameRoles(s, denied, s.members[user], permission, later);
      SameRoles(s, deleted, s.members[user], permission, later);
    }
  }

  lemma SameRoles(s: AuthState, s': AuthState, roles: seq<string>, permission: string, now: Time)
    requires s'.roleTable == s.roleTable
    ensures SomeRoleGrants(s', NO_FAULTS, roles, permission, now) <==>
            SomeRoleGrants(s, NO_FAULTS, roles, permission, now)
  {
    assert forall r :: ReadRole(s', NO_FAULTS, r) == ReadRole(s, NO_FAULTS, r);
  }
}
