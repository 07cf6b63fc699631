/** What the decisions mean in terms of the stored rows alone, and what each write does to later decisions. */
module AuthDecisions {
  import opened GoStrings
  import opened AuthModel
  import opened AuthTheorems

  /******* The service *******/

  /** A row counts up to and including the instant at which it expires. */
  predicate InForce(expiresAt: Option<Time>, now: Time) {
    expiresAt == None || now <= expiresAt.value
  }

  /** The role has a row for the permission that is in force. */
  predicate RoleHolds(s: AuthState, role: string, permission: string, now: Time) {
    role in s.roleTable && permission in s.roleTable[role] && InForce(s.roleTable[role][permission].expiresAt, now)
  }

  predicate SomeRoleHolds(s: AuthState, f: Faults, user: string, permission: string, now: Time)
    requires user in s.members
  {
    exists i :: 0 <= i < |s.members[user]| && s.members[user][i] !in f.roles
                && RoleHolds(s, s.members[user][i], permission, now)
  }

  /** The user has an override of the permission that is in force. */
  predicate Overridden(s: AuthState, user: string, permission: string, now: Time) {
    user in s.userTable && permission in s.userTable[user] && InForce(s.userTable[user][permission].expiresAt, now)
  }

  /** A member has a permission as super admin, by the flag of an override in force, or without one by the row
      of a role; what cannot be read counts as not there. */
  lemma HasMeaning(s: AuthState, f: Faults, user: string, permission: string, now: Time)
    ensures Has(s, f, user, permission, now) <==>
      && !f.lookup && user in s.members
      && ("super_admin" in s.members[user]
          || if !f.userRows && Overridden(s, user, permission, now) then s.userTable[user][permission].isGranted
             else SomeRoleHolds(s, f, user, permission, now))
  {
    if user in s.members {
      assert forall r :: RoleGrants(ReadRole(s, f, r), permission, now) <==>
        r !in f.roles && RoleHolds(s, r, permission, now);
      assert SomeRoleGrants(s, f, s.members[user], permission, now) <==> SomeRoleHolds(s, f, user, permission, now);
    }
  }

  /******* What a write does to the decisions *******/

  /** A stored override decides while it is in force and leaves the decision to the roles afterwards. No other
      user and no other permission is affected. */
  lemma GrantDecides(s: AuthState, role: Option<string>, user: string, permission: string, isGranted: bool,
                     expiresAt: Option<Time>, actor: string, t: Time, logOk: bool, now: Time)
    ensures
      var target := Target(UserPermissionType, role, Some(user));
      var s' := AfterGrant(s, target, permission, isGranted, expiresAt, actor, t, true, logOk);
      && (user in s.members && "super_admin" !in s.members[user] ==>
            (Has(s', NO_FAULTS, user, permission, now) <==>
              if InForce(expiresAt, now) then isGranted else SomeRoleHolds(s, NO_FAULTS, user, permission, now)))
      && forall f, u, q :: (u, q) != (user, permission) ==> (Has(s', f, u, q, now) <==> Has(s, f, u, q, now))
  {
    var target := Target(UserPermissionType, role, Some(user));
    var s' := AfterGrant(s, target, permission, isGranted, expiresAt, actor, t, true, logOk);
    HasMeaning(s', NO_FAULTS, user, permission, now);
    OverrideFrame(s, s', user, permission, now);
  }

  /** A deleted override leaves the decision to the roles. */
  lemma RevokeDecides(s: AuthState, role: Option<string>, user: string, permission: string, actor: string, t: Time,
                      logOk: bool, now: Time)
    ensures
      var s' := AfterRevoke(s, Target(UserPermissionType, role, Some(user)), permission, actor, t, true, logOk);
      && (user in s.members && "super_admin" !in s.members[user] ==>
            (Has(s', NO_FAULTS, user, permission, now) <==> SomeRoleHolds(s, NO_FAULTS, user, permission, now)))
      && forall f, u, q :: (u, q) != (user, permission) ==> (Has(s', f, u, q, now) <==> Has(s, f, u, q, now))
  {
    var s' := AfterRevoke(s, Target(UserPermissionType, role, Some(user)), permission, actor, t, true, logOk);
    HasMeaning(s', NO_FAULTS, user, permission, now);
    OverrideFrame(s, s', user, permission, now);
  }

  lemma OverrideFrame(s: AuthState, s': AuthState, user: string, permission: string, now: Time)
    requires s'.members == s.members && s'.roleTable == s.roleTable
    requires forall u, q :: (u, q) != (user, permission) ==>
      (q in RowsOf(s'.userTable, u) <==> q in RowsOf(s.userTable, u))
      && (q in RowsOf(s.userTable, u) ==> RowsOf(s'.userTable, u)[q] == RowsOf(s.userTable, u)[q])
    ensures forall f, u, q :: (u, q) != (user, permission) ==> (Has(s', f, u, q, now) <==> Has(s, f, u, q, now))
    ensures forall u | u in s.members ::
      SomeRoleHolds(s', NO_FAULTS, u, permission, now) <==> SomeRoleHolds(s, NO_FAULTS, u, permission, now)
  {
    forall f, u, q | (u, q) != (user, permission) ensures Has(s', f, u, q, now) <==> Has(s, f, u, q, now) {
      HasMeaning(s, f, u, q, now);
      HasMeaning(s', f, u, q, now);
      assert q in RowsOf(s'.userTable, u) <==> q in RowsOf(s.userTable, u);
    }
  }

  /** The user has another role that holds the permission. */
  predicate OtherRoleHolds(s: AuthState, role: string, user: string, permission: string, now: Time)
    requires user in s.members
  {
    exists i :: 0 <= i < |s.members[user]| && s.members[user][i] != role
                && RoleHolds(s, s.members[user][i], permission, now)
  }

  /** A role grant holds for the members of the role while it is in force, whatever its flag says, and for
      nobody else. */
  lemma RoleGrantDecides(s: AuthState, role: string, other: Option<string>, permission: string, isGranted: bool,
                         expiresAt: Option<Time>, actor: string, t: Time, logOk: bool, user: string, now: Time)
    requires user in s.members && "super_admin" !in s.members[user] && !Overridden(s, user, permission, now)
    ensures
      var target := Target(RoleType, Some(role), other);
      var s' := AfterGrant(s, target, permission, isGranted, expiresAt, actor, t, true, logOk);
      Has(s', NO_FAULTS, user, permission, now) <==>
        (role in s.members[user] && InForce(expiresAt, now)) || OtherRoleHolds(s, role, user, permission, now)
  {
    var target := Target(RoleType, Some(role), other);
    var s' := AfterGrant(s, target, permission, isGranted, expiresAt, actor, t, true, logOk);
    HasMeaning(s', NO_FAULTS, user, permission, now);
    RoleFrame(s, s', role, user, permission, now, InForce(expiresAt, now));
  }

  lemma RoleRevokeDecides(s: AuthState, role: string, other: Option<string>, permission: string, actor: string, t: Time,
                          logOk: bool, user: string, now: Time)
    requires user in s.members && "super_admin" !in s.members[user] && !Overridden(s, user, permission, now)
    ensures
      var s' := AfterRevoke(s, Target(RoleType, Some(role), other), permission, actor, t, true, logOk);
      Has(s', NO_FAULTS, user, permission, now) <==> OtherRoleHolds(s, role, user, permission, now)
  {
    var s' := AfterRevoke(s, Target(RoleType, Some(role), other), permission, actor, t, true, logOk);
    HasMeaning(s', NO_FAULTS, user, permission, now);
    RoleFrame(s, s', role, user, permission, now, false);
  }

  lemma RoleFrame(s: AuthState, s': AuthState, role: string, user: string, permission: string, now: Time, held: bool)
    requires user in s.members && s'.members == s.members
    requires RoleHolds(s', role, permission, now) == held
    requires forall r :: r != role ==> (RoleHolds(s', r, permission, now) <==> RoleHolds(s, r, permission, now))
    ensures SomeRoleHolds(s', NO_FAULTS, user, permission, now) <==>
      (role in s.members[user] && held) || OtherRoleHolds(s, role, user, permission, now)
  {
    if role in s.members[user] {
      var i :| 0 <= i < |s.members[user]| && s.members[user][i] == role;
      assert held ==> RoleHolds(s', s'.members[user][i], permission, now);
    }
    if OtherRoleHolds(s, role, user, permission, now) {
      var i :| 0 <= i < |s.members[user]| && s.members[user][i] != role
               && RoleHolds(s, s.members[user][i], permission, now);
      assert RoleHolds(s', s'.members[user][i], permission, now);
    }
    if SomeRoleHolds(s', NO_FAULTS, user, permission, now) {
      var i :| 0 <= i < |s.members[user]| && RoleHolds(s', s.members[user][i], permission, now);
      if s.members[user][i] != role {
        assert RoleHolds(s, s.members[user][i], permission, now);
      }
    }
  }

  /** A write whose statement fails changes nothing. One whose target is neither a role nor a user, or does not say
      which, changes no table and no cache. */
  lemma UntargetedWrites(s: AuthState, t: Target, permission: string, isGranted: bool, expiresAt: Option<Time>,
                         actor: string, now: Time, logOk: bool)
    ensures
      var targeted := (t.kind == RoleType && t.role != None) || (t.kind == UserPermissionType && t.user != None);
      var g := AfterGrant(s, t, permission, isGranted, expiresAt, actor, now, false, logOk);
      var r := AfterRevoke(s, t, permission, actor, now, false, logOk);
      if targeted then g == s && r == s else s.(log := g.log) == g && s.(log := r.log) == r
  {
  }

  /** Granting an override again keeps its creation time and records the second actor, flag and expiry. */
  lemma RegrantKeepsCreation(s: AuthState, t: Target, permission: string, g1: bool, e1: Option<Time>, a1: string,
                             t1: Time, g2: bool, e2: Option<Time>, a2: string, t2: Time)
    requires t.ToUser() && permission !in RowsOf(s.userTable, t.user.value)
    ensures
      var s1 := AfterGrant(s, t, permission, g1, e1, a1, t1, true, true);
      var s2 := AfterGrant(s1, t, permission, g2, e2, a2, t2, true, true);
      && t.user.value in s2.userTable && permission in s2.userTable[t.user.value]
      && s2.userTable[t.user.value][permission] == UserRow(g2, Some(a2), t1, e2)
  {
  }

  /** The same for a role, whose rows have no flag and no actor. */
  lemma RoleRegrantKeepsCreation(s: AuthState, t: Target, permission: string, e1: Option<Time>, t1: Time,
                                 e2: Option<Time>, t2: Time, actor: string)
    requires t.ToRole() && permission !in RowsOf(s.roleTable, t.role.value)
    ensures
      var s1 := AfterGrant(s, t, permission, true, e1, actor, t1, true, true);
      var s2 := AfterGrant(s1, t, permission, true, e2, actor, t2, true, true);
      && t.role.value in s2.roleTable && permission in s2.roleTable[t.role.value]
      && s2.roleTable[t.role.value][permission] == RoleRow(t1, e2)
  {
  }

  /** What a bulk update leaves in the tables, whether it fails or not: old rows untouched, and new ones without an
      expiry, only for requested permissions. Other roles, the overrides and the log stay as they are. */
  lemma UpdateRows(s: AuthState, role: string, requested: set<string>, t: Time, failedAfter: Option<nat>, s': AuthState)
    requires Step(s, UpdateRole(role, requested, t, failedAfter), s')
    ensures var before, after := RowsOf(s.roleTable, role), RowsOf(s'.roleTable, role);
      forall p :: p in after ==>
        if p in before then after[p] == before[p] else p in requested && after[p] == RoleRow(t, None)
    ensures forall r :: r != role ==> RowsOf(s'.roleTable, r) == RowsOf(s.roleTable, r)
    ensures s'.userTable == s.userTable && s'.log == s.log && s'.members == s.members && s'.userCache == s.userCache
  {
  }

  /** A failed bulk update loses no row that was requested, and none at all until every requested one is there. */
  lemma FailedUpdateGrantsFirst(s: AuthState, role: string, requested: set<string>, t: Time, writes: nat, s': AuthState)
    requires Step(s, UpdateRole(role, requested, t, Some(writes)), s')
    ensures forall p :: p in RowsOf(s.roleTable, role) && p in requested ==>
      p in RowsOf(s'.roleTable, role) && RowsOf(s'.roleTable, role)[p] == RowsOf(s.roleTable, role)[p]
    ensures (exists p :: p in RowsOf(s.roleTable, role) && p !in RowsOf(s'.roleTable, role)) ==>
      forall p :: p in requested ==> p in RowsOf(s'.roleTable, role)
  {
    var before, after := RowsOf(s.roleTable, role), RowsOf(s'.roleTable, role);
    forall p | p in before && p in requested ensures p in after && after[p] == before[p] {
      assert p in before.Keys * requested;
    }
  }

  /******* The audit log as a record *******/

  predicate Records(e: LogEntry, op: Op) {
    && (op.Grant? || op.Revoke?)
    && e.target == op.target && e.permission == op.permission && e.changedBy == op.actor && e.createdAt == op.now
    && e.isGranted == (op.Grant? && op.isGranted) && (e.action == GrantAction <==> op.Grant? && op.isGranted)
    && e.expiresAt == if op.Grant? then op.expiresAt else None
  }

  /** Every operation leaves the log as it was or adds one entry, and the entry says who changed what, for
      whom, when and how. A grant or revocation adds one exactly when its table write, if it has one, and the
      log write go through. */
  lemma LogStepRecords(s: AuthState, op: Op, s': AuthState)
    requires Step(s, op, s')
    ensures s.log <= s'.log && |s'.log| <= |s.log| + 1
    ensures |s'.log| == |s.log| + 1 ==> Records(s'.log[|s.log|], op)
    ensures op.Grant? || op.Revoke? ==>
      var targeted := (op.target.kind == RoleType && op.target.role != None)
                   || (op.target.kind == UserPermissionType && op.target.user != None);
      |s'.log| == |s.log| + 1 <==> op.logOk && (targeted ==> op.tableOk)
  {
    LogAfter(s, op, s');
  }

  /** Over every run the log only grows at its end. */
  lemma {:induction false} LogIsAppendOnly(states: seq<AuthState>, ops: seq<Op>, i: nat, j: nat)
    requires Run(states, ops) && i <= j < |states|
    ensures states[i].log <= states[j].log && |states[j].log| <= |states[i].log| + (j - i)
  {
    if i < j {
      LogIsAppendOnly(states, ops, i, j - 1);
      assert Step(states[j - 1], ops[j - 1], states[j - 1 + 1]);
      LogStepRecords(states[j - 1], ops[j - 1], states[j]);
    }
  }

  /******* The middleware *******/

  /** The keys of the rows that a read of a role sees, through the cache. */
  function SeenOfRole(s: AuthState, f: Faults, role: string): set<string> {
    if s.redisUp && role in s.roleCache then s.roleCache[role].Keys
    else if role !in f.roles && role in s.roleTable then s.roleTable[role].Keys
    else {}
  }

  function SeenOfUser(s: AuthState, f: Faults, user: string): set<string> {
    if s.redisUp && user in s.userCache then s.userCache[user].Keys
    else if !f.userRows && user in s.userTable then s.userTable[user].Keys
    else {}
  }

  /** An exact name, or a prefix followed by ".*" whose prefix and dot begin the permission. */
  lemma PatternMeaning(permission: string, pattern: string)
    ensures MatchesPattern(permission, pattern) <==>
      permission == pattern || exists prefix :: pattern == prefix + ".*" && prefix + "." <= permission
  {
    if HasSuffix(pattern, ".*") {
      assert pattern == pattern[..|pattern| - 2] + ".*";
    }
    forall prefix | pattern == prefix + ".*" ensures HasSuffix(pattern, ".*") && pattern[..|pattern| - 2] == prefix {
    }
  }

  /** The permission matches one of the patterns. */
  predicate Covered(permission: string, patterns: seq<string>) {
    exists k :: 0 <= k < |patterns| && MatchesPattern(permission, patterns[k])
  }

  /** The request is refused as unauthorized exactly when there is no such member, and let through exactly for a
      super admin or when a row that was read matches a pattern. Otherwise it is forbidden. */
  lemma AllowedMeaning(s: AuthState, f: Faults, user: string, patterns: seq<string>)
    ensures Allowed(s, f, user, patterns) == Unauthorized <==> user == "" || f.lookup || user !in s.members
    ensures Allowed(s, f, user, patterns) == Next <==>
      && user != "" && !f.lookup && user in s.members
      && (|| "super_admin" in s.members[user]
          || (exists i, p :: 0 <= i < |s.members[user]| && p in SeenOfRole(s, f, s.members[user][i])
                             && Covered(p, patterns))
          || (exists p :: p in SeenOfUser(s, f, user) && Covered(p, patterns)))
  {
    if user in s.members {
      forall r ensures ReadMatches(CachedReadRole(s, f, r), patterns) <==>
        exists p :: p in SeenOfRole(s, f, r) && Covered(p, patterns)
      {
        SeenMatches(CachedReadRole(s, f, r), SeenOfRole(s, f, r), patterns);
      }
      SeenMatches(CachedReadUser(s, f, user), SeenOfUser(s, f, user), patterns);
    }
  }

  lemma SeenMatches<R>(read: Result<Rows<R>>, seen: set<string>, patterns: seq<string>)
    requires seen == if read.Ok? then read.value.Keys else {}
    ensures ReadMatches(read, patterns) <==> exists p :: p in seen && Covered(p, patterns)
  {
    forall p ensures MatchesAny(p, patterns) <==> Covered(p, patterns) {
    }
  }

  /** A route that lists more patterns lets through exactly what either list lets through. */
  lemma PatternListsJoin(s: AuthState, f: Faults, user: string, a: seq<string>, b: seq<string>)
    ensures forall p :: MatchesAny(p, a + b) <==> MatchesAny(p, a) || MatchesAny(p, b)
    ensures Allowed(s, f, user, a + b) == Next <==> Allowed(s, f, user, a) == Next || Allowed(s, f, user, b) == Next
  {
    forall p ensures Covered(p, a + b) <==> Covered(p, a) || Covered(p, b) {
      assert forall k :: 0 <= k < |a| ==> (a + b)[k] == a[k];
      assert forall k :: 0 <= k < |b| ==> (a + b)[|a| + k] == b[k];
      if k :| 0 <= k < |b| && MatchesPattern(p, b[k]) {
        assert MatchesPattern(p, (a + b)[|a| + k]);
      }
    }
    forall p, patterns ensures MatchesAny(p, patterns) <==> Covered(p, patterns) {
    }
    AllowedMeaning(s, f, user, a);
    AllowedMeaning(s, f, user, b);
    AllowedMeaning(s, f, user, a + b);
  }

  /******* The cache *******/

  /** Rows that were read stay readable without the database until their key is dropped; no rows are not kept,
      so that the first grant is seen at once. */
  lemma ReadFillsCache(s: AuthState, f: Faults, role: string, user: string)
    requires s.redisUp
    ensures
      var s' := AfterCachedReadRole(s, f, role);
      match CachedReadRole(s, f, role)
      case Ok(rows) => if rows != map[] then forall g :: CachedReadRole(s', g, role) == Ok(rows)
                       else role !in s.roleCache ==> role !in s'.roleCache
      case DbError => s' == s
    ensures
      var s' := AfterCachedReadUser(s, f, user);
      match CachedReadUser(s, f, user)
      case Ok(rows) => if rows != map[] then forall g :: CachedReadUser(s', g, user) == Ok(rows)
                       else user !in s.userCache ==> user !in s'.userCache
      case DbError => s' == s
  {
  }

  /** Dropping a key makes the next read go to the table, and leaves every other key alone. */
  lemma DropReloads(s: AuthState, f: Faults, role: string, user: string)
    ensures
      var s' := s.(roleCache := DropKey(s.redisUp, s.roleCache, role),
                   userCache := DropKey(s.redisUp, s.userCache, user));
      && CachedReadRole(s', f, role) == ReadRole(s, f, role) && CachedReadUser(s', f, user) == ReadUser(s, f, user)
      && (forall r :: r != role ==> CachedReadRole(s', f, r) == CachedReadRole(s, f, r))
      && (forall u :: u != user ==> CachedReadUser(s', f, u) == CachedReadUser(s, f, u))
  {
  }
}
