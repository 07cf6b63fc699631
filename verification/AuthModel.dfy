/** Permission rows, tables and the permission cache as values, the decisions taken over them,
    and the effect of every operation of the auth service as a step on the whole state. */
module AuthModel {
  import opened GoStrings

  /******* Rows and tables *******/

  type Time = int

  datatype Option<+T> = None | Some(value: T)

  datatype Result<+T> = Ok(value: T) | DbError

  datatype RoleRow = RoleRow(createdAt: Time, expiresAt: Option<Time>)

  datatype UserRow = UserRow(isGranted: bool, assignedBy: Option<string>, createdAt: Time, expiresAt: Option<Time>)

  // The primary keys are (role, permission) and (user_id, permission): owner first, then permission.
  type Rows<R> = map<string, R>
  type Table<R> = map<string, Rows<R>>

  function RowsOf<R>(t: Table<R>, owner: string): Rows<R> {
    if owner in t then t[owner] else map[]
  }

  /** There is an expiry and it lies strictly before now. */
  predicate Expired(expiresAt: Option<Time>, now: Time) {
    expiresAt.Some? && expiresAt.value < now
  }

  function PutRow<R>(t: Table<R>, owner: string, permission: string, row: R): Table<R> {
    t[owner := RowsOf(t, owner)[permission := row]]
  }

  function DeleteRow<R>(t: Table<R>, owner: string, permission: string): Table<R> {
    t[owner := RowsOf(t, owner) - {permission}]
  }

  /** The row after a role grant: an existing one changes only its expiry. */
  function UpsertedRole(rows: Rows<RoleRow>, permission: string, expiresAt: Option<Time>, now: Time): RoleRow {
    if permission in rows then rows[permission].(expiresAt := expiresAt) else RoleRow(now, expiresAt)
  }

  /** The row after a user grant: an existing one changes all but its creation time. */
  function UpsertedUser(rows: Rows<UserRow>, permission: string, isGranted: bool, expiresAt: Option<Time>,
                        actor: string, now: Time): UserRow
  {
    UserRow(isGranted, Some(actor), if permission in rows then rows[permission].createdAt else now, expiresAt)
  }

  /******* Audit log *******/

  /** The `targetType` strings "role", "user_permission" and any other. */
  datatype TargetType = RoleType | UserPermissionType | OtherType(name: string)

  /** Which table a change is aimed at, exactly as the two service methods receive it. */
  datatype Target = Target(kind: TargetType, role: Option<string>, user: Option<string>) {
    predicate ToRole() {
      kind.RoleType? && role.Some?
    }

    predicate ToUser() {
      kind.UserPermissionType? && user.Some?
    }
  }

  datatype Action = GrantAction | RevokeAction

  datatype LogEntry = LogEntry(action: Action, target: Target, permission: string, isGranted: bool,
                               changedBy: string, createdAt: Time, expiresAt: Option<Time>)

  /******* State *******/

  /** Everything the permission engine reads or writes. `members` is what `GetUserByID` knows: the
      roles of each existing user. The two caches hold decoded row lists under the Redis keys built
      from a role name and from a user id. */
  datatype AuthState = AuthState(
    members: map<string, seq<string>>,
    roleTable: Table<RoleRow>,
    userTable: Table<UserRow>,
    log: seq<LogEntry>,
    redisUp: bool,
    roleCache: map<string, Rows<RoleRow>>,
    userCache: map<string, Rows<UserRow>>)

  const USER_KEY := "user:permissions:"
  const ROLE_KEY := "role:permissions:"

  /** Two maps stand for the one Redis key space: a role key and a user key never meet, and
      different owners have different keys. */
  lemma CacheKeysDistinct(a: string, b: string)
    ensures ROLE_KEY + a != USER_KEY + b
    ensures a != b ==> ROLE_KEY + a != ROLE_KEY + b && USER_KEY + a != USER_KEY + b
  {
    assert (ROLE_KEY + a)[0] == 'r' && (USER_KEY + b)[0] == 'u';
    assert (ROLE_KEY + a)[|ROLE_KEY|..] == a && (ROLE_KEY + b)[|ROLE_KEY|..] == b;
    assert (USER_KEY + a)[|USER_KEY|..] == a && (USER_KEY + b)[|USER_KEY|..] == b;
  }

  /******* Reads *******/

  /** Which database reads fail while one decision is being taken. */
  datatype Faults = Faults(lookup: bool, userRows: bool, roles: set<string>)

  const NO_FAULTS := Faults(false, false, {})

  function ReadRole(s: AuthState, f: Faults, role: string): Result<Rows<RoleRow>> {
    if role in f.roles then DbError else Ok(RowsOf(s.roleTable, role))
  }

  function ReadUser(s: AuthState, f: Faults, user: string): Result<Rows<UserRow>> {
    if f.userRows then DbError else Ok(RowsOf(s.userTable, user))
  }

  function CachedReadRole(s: AuthState, f: Faults, role: string): Result<Rows<RoleRow>> {
    if s.redisUp && role in s.roleCache then Ok(s.roleCache[role]) else ReadRole(s, f, role)
  }

  function CachedReadUser(s: AuthState, f: Faults, user: string): Result<Rows<UserRow>> {
    if s.redisUp && user in s.userCache then Ok(s.userCache[user]) else ReadUser(s, f, user)
  }

  /** A cached read that misses stores what it loaded, unless it loaded no row at all. */
  function AfterCachedReadRole(s: AuthState, f: Faults, role: string): AuthState {
    if s.redisUp && role !in s.roleCache && ReadRole(s, f, role).Ok? && RowsOf(s.roleTable, role) != map[]
    then s.(roleCache := s.roleCache[role := RowsOf(s.roleTable, role)])
    else s
  }

  function AfterCachedReadUser(s: AuthState, f: Faults, user: string): AuthState {
    if s.redisUp && user !in s.userCache && ReadUser(s, f, user).Ok? && RowsOf(s.userTable, user) != map[]
    then s.(userCache := s.userCache[user := RowsOf(s.userTable, user)])
    else s
  }

  /******* Decisions *******/

  const SUPER_ADMIN := "super_admin"

  predicate Active(rows: Rows<RoleRow>, permission: string, now: Time) {
    permission in rows && !Expired(rows[permission].expiresAt, now)
  }

  /** The unexpired overrides of a user, as `GetUserPermissions` returns them. */
  function Overrides(rows: Rows<UserRow>, now: Time): map<string, bool> {
    map p | p in rows && !Expired(rows[p].expiresAt, now) :: rows[p].isGranted
  }

  predicate RoleGrants(read: Result<Rows<RoleRow>>, permission: string, now: Time) {
    read.Ok? && Active(read.value, permission, now)
  }

  predicate SomeRoleGrants(s: AuthState, f: Faults, roles: seq<string>, permission: string, now: Time) {
    exists i :: 0 <= i < |roles| && RoleGrants(ReadRole(s, f, roles[i]), permission, now)
  }

  /** The overrides-first decision. */
  predicate Has(s: AuthState, f: Faults, user: string, permission: string, now: Time) {
    && !f.lookup && user in s.members
    && (SUPER_ADMIN in s.members[user] ||
        var overrides := if f.userRows then map[] else Overrides(RowsOf(s.userTable, user), now);
        if permission in overrides then overrides[permission]
        else SomeRoleGrants(s, f, s.members[user], permission, now))
  }

  function RoleSet(s: AuthState, f: Faults, roles: seq<string>, now: Time): set<string> {
    if roles == [] then {}
    else
      RoleSet(s, f, roles[..|roles| - 1], now) +
      match ReadRole(s, f, roles[|roles| - 1])
      case Ok(rows) => (set p | p in rows && Active(rows, p, now))
      case DbError => {}
  }

  /** The build-the-whole-set decision, for a user who is not super admin. */
  function ComputedSet(s: AuthState, f: Faults, user: string, roles: seq<string>, now: Time): set<string> {
    var overrides := if f.userRows then map[] else Overrides(RowsOf(s.userTable, user), now);
    RoleSet(s, f, roles, now) + (set p | p in overrides && overrides[p]) - (set p | p in overrides && !overrides[p])
  }

  /** The pattern language of the middleware: an exact name, or "prefix.*". */
  predicate MatchesPattern(permission: string, pattern: string) {
    permission == pattern ||
    (HasSuffix(pattern, ".*") && HasPrefix(permission, pattern[..|pattern| - 2] + "."))
  }

  predicate MatchesAny(permission: string, patterns: seq<string>) {
    exists i :: 0 <= i < |patterns| && MatchesPattern(permission, patterns[i])
  }

  datatype Decision = Next | Unauthorized | Forbidden

  predicate SomeMatches(permissions: set<string>, patterns: seq<string>) {
    exists p :: p in permissions && MatchesAny(p, patterns)
  }

  predicate ReadMatches<R>(read: Result<Rows<R>>, patterns: seq<string>) {
    read.Ok? && SomeMatches(read.value.Keys, patterns)
  }

  predicate RoleRowMatches(s: AuthState, f: Faults, roles: seq<string>, patterns: seq<string>) {
    exists i :: 0 <= i < |roles| && ReadMatches(CachedReadRole(s, f, roles[i]), patterns)
  }

  /** What the permission middleware answers. */
  function Allowed(s: AuthState, f: Faults, user: string, patterns: seq<string>): Decision {
    if user == "" || f.lookup || user !in s.members then Unauthorized
    else if SUPER_ADMIN in s.members[user]
            || RoleRowMatches(s, f, s.members[user], patterns)
            || ReadMatches(CachedReadUser(s, f, user), patterns) then Next
    else Forbidden
  }

  /******* Writes *******/

  function DropKey<V>(redisUp: bool, cache: map<string, V>, key: string): map<string, V> {
    if redisUp then cache - {key} else cache
  }

  /** The table write of a grant, with the key it drops. A target that is neither a role nor a user override
      writes nothing. */
  function GrantWritten(s: AuthState, t: Target, permission: string, isGranted: bool, expiresAt: Option<Time>,
                        actor: string, now: Time): AuthState
  {
    if t.ToRole() then
      var role := t.role.value;
      var row := UpsertedRole(RowsOf(s.roleTable, role), permission, expiresAt, now);
      s.(roleTable := PutRow(s.roleTable, role, permission, row), roleCache := DropKey(s.redisUp, s.roleCache, role))
    else if t.ToUser() then
      var user := t.user.value;
      var row := UpsertedUser(RowsOf(s.userTable, user), permission, isGranted, expiresAt, actor, now);
      s.(userTable := PutRow(s.userTable, user, permission, row), userCache := DropKey(s.redisUp, s.userCache, user))
    else s
  }

  function RevokeWritten(s: AuthState, t: Target, permission: string): AuthState {
    if t.ToRole() then
      s.(roleTable := DeleteRow(s.roleTable, t.role.value, permission),
         roleCache := DropKey(s.redisUp, s.roleCache, t.role.value))
    else if t.ToUser() then
      s.(userTable := DeleteRow(s.userTable, t.user.value, permission),
         userCache := DropKey(s.redisUp, s.userCache, t.user.value))
    else s
  }

  function Logged(s: AuthState, entry: LogEntry, logOk: bool): AuthState {
    if logOk then s.(log := s.log + [entry]) else s
  }

  function AfterGrant(s: AuthState, t: Target, permission: string, isGranted: bool, expiresAt: Option<Time>,
                      actor: string, now: Time, tableOk: bool, logOk: bool): AuthState
  {
    if (t.ToRole() || t.ToUser()) && !tableOk then s
    else
      var action := if isGranted then GrantAction else RevokeAction;
      Logged(GrantWritten(s, t, permission, isGranted, expiresAt, actor, now),
             LogEntry(action, t, permission, isGranted, actor, now, expiresAt), logOk)
  }

  function AfterRevoke(s: AuthState, t: Target, permission: string, actor: string, now: Time,
                       tableOk: bool, logOk: bool): AuthState
  {
    if (t.ToRole() || t.ToUser()) && !tableOk then s
    else
      Logged(RevokeWritten(s, t, permission),
             LogEntry(RevokeAction, t, permission, false, actor, now, None), logOk)
  }

  /** Every row left by a bulk update is an old row untouched, or a new one without expiry. */
  predicate KeptOrNew(before: Rows<RoleRow>, after: Rows<RoleRow>, now: Time) {
    forall p :: p in after ==> after[p] == if p in before then before[p] else RoleRow(now, None)
  }

  ghost predicate OnlyRoleChanged(t: Table<RoleRow>, t': Table<RoleRow>, role: string, now: Time) {
    && KeptOrNew(RowsOf(t, role), RowsOf(t', role), now)
    && forall r :: r != role ==> RowsOf(t', r) == RowsOf(t, r)
  }

  /** A bulk update of one role. Without a failure the role ends with the whole new set. When a statement
      fails after `failedAfter` others succeeded, missing permissions were granted before any other was
      revoked, so either nothing old is gone or nothing new is missing; and something changed exactly when a
      statement had succeeded. */
  ghost predicate UpdateStep(s: AuthState, role: string, requested: set<string>, now: Time, failedAfter: Option<nat>,
                             s': AuthState)
  {
    var before, after := RowsOf(s.roleTable, role), RowsOf(s'.roleTable, role);
    && s' == s.(roleTable := s'.roleTable, roleCache := s'.roleCache)
    && OnlyRoleChanged(s.roleTable, s'.roleTable, role, now)
    && match failedAfter
       case None => after.Keys == requested && s'.roleCache == DropKey(s.redisUp, s.roleCache, role)
       case Some(writes) =>
         && s'.roleCache == s.roleCache
         && before.Keys * requested <= after.Keys <= before.Keys + requested
         && (before.Keys <= after.Keys || requested <= after.Keys)
         && (writes == 0 <==> after.Keys == before.Keys)
  }

  /******* Steps and runs *******/

  datatype Op =
    | Grant(target: Target, permission: string, isGranted: bool, expiresAt: Option<Time>, actor: string, now: Time,
            tableOk: bool, logOk: bool)
    | Revoke(target: Target, permission: string, actor: string, now: Time, tableOk: bool, logOk: bool)
    | UpdateRole(role: string, requested: set<string>, now: Time, failedAfter: Option<nat>)
    | FetchRole(role: string, faults: Faults)
    | FetchUser(user: string, faults: Faults)
    | RoleEntryLapses(role: string)
    | UserEntryLapses(user: string)

  ghost predicate Step(s: AuthState, op: Op, s': AuthState) {
    match op
    case Grant(t, p, g, exp, actor, now, tableOk, logOk) =>
      s' == AfterGrant(s, t, p, g, exp, actor, now, tableOk, logOk)
    case Revoke(t, p, actor, now, tableOk, logOk) => s' == AfterRevoke(s, t, p, actor, now, tableOk, logOk)
    case UpdateRole(role, requested, now, failedAfter) => UpdateStep(s, role, requested, now, failedAfter, s')
    case FetchRole(role, f) => s' == AfterCachedReadRole(s, f, role)
    case FetchUser(user, f) => s' == AfterCachedReadUser(s, f, user)
    case RoleEntryLapses(role) => s' == s.(roleCache := s.roleCache - {role})
    case UserEntryLapses(user) => s' == s.(userCache := s.userCache - {user})
  }

  /** A run: one state more than there are operations, each operation leading to the next state. */
  ghost predicate Run(states: seq<AuthState>, ops: seq<Op>) {
    && |states| == |ops| + 1
    && forall i :: 0 <= i < |ops| ==> Step(states[i], ops[i], states[i + 1])
  }
}
