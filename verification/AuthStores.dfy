/** The two stores behind the permission engine: the tables the repository writes, and Redis.
    Every statement may fail; a failing write leaves its table as it was. */
module AuthStores {
  import opened AuthModel

  class Repository {
    var members: map<string, seq<string>>
    var roleTable: Table<RoleRow>
    var userTable: Table<UserRow>
    var log: seq<LogEntry>

    method GetUserByID(user: string, f: Faults) returns (r: Result<seq<string>>)
      ensures r == if f.lookup || user !in members then DbError else Ok(members[user])
    {
      if f.lookup || user !in members {
        return DbError;
      }
      return Ok(members[user]);
    }

    method GrantRolePermission(role: string, permission: string, expiresAt: Option<Time>, now: Time) returns (ok: bool)
      modifies this`roleTable
      ensures roleTable ==
        if ok then PutRow(old(roleTable), role, permission,
                          UpsertedRole(RowsOf(old(roleTable), role), permission, expiresAt, now))
        else old(roleTable)
    {
      ok := *;
      if ok {
        var rows := RowsOf(roleTable, role);
        if permission in rows {
          rows := rows[permission := rows[permission].(expiresAt := expiresAt)];
        } else {
          rows := rows[permission := RoleRow(now, expiresAt)];
        }
        roleTable := roleTable[role := rows];
      }
    }

    method RevokeRolePermission(role: string, permission: string) returns (ok: bool)
      modifies this`roleTable
      ensures roleTable == if ok then DeleteRow(old(roleTable), role, permission) else old(roleTable)
    {
      ok := *;
      if ok {
        roleTable := roleTable[role := RowsOf(roleTable, role) - {permission}];
      }
    }

    method GetRolePermissions(role: string, f: Faults) returns (r: Result<Rows<RoleRow>>)
      ensures r == if role in f.roles then DbError else Ok(RowsOf(roleTable, role))
    {
      if role in f.roles {
        return DbError;
      }
      return Ok(RowsOf(roleTable, role));
    }

    method GrantUserPermission(user: string, permission: string, isGranted: bool, expiresAt: Option<Time>,
                               actor: string, now: Time)
      returns (ok: bool)
      modifies this`userTable
      ensures userTable ==
        if ok then PutRow(old(userTable), user, permission,
                          UpsertedUser(RowsOf(old(userTable), user), permission, isGranted, expiresAt, actor, now))
        else old(userTable)
    {
      ok := *;
      if ok {
        var rows := RowsOf(userTable, user);
        if permission in rows {
          var row := rows[permission].(isGranted := isGranted, assignedBy := Some(actor), expiresAt := expiresAt);
          rows := rows[permission := row];
        } else {
          rows := rows[permission := UserRow(isGranted, Some(actor), now, expiresAt)];
        }
        userTable := userTable[user := rows];
      }
    }

    method RevokeUserPermission(user: string, permission: string) returns (ok: bool)
      modifies this`userTable
      ensures userTable == if ok then DeleteRow(old(userTable), user, permission) else old(userTable)
    {
      ok := *;
      if ok {
        userTable := userTable[user := RowsOf(userTable, user) - {permission}];
      }
    }

    method GetUserPermissions(user: string, f: Faults) returns (r: Result<Rows<UserRow>>)
      ensures r == if f.userRows then DbError else Ok(RowsOf(userTable, user))
    {
      if f.userRows {
        return DbError;
      }
      return Ok(RowsOf(userTable, user));
    }

    method LogPermissionChange(entry: LogEntry) returns (ok: bool)
      modifies this`log
      ensures log == if ok then old(log) + [entry] else old(log)
    {
      ok := *;
      if ok {
        log := log + [entry];
      }
    }
  }

  /** The Redis client shared by the service and the middleware; `up` is false when there is none. */
  class Redis {
    const up: bool
    var roles: map<string, Rows<RoleRow>>
    var users: map<string, Rows<UserRow>>

    constructor (up: bool)
      ensures this.up == up && roles == map[] && users == map[]
    {
      this.up := up;
      roles, users := map[], map[];
    }
  }

  /** The value state that the two stores hold together. */
  function StateOf(repo: Repository, redis: Redis): AuthState
    reads repo, redis
  {
    AuthState(repo.members, repo.roleTable, repo.userTable, repo.log, redis.up, redis.roles, redis.users)
  }
}
