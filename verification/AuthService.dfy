/** The auth service: permission reads, the two decisions, and the writes with cache invalidation. */
module AuthService {
  import opened GoStrings
  import opened AuthModel
  import opened AuthStores

  class Service {
    const repo: Repository
    const redis: Redis

    constructor (repo: Repository, redis: Redis)
      ensures this.repo == repo && this.redis == redis
    {
      this.repo, this.redis := repo, redis;
    }

    /******* Reads *******/

    /** The unexpired permissions of a role, each once, in the order the database returned the rows. */
    method GetRolePermissions(role: string, f: Faults, now: Time) returns (r: Result<seq<string>>)
      ensures r.Ok? <==> role !in f.roles
      ensures r.Ok? ==> Distinct(r.value)
      ensures r.Ok? ==> forall p :: p in r.value <==> Active(RowsOf(repo.roleTable, role), p, now)
    {
      var perms := repo.GetRolePermissions(role, f);
      if perms.DbError? {
        return DbError;
      }
      var rows := perms.value;
      var result: seq<string> := [];
      var todo := rows.Keys;
      while todo != {}
        invariant todo <= rows.Keys
        invariant Distinct(result)
        invariant forall p :: p in result <==> p in rows.Keys - todo && Active(rows, p, now)
      {
        var p :| p in todo;
        todo := todo - {p};
        if Expired(rows[p].expiresAt, now) {
          continue;
        }
        assert p !in result;
        result := result + [p];
      }
      return Ok(result);
    }

    method GetUserPermissions(user: string, f: Faults, now: Time) returns (r: Result<map<string, bool>>)
      ensures r == if f.userRows then DbError else Ok(Overrides(RowsOf(repo.userTable, user), now))
    {
      var perms := repo.GetUserPermissions(user, f);
      if perms.DbError? {
        return DbError;
      }
      var rows := perms.value;
      var result: map<string, bool> := map[];
      var todo := rows.Keys;
      while todo != {}
        invariant todo <= rows.Keys
        invariant result == map p | p in rows.Keys - todo && !Expired(rows[p].expiresAt, now) :: rows[p].isGranted
      {
        var p :| p in todo;
        todo := todo - {p};
        if Expired(rows[p].expiresAt, now) {
          continue;
        }
        result := result[p := rows[p].isGranted];
      }
      assert rows.Keys - todo == rows.Keys;
      assert result == Overrides(rows, now);
      return Ok(result);
    }

    /******* Decisions *******/

    method GetComputedPermissions(user: string, roles: seq<string>, f: Faults, now: Time)
      returns (permissions: seq<string>)
      ensures SUPER_ADMIN in roles ==> permissions == ["*"]
      ensures SUPER_ADMIN !in roles ==> StrictlySorted(permissions)
      ensures SUPER_ADMIN !in roles ==> Elements(permissions) == ComputedSet(StateOf(repo, redis), f, user, roles, now)
    {
      ghost var s := StateOf(repo, redis);
      if SUPER_ADMIN in roles {
        return ["*"];
      }

      var permSet: set<string> := {};
      for i := 0 to |roles|
        invariant permSet == RoleSet(s, f, roles[..i], now)
      {
        assert roles[..i + 1][..i] == roles[..i];
        var rolePerms := GetRolePermissions(roles[i], f, now);
        if rolePerms.Ok? {
          permSet := AddAll(permSet, rolePerms.value);
        }
      }
      assert roles[..|roles|] == roles;

      var userPerms := GetUserPermissions(user, f, now);
      if userPerms.Ok? {
        permSet := ApplyOverrides(permSet, userPerms.value);
      }

      permissions := SortedKeys(permSet);
    }

    method HasPermission(user: string, permission: string, f: Faults, now: Time) returns (has: bool)
      ensures has == Has(StateOf(repo, redis), f, user, permission, now)
    {
      ghost var s := StateOf(repo, redis);
      var found := repo.GetUserByID(user, f);
      if found.DbError? {
        return false;
      }
      var roles := found.value;
      if SUPER_ADMIN in roles {
        return true;
      }

      var userPerms := GetUserPermissions(user, f, now);
      if userPerms.Ok? && permission in userPerms.value {
        return userPerms.value[permission];
      }

      for i := 0 to |roles|
        invariant forall j :: 0 <= j < i ==> !RoleGrants(ReadRole(s, f, roles[j]), permission, now)
      {
        var rolePerms := GetRolePermissions(roles[i], f, now);
        if rolePerms.Ok? && permission in rolePerms.value {
          return true;
        }
      }
      return false;
    }

    /******* Writes *******/

    method InvalidateUserPermissionCache(user: string)
      modifies redis`users
      ensures redis.users == DropKey(redis.up, old(redis.users), user)
    {
      if !redis.up {
        return;
      }
      redis.users := redis.users - {user};
    }

    method InvalidateRolePermissionCache(role: string)
      modifies redis`roles
      ensures redis.roles == DropKey(redis.up, old(redis.roles), role)
    {
      if !redis.up {
        return;
      }
      redis.roles := redis.roles - {role};
    }

    method GrantUserPermission(t: Target, permission: string, isGranted: bool, expiresAt: Option<Time>, actor: string,
                               now: Time)
      returns (ok: bool, ghost tableOk: bool, ghost logOk: bool)
      modifies repo, redis
      ensures Step(old(StateOf(repo, redis)),
                   Grant(t, permission, isGranted, expiresAt, actor, now, tableOk, logOk),
                   StateOf(repo, redis))
      ensures ok == (tableOk && logOk)
    {
      tableOk, logOk := true, true;
      if t.ToRole() {
        var done := repo.GrantRolePermission(t.role.value, permission, expiresAt, now);
        tableOk := done;
        if !done {
          return false, tableOk, logOk;
        }
        InvalidateRolePermissionCache(t.role.value);
      } else if t.ToUser() {
        var done := repo.GrantUserPermission(t.user.value, permission, isGranted, expiresAt, actor, now);
        tableOk := done;
        if !done {
          return false, tableOk, logOk;
        }
        InvalidateUserPermissionCache(t.user.value);
      }

      var action := GrantAction;
      if !isGranted {
        action := RevokeAction;
      }
      ok := repo.LogPermissionChange(LogEntry(action, t, permission, isGranted, actor, now, expiresAt));
      logOk := ok;
    }

    method RevokeUserPermission(t: Target, permission: string, actor: string, now: Time)
      returns (ok: bool, ghost tableOk: bool, ghost logOk: bool)
      modifies repo, redis
      ensures Step(old(StateOf(repo, redis)), Revoke(t, permission, actor, now, tableOk, logOk), StateOf(repo, redis))
      ensures ok == (tableOk && logOk)
    {
      tableOk, logOk := true, true;
      if t.ToRole() {
        var done := repo.RevokeRolePermission(t.role.value, permission);
        tableOk := done;
        if !done {
          return false, tableOk, logOk;
        }
        InvalidateRolePermissionCache(t.role.value);
      } else if t.ToUser() {
        var done := repo.RevokeUserPermission(t.user.value, permission);
        tableOk := done;
        if !done {
          return false, tableOk, logOk;
        }
        InvalidateUserPermissionCache(t.user.value);
      }
      ok := repo.LogPermissionChange(LogEntry(RevokeAction, t, permission, false, actor, now, None));
      logOk := ok;
    }

    /** Makes the role hold exactly the requested permissions. Rows that stay are not touched, so they
        keep their expiry; no other role is touched. Any failing statement stops the update, leaves the
        role between the old set and the new one, and skips the invalidation. */
    method UpdateRolePermissions(role: string, permissions: seq<string>, f: Faults, now: Time)
      returns (ok: bool, ghost failedAfter: Option<nat>)
      modifies repo`roleTable, redis`roles
      ensures Step(old(StateOf(repo, redis)),
                   UpdateRole(role, Elements(permissions), now, failedAfter),
                   StateOf(repo, redis))
      ensures ok == failedAfter.None?
    {
      ok, failedAfter := false, Some(0);
      var read := repo.GetRolePermissions(role, f);
      if read.DbError? {
        return;
      }
      var existing := read.value;
      ghost var grants, revocations;
      ok, grants := GrantMissing(role, permissions, existing, now);
      if !ok {
        failedAfter := Some(grants);
        return;
      }
      ok, revocations := RevokeUnwanted(role, permissions, existing);
      if !ok {
        failedAfter := Some(grants + revocations);
        return;
      }
      InvalidateRolePermissionCache(role);
      failedAfter := None;
    }

    /** The first loop of UpdateRolePermissions, with the number of grants that succeeded. */
    method GrantMissing(role: string, permissions: seq<string>, existing: Rows<RoleRow>, now: Time)
      returns (ok: bool, ghost grants: nat)
      requires existing == RowsOf(repo.roleTable, role)
      modifies repo`roleTable
      ensures OnlyRoleChanged(old(repo.roleTable), repo.roleTable, role, now)
      ensures existing.Keys <= RowsOf(repo.roleTable, role).Keys <= existing.Keys + Elements(permissions)
      ensures ok ==> RowsOf(repo.roleTable, role).Keys == existing.Keys + Elements(permissions)
      ensures grants == 0 <==> RowsOf(repo.roleTable, role).Keys == existing.Keys
    {
      grants := 0;
      for i := 0 to |permissions|
        invariant OnlyRoleChanged(old(repo.roleTable), repo.roleTable, role, now)
        invariant RowsOf(repo.roleTable, role).Keys == existing.Keys + Elements(permissions[..i])
        invariant grants == 0 <==> RowsOf(repo.roleTable, role).Keys == existing.Keys
      {
        ElementsStep(permissions, i);
        if permissions[i] !in existing {
          var done := repo.GrantRolePermission(role, permissions[i], None, now);
          if !done {
            return false, grants;
          }
          grants := grants + 1;
          assert permissions[i] in RowsOf(repo.roleTable, role).Keys;
        }
      }
      assert permissions[..|permissions|] == permissions;
      return true, grants;
    }

    /** The second loop of UpdateRolePermissions, with the number of revocations that succeeded. */
    method RevokeUnwanted(role: string, permissions: seq<string>, existing: Rows<RoleRow>)
      returns (ok: bool, ghost revocations: nat)
      requires RowsOf(repo.roleTable, role).Keys == existing.Keys + Elements(permissions)
      modifies repo`roleTable
      ensures OnlyRowsDropped(old(repo.roleTable), repo.roleTable, role)
      ensures Elements(permissions) <= RowsOf(repo.roleTable, role).Keys
      ensures ok ==> RowsOf(repo.roleTable, role).Keys == Elements(permissions)
      ensures revocations == 0 <==> RowsOf(repo.roleTable, role).Keys == existing.Keys + Elements(permissions)
    {
      revocations := 0;
      var newMap := set p | p in permissions;
      var todo := existing.Keys;
      while todo != {}
        invariant todo <= existing.Keys
        invariant OnlyRowsDropped(old(repo.roleTable), repo.roleTable, role)
        invariant RowsOf(repo.roleTable, role).Keys == Elements(permissions) + todo
        invariant revocations == 0 <==> RowsOf(repo.roleTable, role).Keys == existing.Keys + Elements(permissions)
      {
        var p :| p in todo;
        if p !in newMap {
          var done := repo.RevokeRolePermission(role, p);
          if !done {
            return false, revocations;
          }
          revocations := revocations + 1;
          assert p in existing.Keys && p !in RowsOf(repo.roleTable, role).Keys;
        }
        todo := todo - {p};
      }
      return true, revocations;
    }
  }

  ghost predicate OnlyRowsDropped(t: Table<RoleRow>, t': Table<RoleRow>, role: string) {
    && (forall r :: r != role ==> RowsOf(t', r) == RowsOf(t, r))
    && (forall p :: p in RowsOf(t', role) ==> p in RowsOf(t, role) && RowsOf(t', role)[p] == RowsOf(t, role)[p])
  }

  lemma ElementsStep(s: seq<string>, i: nat)
    requires i < |s|
    ensures Elements(s[..i + 1]) == Elements(s[..i]) + {s[i]}
    ensures Elements(s[..i + 1]) <= Elements(s)
  {
    assert s[..i + 1] == s[..i] + [s[i]];
  }

  /******* The loops over Go maps and slices inside GetComputedPermissions *******/

  method AddAll(permSet: set<string>, perms: seq<string>) returns (r: set<string>)
    ensures r == permSet + Elements(perms)
  {
    r := permSet;
    for i := 0 to |perms|
      invariant r == permSet + Elements(perms[..i])
    {
      assert perms[..i + 1] == perms[..i] + [perms[i]];
      r := r + {perms[i]};
    }
    assert perms[..|perms|] == perms;
  }

  /** Ranges over the overrides in whatever order the map yields them. */
  method ApplyOverrides(permSet: set<string>, overrides: map<string, bool>) returns (r: set<string>)
    ensures r == permSet + (set p | p in overrides && overrides[p]) - (set p | p in overrides && !overrides[p])
  {
    r := permSet;
    var todo := overrides.Keys;
    while todo != {}
      invariant todo <= overrides.Keys
      invariant r == permSet + (set p | p in overrides.Keys - todo && overrides[p])
                     - (set p | p in overrides.Keys - todo && !overrides[p])
    {
      var p :| p in todo;
      todo := todo - {p};
      if overrides[p] {
        r := r + {p};
      } else {
        r := r - {p};
      }
    }
  }
}
