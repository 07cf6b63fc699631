/** The permission middleware: reads through the cache, pattern matching, and the request decision. */
module PermissionMiddleware {
  import opened GoStrings
  import opened AuthModel
  import opened AuthStores

  /** Serving a request may fill the cache from the tables and changes nothing else. */
  ghost predicate OnlyFills(s: AuthState, f: Faults, s': AuthState) {
    && s' == s.(roleCache := s'.roleCache, userCache := s'.userCache)
    && (!s.redisUp ==> s' == s)
    && s.roleCache.Keys <= s'.roleCache.Keys && s.userCache.Keys <= s'.userCache.Keys
    && (forall r :: r in s'.roleCache ==>
          Ok(s'.roleCache[r]) == if r in s.roleCache then Ok(s.roleCache[r]) else ReadRole(s, f, r))
    && (forall u :: u in s'.userCache ==>
          Ok(s'.userCache[u]) == if u in s.userCache then Ok(s.userCache[u]) else ReadUser(s, f, u))
  }

  lemma FetchKeepsFills(s: AuthState, f: Faults, s': AuthState, role: string)
    requires OnlyFills(s, f, s')
    ensures OnlyFills(s, f, AfterCachedReadRole(s', f, role))
    ensures CachedReadRole(s', f, role) == CachedReadRole(s, f, role)
  {
  }

  lemma FetchUserKeepsFills(s: AuthState, f: Faults, s': AuthState, user: string)
    requires OnlyFills(s, f, s')
    ensures OnlyFills(s, f, AfterCachedReadUser(s', f, user))
    ensures CachedReadUser(s', f, user) == CachedReadUser(s, f, user)
  {
  }

  class CachedAuthRepository {
    const repo: Repository
    const redis: Redis

    constructor (repo: Repository, redis: Redis)
      ensures this.repo == repo && this.redis == redis
    {
      this.repo, this.redis := repo, redis;
    }

    method CachedGetRolePermissions(role: string, f: Faults) returns (r: Result<Rows<RoleRow>>)
      modifies redis`roles
      ensures r == CachedReadRole(old(StateOf(repo, redis)), f, role)
      ensures Step(old(StateOf(repo, redis)), FetchRole(role, f), StateOf(repo, redis))
    {
      if redis.up && role in redis.roles {
        return Ok(redis.roles[role]);
      }
      r := repo.GetRolePermissions(role, f);
      if r.DbError? {
        return;
      }
      if redis.up && |r.value| > 0 {
        redis.roles := redis.roles[role := r.value];
      }
    }

    method CachedGetUserPermissions(user: string, f: Faults) returns (r: Result<Rows<UserRow>>)
      modifies redis`users
      ensures r == CachedReadUser(old(StateOf(repo, redis)), f, user)
      ensures Step(old(StateOf(repo, redis)), FetchUser(user, f), StateOf(repo, redis))
    {
      if redis.up && user in redis.users {
        return Ok(redis.users[user]);
      }
      r := repo.GetUserPermissions(user, f);
      if r.DbError? {
        return;
      }
      if redis.up && |r.value| > 0 {
        redis.users := redis.users[user := r.value];
      }
    }

    method InvalidateUserPermissionsCache(user: string)
      modifies redis`users
      ensures redis.users == DropKey(redis.up, old(redis.users), user)
    {
      if redis.up {
        redis.users := redis.users - {user};
      }
    }

    method InvalidateRolePermissionsCache(role: string)
      modifies redis`roles
      ensures redis.roles == DropKey(redis.up, old(redis.roles), role)
    {
      if redis.up {
        redis.roles := redis.roles - {role};
      }
    }

    /** The loop over the user's roles: stops at the first role with a matching row. */
    method AnyRoleMatches(roles: seq<string>, patterns: seq<string>, f: Faults) returns (hit: bool)
      modifies redis`roles
      ensures hit <==> RoleRowMatches(old(StateOf(repo, redis)), f, roles, patterns)
      ensures OnlyFills(old(StateOf(repo, redis)), f, StateOf(repo, redis))
    {
      ghost var s := StateOf(repo, redis);
      for i := 0 to |roles|
        invariant OnlyFills(s, f, StateOf(repo, redis))
        invariant forall j :: 0 <= j < i ==> !ReadMatches(CachedReadRole(s, f, roles[j]), patterns)
        modifies redis`roles
      {
        FetchKeepsFills(s, f, StateOf(repo, redis), roles[i]);
        var rolePerms := CachedGetRolePermissions(roles[i], f);
        if rolePerms.Ok? {
          hit := AnyMatches(rolePerms.value.Keys, patterns);
          if hit {
            return;
          }
        }
      }
      return false;
    }

    /** The handler installed by AllowedPermissions, up to the choice of HTTP status. */
    method AllowedPermissions(user: string, patterns: seq<string>, f: Faults) returns (d: Decision)
      modifies redis`roles, redis`users
      ensures d == Allowed(old(StateOf(repo, redis)), f, user, patterns)
      ensures OnlyFills(old(StateOf(repo, redis)), f, StateOf(repo, redis))
    {
      ghost var s := StateOf(repo, redis);
      if user == "" {
        return Unauthorized;
      }
      var found := repo.GetUserByID(user, f);
      if found.DbError? {
        return Unauthorized;
      }
      var roles := found.value;
      if SUPER_ADMIN in roles {
        return Next;
      }

      var roleHit := AnyRoleMatches(roles, patterns, f);
      if roleHit {
        return Next;
      }

      FetchUserKeepsFills(s, f, StateOf(repo, redis), user);
      var userPerms := CachedGetUserPermissions(user, f);
      if userPerms.Ok? {
        var hit := AnyMatches(userPerms.value.Keys, patterns);
        if hit {
          return Next;
        }
      }
      return Forbidden;
    }
  }

  /** `matchPermission`: the loop over the patterns, with its two tests. */
  method MatchPermission(permission: string, patterns: seq<string>) returns (b: bool)
    ensures b == MatchesAny(permission, patterns)
  {
    for i := 0 to |patterns|
      invariant forall j :: 0 <= j < i ==> !MatchesPattern(permission, patterns[j])
    {
      var pattern := patterns[i];
      if permission == pattern {
        return true;
      }
      if HasSuffix(pattern, ".*") {
        var prefix := pattern[..|pattern| - 2];
        if HasPrefix(permission, prefix + ".") {
          return true;
        }
      }
    }
    return false;
  }

  /** The inner loop over the rows that a cached read returned, in their unspecified order. */
  method AnyMatches(permissions: set<string>, patterns: seq<string>) returns (b: bool)
    ensures b <==> SomeMatches(permissions, patterns)
  {
    var todo := permissions;
    while todo != {}
      invariant todo <= permissions
      invariant forall p :: p in permissions - todo ==> !MatchesAny(p, patterns)
    {
      var p :| p in todo;
      todo := todo - {p};
      b := MatchPermission(p, patterns);
      if b {
        return;
      }
    }
    return false;
  }
}
