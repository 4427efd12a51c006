/** The permission manager as it runs: the cache and the tables are fields, changed in place. New ids come
    from outside. */
module PermissionManagerClass {
  import opened Wrappers
  import opened ObjectPaths
  import opened Permissions

  lemma LoadOne(c: Cache, rows: Table, left: set<string>, id: string)
    requires TableOk(rows) && left <= rows.Keys && id in left && Loaded(c, rows - left)
    ensures var key := KeyOf(rows[id]);
            Loaded(c[key := CachedFor(c, key) + [rows[id]]], rows - (left - {id}))
  {
    var g := rows[id];
    var t := rows - left;
    assert Enumerates(CachedFor(c, KeyOf(g)), t, KeyOf(g));
    assert InsertRow(t, g) == rows - (left - {id});
    AppendEnumerates(CachedFor(c, KeyOf(g)), t, KeyOf(g), g);
    forall key | key in c && key != KeyOf(g) ensures Enumerates(c[key], InsertRow(t, g), key) {
      InsertElsewhere(c[key], t, key, g);
    }
  }

  class PermissionManager {
    var userLevels: map<string, AccessLevel>
    var accounts: map<string, AccessLevel>
    var pathGrants: Cache
    var rows: Table

    ghost function Model(): Perms
      reads this
    {
      Perms(userLevels, accounts, pathGrants, rows)
    }

    method SetAccessLevel(account: string, level: AccessLevel)
      modifies this`userLevels, this`accounts
      ensures Model() == SetLevel(old(Model()), account, level)
    {
      if account in accounts {
        accounts := accounts[account := level];
      }
      userLevels := userLevels[account := level];
    }

    method GetAccessLevel(account: string) returns (level: AccessLevel)
      modifies this`userLevels
      ensures level == LevelOf(old(Model()), account)
      ensures Model() == CacheLevel(old(Model()), account)
    {
      if account in userLevels {
        return userLevels[account];
      }
      if account in accounts {
        userLevels := userLevels[account := accounts[account]];
        return accounts[account];
      }
      level := Player;
    }

    method GrantPath(grantor: UserContext, id: string, grantee: string, universe: string, prefix: string,
                     canDelegate: bool) returns (result: Result<PathGrant, string>)
      modifies this`pathGrants, this`rows
      ensures (Model(), result)
              == Permissions.GrantPath(old(Model()), grantor, id, grantee, universe, prefix, canDelegate)
    {
      if !CanDelegate(grantor, prefix) {
        return Err("cannot delegate path");
      }
      var grant := PathGrant(id, universe, grantee, prefix, canDelegate, grantor.account);
      rows := InsertRow(rows, grant);
      var key := (universe, grantee);
      ghost var before := pathGrants;
      if key !in pathGrants {
        pathGrants := pathGrants[key := []];
      }
      pathGrants := pathGrants[key := pathGrants[key] + [grant]];
      assert pathGrants == before[key := CachedFor(before, key) + [grant]];
      result := Ok(grant);
    }

    method GetPathGrantById(id: string, universe: string) returns (found: Option<PathGrant>)
      requires TableOk(rows)
      ensures Finds(Model(), id, universe, found)
    {
      var left := pathGrants.Keys;
      while left != {}
        invariant left <= pathGrants.Keys
        invariant forall key, g | key in pathGrants && key !in left && g in pathGrants[key] :: !Wanted(g, id, universe)
        decreases left
      {
        var key :| key in left;
        var grants := pathGrants[key];
        for i := 0 to |grants|
          invariant forall k | 0 <= k < i :: !Wanted(grants[k], id, universe)
        {
          if grants[i].id == id && grants[i].universe == universe {
            assert InCache(pathGrants, grants[i]);
            return Some(grants[i]);
          }
        }
        left := left - {key};
      }
      if id in rows && rows[id].universe == universe {
        return Some(rows[id]);
      }
      found := None;
    }

    method RevokePath(revoker: UserContext, id: string, universe: string) returns (result: Result<bool, string>)
      requires TableOk(rows)
      modifies this`pathGrants, this`rows
      ensures exists found ::
        && Finds(old(Model()), id, universe, found)
        && (result.Err? <==> found.Some? && !CanRevoke(revoker, found.value))
        && (result.Ok? ==> result.value == found.Some?)
        && Model() == if result == Ok(true) then DropGrant(old(Model()), found.value, id, universe) else old(Model())
      ensures Next(old(Model()), OpRevoke(revoker, id, universe), Model())
    {
      var found := GetPathGrantById(id, universe);
      if found == None {
        return Ok(false);
      }
      var grant := found.value;
      if !(AtLeastWizard(revoker.level) || revoker.account == grant.grantedBy || CanDelegate(revoker, grant.prefix)) {
        return Err("cannot revoke grant");
      }
      if id in rows && rows[id].universe == universe {
        rows := rows - {id};
      }
      var key := (universe, grant.grantee);
      if key in pathGrants {
        pathGrants := pathGrants[key := Without(pathGrants[key], id)];
      }
      assert Finds(old(Model()), id, universe, found) && CanRevoke(revoker, grant);
      result := Ok(true);
    }

    /** `SELECT ... WHERE universe_id = ? AND grantee_id = ?`, in whatever order the rows come. */
    method SelectRows(key: Key) returns (grants: seq<PathGrant>)
      requires TableOk(rows)
      ensures Enumerates(grants, rows, key)
    {
      grants := [];
      var left := rows.Keys;
      while left != {}
        invariant left <= rows.Keys && Distinct(grants)
        invariant forall g | g in grants :: g.id in rows && g.id !in left && rows[g.id] == g && KeyOf(g) == key
        invariant forall id | id in rows && id !in left && KeyOf(rows[id]) == key :: rows[id] in grants
        decreases left
      {
        var id :| id in left;
        if KeyOf(rows[id]) == key {
          assert (grants + [rows[id]])[|grants|] == rows[id];
          grants := grants + [rows[id]];
        }
        left := left - {id};
      }
    }

    method GetPathGrants(account: string, universe: string) returns (grants: seq<PathGrant>)
      requires TableOk(rows)
      modifies this`pathGrants
      ensures Fetches(old(Model()), (universe, account), grants, Model())
    {
      var key := (universe, account);
      if key in pathGrants {
        return pathGrants[key];
      }
      grants := SelectRows(key);
      pathGrants := pathGrants[key := grants];
    }

    method GetUserContext(account: string, universe: string) returns (ctx: UserContext)
      requires TableOk(rows)
      modifies this`userLevels, this`pathGrants
      ensures ctx.account == account && ctx.universe == universe
      ensures Next(old(Model()), OpContext(ctx), Model())
    {
      var level := GetAccessLevel(account);
      var grants := GetPathGrants(account, universe);
      ctx := UserContext(account, universe, level, grants);
    }

    /** A new manager over existing tables, then `load_path_grants`: row by row into the lists. */
    constructor (accounts: map<string, AccessLevel>, rows: Table)
      requires TableOk(rows)
      ensures Model() == Perms(map[], accounts, pathGrants, rows)
      ensures Agree(Model())
    {
      userLevels, this.accounts, this.rows := map[], accounts, rows;
      pathGrants := map[];
      new;
      var left := rows.Keys;
      while left != {}
        invariant userLevels == map[] && this.accounts == accounts && this.rows == rows && left <= rows.Keys
        invariant Loaded(pathGrants, rows - left)
        decreases left
      {
        var id :| id in left;
        var grant := rows[id];
        var key := KeyOf(grant);
        var grants := CachedFor(pathGrants, key);
        assert Enumerates(grants, rows - left, key);
        LoadOne(pathGrants, rows, left, id);
        pathGrants := pathGrants[key := grants + [grant]];
        left := left - {id};
      }
      assert rows - {} == rows;
    }
  }
}
