/** Path grants (mudd/src/permissions/mod.rs): who may delegate which path, the in-memory cache, and the
    `path_grants` table with its rule of one row per universe, grantee and prefix. */
module Permissions {
  import opened Wrappers
  import opened ObjectPaths

  datatype AccessLevel = Player | Builder | Wizard | Admin | Owner

  function Rank(l: AccessLevel): nat {
    match l case Player => 0 case Builder => 1 case Wizard => 2 case Admin => 3 case Owner => 4
  }

  predicate AtLeastWizard(l: AccessLevel) { Rank(l) >= Rank(Wizard) }

  datatype PathGrant = PathGrant(id: string, universe: string, grantee: string, prefix: string,
                                 canDelegate: bool, grantedBy: string)

  /** Universe and grantee: the key of the cache. */
  type Key = (string, string)

  function KeyOf(g: PathGrant): Key { (g.universe, g.grantee) }

  predicate SameSlot(a: PathGrant, b: PathGrant) { KeyOf(a) == KeyOf(b) && a.prefix == b.prefix }

  predicate CanDelegateVia(g: PathGrant, path: string) { g.canDelegate && Covers(g.prefix, path) }

  datatype UserContext = UserContext(account: string, universe: string, level: AccessLevel, grants: seq<PathGrant>)

  predicate CanDelegate(ctx: UserContext, path: string) {
    AtLeastWizard(ctx.level) || exists i | 0 <= i < |ctx.grants| :: CanDelegateVia(ctx.grants[i], path)
  }

  type Table = map<string, PathGrant>

  type Cache = map<Key, seq<PathGrant>>

  datatype Perms = Perms(levels: map<string, AccessLevel>, accounts: map<string, AccessLevel>, cache: Cache,
                         table: Table)

  // ----- The operations -----

  /** `UPDATE accounts` touches only an account that exists; the cache takes the level either way. */
  function SetLevel(p: Perms, account: string, level: AccessLevel): Perms {
    p.(accounts := if account in p.accounts then p.accounts[account := level] else p.accounts,
       levels := p.levels[account := level])
  }

  function LevelOf(p: Perms, account: string): AccessLevel {
    if account in p.levels then p.levels[account]
    else if account in p.accounts then p.accounts[account]
    else Player
  }

  function CacheLevel(p: Perms, account: string): Perms {
    if account !in p.levels && account in p.accounts then p.(levels := p.levels[account := p.accounts[account]])
    else p
  }

  /** `INSERT OR REPLACE`: rows in conflict on the id or on the unique triple give way. */
  function InsertRow(t: Table, g: PathGrant): Table {
    (map id | id in t && !SameSlot(t[id], g) :: t[id])[g.id := g]
  }

  function CachedFor(c: Cache, key: Key): seq<PathGrant> { if key in c then c[key] else [] }

  function GrantPath(p: Perms, ctx: UserContext, id: string, grantee: string, universe: string, prefix: string,
                     canDelegate: bool): (Perms, Result<PathGrant, string>)
  {
    if !CanDelegate(ctx, prefix) then (p, Err("cannot delegate path"))
    else
      var g := PathGrant(id, universe, grantee, prefix, canDelegate, ctx.account);
      (p.(table := InsertRow(p.table, g), cache := p.cache[KeyOf(g) := CachedFor(p.cache, KeyOf(g)) + [g]]), Ok(g))
  }

  predicate CanRevoke(ctx: UserContext, g: PathGrant) {
    AtLeastWizard(ctx.level) || ctx.account == g.grantedBy || CanDelegate(ctx, g.prefix)
  }

  function Without(gs: seq<PathGrant>, id: string): seq<PathGrant> {
    if gs == [] then []
    else (if gs[0].id == id then [] else [gs[0]]) + Without(gs[1..], id)
  }

  /** Deleting a found grant from the table and from its grantee's cached list. */
  function DropGrant(p: Perms, g: PathGrant, id: string, universe: string): Perms {
    var key := (universe, g.grantee);
    p.(table := if id in p.table && p.table[id].universe == universe then p.table - {id} else p.table,
       cache := if key in p.cache then p.cache[key := Without(p.cache[key], id)] else p.cache)
  }

  ghost predicate InCache(c: Cache, g: PathGrant) {
    exists key :: key in c && g in c[key]
  }

  ghost predicate Wanted(g: PathGrant, id: string, universe: string) { g.id == id && g.universe == universe }

  /** `get_path_grant_by_id`: any cached match, else the table's row. */
  ghost predicate Finds(p: Perms, id: string, universe: string, found: Option<PathGrant>) {
    match found
    case Some(g) =>
      && Wanted(g, id, universe)
      && (InCache(p.cache, g)
          || ((forall c | InCache(p.cache, c) :: !Wanted(c, id, universe)) && id in p.table && p.table[id] == g))
    case None =>
      && (forall c | InCache(p.cache, c) :: !Wanted(c, id, universe))
      && !(id in p.table && p.table[id].universe == universe)
  }

  ghost predicate Distinct(gs: seq<PathGrant>) {
    forall i, j | 0 <= i < j < |gs| :: gs[i].id != gs[j].id
  }

  /** The list holds each row of the key once, in any order. */
  ghost predicate Enumerates(gs: seq<PathGrant>, t: Table, key: Key) {
    && Distinct(gs)
    && (forall g | g in gs :: g.id in t && t[g.id] == g && KeyOf(g) == key)
    && (forall id | id in t && KeyOf(t[id]) == key :: t[id] in gs)
  }

  /** `get_path_grants`. */
  ghost predicate Fetches(p: Perms, key: Key, gs: seq<PathGrant>, p': Perms) {
    if key in p.cache then gs == p.cache[key] && p' == p
    else Enumerates(gs, p.table, key) && p' == p.(cache := p.cache[key := gs])
  }

  ghost predicate Loaded(c: Cache, t: Table) {
    && (forall id | id in t :: KeyOf(t[id]) in c)
    && (forall key | key in c :: Enumerates(c[key], t, key))
  }

  datatype Op =
    | OpSetLevel(account: string, level: AccessLevel)
    | OpContext(ctx: UserContext)
    | OpGrant(ctx: UserContext, id: string, grantee: string, universe: string, prefix: string, canDelegate: bool)
    | OpRevoke(ctx: UserContext, id: string, universe: string)
    | OpRestart

  ghost predicate Revokes(p: Perms, ctx: UserContext, id: string, universe: string, p': Perms) {
    exists found ::
      && Finds(p, id, universe, found)
      && p' == if found.Some? && CanRevoke(ctx, found.value) then DropGrant(p, found.value, id, universe) else p
  }

  /** One operation; map iteration and row order leave some of them free to choose. */
  ghost predicate Next(p: Perms, op: Op, p': Perms) {
    match op
    case OpSetLevel(account, level) => p' == SetLevel(p, account, level)
    case OpContext(ctx) =>
      && ctx.level == LevelOf(p, ctx.account)
      && Fetches(CacheLevel(p, ctx.account), (ctx.universe, ctx.account), ctx.grants, p')
    case OpGrant(ctx, id, grantee, universe, prefix, canDelegate) =>
      p' == GrantPath(p, ctx, id, grantee, universe, prefix, canDelegate).0
    case OpRevoke(ctx, id, universe) => Revokes(p, ctx, id, universe, p')
    case OpRestart => p' == p.(levels := map[], cache := p'.cache) && Loaded(p'.cache, p.table)
  }

  lemma {:induction false} WithoutMembers(gs: seq<PathGrant>, id: string)
    ensures forall g :: g in Without(gs, id) <==> g in gs && g.id != id
    ensures Distinct(gs) ==> Distinct(Without(gs, id))
  {
    if gs != [] {
      var rest := Without(gs[1..], id);
      WithoutMembers(gs[1..], id);
      assert gs == [gs[0]] + gs[1..];
      assert forall g :: g in Without(gs, id) <==> (g == gs[0] && gs[0].id != id) || g in rest;
      if Distinct(gs) {
        assert forall g | g in rest :: g.id != gs[0].id;
      }
    }
  }

  // ----- The cache agrees with the table -----

  ghost predicate TableOk(t: Table) {
    && (forall id | id in t :: t[id].id == id)
    && (forall i, j | i in t && j in t && i != j :: !SameSlot(t[i], t[j]))
  }

  /** Every list that can be fetched is exactly the rows of its key. */
  ghost predicate Agree(p: Perms) { TableOk(p.table) && Loaded(p.cache, p.table) }

  ghost predicate LiveSlot(p: Perms, universe: string, grantee: string, prefix: string) {
    exists id :: id in p.table && KeyOf(p.table[id]) == (universe, grantee) && p.table[id].prefix == prefix
  }

  lemma FetchIsExact(p: Perms, key: Key, gs: seq<PathGrant>, p': Perms)
    requires Agree(p) && Fetches(p, key, gs, p')
    ensures Enumerates(gs, p.table, key) && Agree(p')
  {
  }

  lemma AppendEnumerates(gs: seq<PathGrant>, t: Table, key: Key, g: PathGrant)
    requires Enumerates(gs, t, key) && KeyOf(g) == key && g.id !in t && TableOk(t)
    requires forall id | id in t :: !SameSlot(t[id], g)
    ensures Enumerates(gs + [g], InsertRow(t, g), key)
  {
    var longer := gs + [g];
    forall x | x in longer ensures x.id in InsertRow(t, g) && InsertRow(t, g)[x.id] == x && KeyOf(x) == key {
      assert x in gs || x == g;
    }
    forall id | id in InsertRow(t, g) && KeyOf(InsertRow(t, g)[id]) == key ensures InsertRow(t, g)[id] in longer {
      assert longer[|gs|] == g;
      if id != g.id { assert t[id] in gs; }
    }
  }

  lemma InsertElsewhere(gs: seq<PathGrant>, t: Table, key: Key, g: PathGrant)
    requires Enumerates(gs, t, key) && KeyOf(g) != key && g.id !in t
    ensures Enumerates(gs, InsertRow(t, g), key)
  {
  }

  lemma InsertKeepsTable(t: Table, g: PathGrant)
    requires TableOk(t)
    ensures TableOk(InsertRow(t, g))
  {
  }

  lemma GrantKeepsLoaded(c: Cache, t: Table, g: PathGrant)
    requires Loaded(c, t) && g.id !in t
    requires Enumerates(CachedFor(c, KeyOf(g)) + [g], InsertRow(t, g), KeyOf(g))
    ensures Loaded(c[KeyOf(g) := CachedFor(c, KeyOf(g)) + [g]], InsertRow(t, g))
  {
    hide Enumerates;
    var list := CachedFor(c, KeyOf(g)) + [g];
    var c', t' := c[KeyOf(g) := list], InsertRow(t, g);
    forall key | key in c' ensures Enumerates(c'[key], t', key) {
      if key != KeyOf(g) { InsertElsewhere(c[key], t, key, g); }
    }
    forall id | id in t' ensures KeyOf(t'[id]) in c' {
      if id != g.id { assert id in t && t'[id] == t[id]; }
    }
  }

  lemma GrantKeepsAgree(p: Perms, ctx: UserContext, id: string, grantee: string, universe: string, prefix: string,
                        canDelegate: bool)
    requires Agree(p) && id !in p.table && CanDelegate(ctx, prefix) && !LiveSlot(p, universe, grantee, prefix)
    ensures Agree(GrantPath(p, ctx, id, grantee, universe, prefix, canDelegate).0)
  {
    var g := PathGrant(id, universe, grantee, prefix, canDelegate, ctx.account);
    var key := KeyOf(g);
    InsertKeepsTable(p.table, g);
    assert Enumerates(CachedFor(p.cache, key), p.table, key);
    AppendEnumerates(CachedFor(p.cache, key), p.table, key, g);
    GrantKeepsLoaded(p.cache, p.table, g);
  }

  /** A successful grant keeps cache and table in agreement if and only if no row holds its slot already. */
  lemma GrantKeepsAgreeIff(p: Perms, ctx: UserContext, id: string, grantee: string, universe: string,
                           prefix: string, canDelegate: bool)
    requires Agree(p) && id !in p.table && CanDelegate(ctx, prefix)
    ensures Agree(GrantPath(p, ctx, id, grantee, universe, prefix, canDelegate).0)
            <==> !LiveSlot(p, universe, grantee, prefix)
  {
    var g := PathGrant(id, universe, grantee, prefix, canDelegate, ctx.account);
    var p' := GrantPath(p, ctx, id, grantee, universe, prefix, canDelegate).0;
    if oldId :| oldId in p.table && KeyOf(p.table[oldId]) == (universe, grantee) && p.table[oldId].prefix == prefix {
      var replaced := p.table[oldId];
      assert replaced in p.cache[KeyOf(g)];
      assert replaced in p'.cache[KeyOf(g)];
      assert replaced.id !in p'.table;
      assert !Enumerates(p'.cache[KeyOf(g)], p'.table, KeyOf(g));
    } else {
      GrantKeepsAgree(p, ctx, id, grantee, universe, prefix, canDelegate);
    }
  }

  lemma RemoveEnumerates(gs: seq<PathGrant>, t: Table, key: Key, id: string)
    requires Enumerates(gs, t, key) && id in t && TableOk(t)
    ensures Enumerates(Without(gs, id), t - {id}, key)
    ensures KeyOf(t[id]) != key ==> Enumerates(gs, t - {id}, key)
  {
    WithoutMembers(gs, id);
  }

  lemma DropKeepsAgree(p: Perms, g: PathGrant, id: string, universe: string)
    requires Agree(p) && id in p.table && p.table[id] == g && g.universe == universe
    ensures Agree(DropGrant(p, g, id, universe))
  {
    var p' := DropGrant(p, g, id, universe);
    forall key | key in p'.cache ensures Enumerates(p'.cache[key], p'.table, key) {
      RemoveEnumerates(p.cache[key], p.table, key, id);
    }
  }

  lemma FindIsTable(p: Perms, id: string, universe: string, found: Option<PathGrant>)
    requires Agree(p) && Finds(p, id, universe, found)
    ensures found == if id in p.table && p.table[id].universe == universe then Some(p.table[id]) else None
  {
    if id in p.table {
      assert InCache(p.cache, p.table[id]);
    }
  }

  lemma RevokeKeepsAgree(p: Perms, ctx: UserContext, id: string, universe: string, p': Perms)
    requires Agree(p) && Revokes(p, ctx, id, universe, p')
    ensures Agree(p')
  {
    var found :| Finds(p, id, universe, found)
      && p' == if found.Some? && CanRevoke(ctx, found.value) then DropGrant(p, found.value, id, universe) else p;
    FindIsTable(p, id, universe, found);
    if found.Some? { DropKeepsAgree(p, found.value, id, universe); }
  }

  /** The caller ranks as Wizard, Admin or Owner, or holds a grant that may be passed on and covers the path. */
  ghost predicate Authorises(ctx: UserContext, path: string) {
    || ctx.level == Wizard || ctx.level == Admin || ctx.level == Owner
    || exists g :: g in ctx.grants && g.canDelegate && Covers(g.prefix, path)
  }

  lemma DelegatesIff(ctx: UserContext, path: string)
    ensures CanDelegate(ctx, path) <==> Authorises(ctx, path)
  {
    if g :| g in ctx.grants && g.canDelegate && Covers(g.prefix, path) {
      var i :| 0 <= i < |ctx.grants| && ctx.grants[i] == g;
      assert CanDelegateVia(ctx.grants[i], path);
    }
  }

  /** A refused grant changes nothing; the row of one that is not refused is what the caller asked for, under the
      caller's account, and the grantee's list shows it. */
  lemma GrantIff(p: Perms, ctx: UserContext, id: string, grantee: string, universe: string, prefix: string,
                 canDelegate: bool)
    ensures var (p', result) := GrantPath(p, ctx, id, grantee, universe, prefix, canDelegate);
            var g := PathGrant(id, universe, grantee, prefix, canDelegate, ctx.account);
            && (Authorises(ctx, prefix) ==>
                  && result == Ok(g) && id in p'.table && p'.table[id] == g
                  && (universe, grantee) in p'.cache && g in p'.cache[(universe, grantee)])
            && (!Authorises(ctx, prefix) ==> result.Err? && p' == p)
  {
    DelegatesIff(ctx, prefix);
    var g := PathGrant(id, universe, grantee, prefix, canDelegate, ctx.account);
    var shown := CachedFor(p.cache, KeyOf(g)) + [g];
    assert shown[|shown| - 1] == g;
  }

  /** The second list shows the same grants but those of the id. */
  ghost predicate SameBut(gs: seq<PathGrant>, id: string, gs': seq<PathGrant>) {
    forall g :: g in gs' <==> g in gs && g.id != id
  }

  /** The row is gone, from every list too, and nothing else has changed. */
  ghost predicate Gone(p: Perms, id: string, p': Perms) {
    && p'.table == p.table - {id} && p'.levels == p.levels && p'.accounts == p.accounts
    && p'.cache.Keys == p.cache.Keys
    && forall key | key in p.cache :: SameBut(p.cache[key], id, p'.cache[key])
  }

  lemma DropFromList(gs: seq<PathGrant>, t: Table, key: Key, id: string)
    requires Enumerates(gs, t, key) && id in t
    ensures KeyOf(t[id]) != key ==> SameBut(gs, id, gs)
    ensures SameBut(gs, id, Without(gs, id))
  {
    hide Without;
    WithoutMembers(gs, id);
  }

  lemma DropIsGone(p: Perms, g: PathGrant, id: string, universe: string)
    requires Agree(p) && id in p.table && p.table[id] == g && g.universe == universe
    ensures Gone(p, id, DropGrant(p, g, id, universe))
  {
    hide Without, Enumerates, TableOk, SameBut;
    var p' := DropGrant(p, g, id, universe);
    forall key | key in p.cache ensures SameBut(p.cache[key], id, p'.cache[key]) {
      DropFromList(p.cache[key], p.table, key, id);
    }
    assert p'.cache.Keys == p.cache.Keys;
  }

  /** Whatever cache and table hold, a revocation touches no row and no list of another universe. */
  lemma RevokeStaysInUniverse(p: Perms, ctx: UserContext, id: string, universe: string, p': Perms)
    requires Revokes(p, ctx, id, universe, p')
    ensures forall i | i in p.table && p.table[i].universe != universe :: i in p'.table && p'.table[i] == p.table[i]
    ensures forall key | key in p.cache && key.0 != universe :: key in p'.cache && p'.cache[key] == p.cache[key]
  {
    hide Finds, CanRevoke, Without;
    var found :| Finds(p, id, universe, found)
      && p' == if found.Some? && CanRevoke(ctx, found.value) then DropGrant(p, found.value, id, universe) else p;
  }

  lemma CanRevokeIff(ctx: UserContext, g: PathGrant)
    ensures CanRevoke(ctx, g) <==> Authorises(ctx, g.prefix) || g.grantedBy == ctx.account
  {
    DelegatesIff(ctx, g.prefix);
  }

  /** A row goes exactly when the caller outranks grants, made it, or could have; otherwise nothing changes. */
  lemma RevokesIff(p: Perms, ctx: UserContext, id: string, universe: string, p': Perms)
    requires Agree(p) && Revokes(p, ctx, id, universe, p')
    ensures if id in p.table && p.table[id].universe == universe
               && (Authorises(ctx, p.table[id].prefix) || p.table[id].grantedBy == ctx.account)
            then Gone(p, id, p') else p' == p
  {
    hide Agree, Finds, CanRevoke, Authorises, DropGrant, Gone;
    var found :| Finds(p, id, universe, found)
      && p' == if found.Some? && CanRevoke(ctx, found.value) then DropGrant(p, found.value, id, universe) else p;
    FindIsTable(p, id, universe, found);
    if found.Some? {
      CanRevokeIff(ctx, found.value);
      DropIsGone(p, found.value, id, universe);
    }
  }

  lemma NextKeepsAgree(p: Perms, op: Op, p': Perms)
    requires Agree(p) && Next(p, op, p')
    requires op.OpGrant? && CanDelegate(op.ctx, op.prefix) ==>
               op.id !in p.table && !LiveSlot(p, op.universe, op.grantee, op.prefix)
    ensures Agree(p')
  {
    match op
    case OpGrant(ctx, id, grantee, universe, prefix, canDelegate) =>
      if CanDelegate(ctx, prefix) { GrantKeepsAgree(p, ctx, id, grantee, universe, prefix, canDelegate); }
    case OpRevoke(ctx, id, universe) => RevokeKeepsAgree(p, ctx, id, universe, p');
    case _ =>
  }

  ghost predicate IsRun(ps: seq<Perms>, ops: seq<Op>) {
    |ps| == |ops| + 1 && forall i | 0 <= i < |ops| :: Next(ps[i], ops[i], ps[i + 1])
  }

  /** Successful grants use new ids and never name a live universe, grantee and prefix again. */
  ghost predicate NoRegrant(ps: seq<Perms>, ops: seq<Op>)
    requires |ps| == |ops| + 1
  {
    forall i | 0 <= i < |ops| && ops[i].OpGrant? && CanDelegate(ops[i].ctx, ops[i].prefix) ::
      ops[i].id !in ps[i].table && !LiveSlot(ps[i], ops[i].universe, ops[i].grantee, ops[i].prefix)
  }

  lemma {:induction false} AgreeAlong(ps: seq<Perms>, ops: seq<Op>)
    requires IsRun(ps, ops) && NoRegrant(ps, ops) && Agree(ps[0])
    ensures Agree(ps[|ops|])
    decreases |ops|
  {
    if ops != [] {
      var n := |ops| - 1;
      AgreeAlong(ps[..n + 1], ops[..n]);
      NextKeepsAgree(ps[n], ops[n], ps[n + 1]);
    }
  }

  /** From a loaded cache, over every run without re-grants, a fetch returns exactly the table's rows. */
  lemma RunKeepsAgree(ps: seq<Perms>, ops: seq<Op>, key: Key, gs: seq<PathGrant>, after: Perms)
    requires IsRun(ps, ops) && NoRegrant(ps, ops) && Agree(ps[0]) && Fetches(ps[|ops|], key, gs, after)
    ensures Agree(ps[|ops|]) && Enumerates(gs, ps[|ops|].table, key)
  {
    AgreeAlong(ps, ops);
    FetchIsExact(ps[|ops|], key, gs, after);
  }

  ghost predicate Succeeds(op: Op) { op.OpGrant? && CanDelegate(op.ctx, op.prefix) }

  /** New grants get new ids. */
  ghost predicate FreshIds(ps: seq<Perms>, ops: seq<Op>)
    requires |ps| == |ops| + 1
  {
    forall i | 0 <= i < |ops| && Succeeds(ops[i]) :: ops[i].id !in ps[i].table
  }

  ghost predicate Regrants(p: Perms, op: Op) {
    Succeeds(op) && LiveSlot(p, op.universe, op.grantee, op.prefix)
  }

  lemma NextAgreesIff(p: Perms, op: Op, p': Perms)
    requires Agree(p) && Next(p, op, p') && (Succeeds(op) ==> op.id !in p.table)
    ensures Agree(p') <==> !Regrants(p, op)
  {
    hide Agree, LiveSlot;
    if Succeeds(op) {
      GrantKeepsAgreeIff(p, op.ctx, op.id, op.grantee, op.universe, op.prefix, op.canDelegate);
    } else {
      NextKeepsAgree(p, op, p');
    }
  }

  /** With new ids, cache and table agree throughout a run exactly when no grant names a live slot. */
  lemma {:induction false} RunAgreesIff(ps: seq<Perms>, ops: seq<Op>)
    requires IsRun(ps, ops) && Agree(ps[0]) && FreshIds(ps, ops)
    ensures (forall i | 0 <= i < |ps| :: Agree(ps[i])) <==> NoRegrant(ps, ops)
    decreases |ops|
  {
    hide Agree, LiveSlot, Next;
    if ops != [] {
      var n := |ops| - 1;
      RunAgreesIff(ps[..n + 1], ops[..n]);
      if Agree(ps[n]) { NextAgreesIff(ps[n], ops[n], ps[n + 1]); }
    }
  }

  // ----- Levels -----

  /** The level last set for the account; if it is no stored account, a restart forgets it. */
  function LastLevel(ops: seq<Op>, account: string, stored: bool): Option<AccessLevel>
    decreases |ops|
  {
    if ops == [] then None
    else
      match ops[|ops| - 1]
      case OpSetLevel(a, level) =>
        if a == account then Some(level) else LastLevel(ops[..|ops| - 1], account, stored)
      case OpRestart => if stored then LastLevel(ops[..|ops| - 1], account, stored) else None
      case _ => LastLevel(ops[..|ops| - 1], account, stored)
  }

  predicate Sets(op: Op, account: string) { op.OpSetLevel? && op.account == account }

  function Cached(p: Perms, account: string): Option<AccessLevel> {
    if account in p.levels then Some(p.levels[account]) else None
  }

  lemma GrantKeepsLevels(p: Perms, ctx: UserContext, id: string, grantee: string, universe: string, prefix: string,
                         canDelegate: bool)
    ensures var p' := GrantPath(p, ctx, id, grantee, universe, prefix, canDelegate).0;
            p'.levels == p.levels && p'.accounts == p.accounts
  {
  }

  lemma DropKeepsLevels(p: Perms, g: PathGrant, id: string, universe: string)
    ensures var p' := DropGrant(p, g, id, universe);
            p'.levels == p.levels && p'.accounts == p.accounts
  {
  }

  /** What one operation does to an account's level. */
  lemma NextLevel(p: Perms, op: Op, p': Perms, account: string)
    requires Next(p, op, p')
    ensures account in p'.accounts <==> account in p.accounts
    ensures account in p.accounts ==>
              p'.accounts[account] == if Sets(op, account) then op.level else p.accounts[account]
    ensures Sets(op, account) ==> Cached(p', account) == Some(op.level)
    ensures op.OpRestart? ==> Cached(p', account) == None
    ensures !Sets(op, account) && !op.OpRestart? ==>
              || Cached(p', account) == Cached(p, account)
              || (account in p.accounts && Cached(p', account) == Some(p.accounts[account]))
  {
    hide Enumerates, Loaded, InsertRow, GrantPath, Finds, CanRevoke, DropGrant, LevelOf;
    match op
    case OpGrant(ctx, id, grantee, universe, prefix, canDelegate) =>
      GrantKeepsLevels(p, ctx, id, grantee, universe, prefix, canDelegate);
    case OpRevoke(ctx, id, universe) =>
      var found :| Finds(p, id, universe, found)
        && p' == if found.Some? && CanRevoke(ctx, found.value) then DropGrant(p, found.value, id, universe) else p;
      if found.Some? { DropKeepsLevels(p, found.value, id, universe); }
    case _ =>
  }

  /** A context is made with the level of the moment, which is then cached if the account is stored. */
  lemma ContextCachesLevel(p: Perms, ctx: UserContext, p': Perms)
    requires Next(p, OpContext(ctx), p')
    ensures ctx.level == LevelOf(p, ctx.account) == LevelOf(p', ctx.account)
    ensures ctx.account in p.accounts ==> Cached(p', ctx.account) == Some(ctx.level)
  {
    hide Enumerates;
  }

  /** From a process that has just started: a stored account has the level last set, else the stored one; any other has
      the level last set since the last restart, else Player. */
  lemma {:induction false} LevelIsLastSet(ps: seq<Perms>, ops: seq<Op>, account: string)
    requires IsRun(ps, ops) && ps[0].levels == map[]
    ensures var stored, p := account in ps[0].accounts, ps[|ops|];
            var last := LastLevel(ops, account, stored);
            var level := if last.Some? then last.value else if stored then ps[0].accounts[account] else Player;
            && (account in p.accounts <==> stored)
            && LevelOf(p, account) == level
            && (stored ==> p.accounts[account] == level)
            && (!stored ==> Cached(p, account) == last)
    decreases |ops|
  {
    hide Next;
    if ops != [] {
      var n := |ops| - 1;
      LevelIsLastSet(ps[..n + 1], ops[..n], account);
      NextLevel(ps[n], ops[n], ps[n + 1], account);
    }
  }

  // ----- Halves of operations -----

  /** The second half of a `get_path_grants` that found nothing cached: the rows selected earlier are stored. */
  function StoreFetched(p: Perms, key: Key, gs: seq<PathGrant>): Perms { p.(cache := p.cache[key := gs]) }

  predicate IsRowOf(t: Table, key: Key, id: string) { id in t && KeyOf(t[id]) == key }

  ghost predicate SameRows(t: Table, t': Table, key: Key) {
    forall id :: (IsRowOf(t, key, id) <==> IsRowOf(t', key, id)) && (IsRowOf(t, key, id) ==> t[id] == t'[id])
  }

  /** Storing rows selected before other operations ran is right exactly when those left the key's rows alone. */
  lemma FetchRaceIff(t: Table, p: Perms, key: Key, gs: seq<PathGrant>)
    requires TableOk(t) && Enumerates(gs, t, key) && Agree(p)
    ensures Agree(StoreFetched(p, key, gs)) <==> SameRows(t, p.table, key)
  {
    if SameRows(t, p.table, key) {
      forall g | g in gs ensures g.id in p.table && p.table[g.id] == g { assert IsRowOf(t, key, g.id); }
      forall id | IsRowOf(p.table, key, id) ensures p.table[id] in gs { assert IsRowOf(t, key, id); }
      assert Enumerates(gs, p.table, key);
    } else if Agree(StoreFetched(p, key, gs)) {
      assert Enumerates(StoreFetched(p, key, gs).cache[key], p.table, key);
      forall id
        ensures (IsRowOf(t, key, id) <==> IsRowOf(p.table, key, id)) && (IsRowOf(t, key, id) ==> t[id] == p.table[id])
      {
        if IsRowOf(t, key, id) { assert t[id] in gs && t[id].id == id; }
        if IsRowOf(p.table, key, id) { assert p.table[id] in gs && p.table[id].id == id; }
      }
    }
  }

  /** The two halves of a successful `grant_path`. */
  function InsertHalf(p: Perms, g: PathGrant): Perms { p.(table := InsertRow(p.table, g)) }

  function PushHalf(p: Perms, g: PathGrant): Perms {
    p.(cache := p.cache[KeyOf(g) := CachedFor(p.cache, KeyOf(g)) + [g]])
  }

  lemma GrantIsItsHalves(p: Perms, ctx: UserContext, id: string, grantee: string, universe: string, prefix: string,
                         canDelegate: bool)
    requires CanDelegate(ctx, prefix)
    ensures GrantPath(p, ctx, id, grantee, universe, prefix, canDelegate)
            == var g := PathGrant(id, universe, grantee, prefix, canDelegate, ctx.account);
               (PushHalf(InsertHalf(p, g), g), Ok(g))
  {
  }

  lemma PushAfterInsert(p: Perms, g: PathGrant)
    requires Agree(p) && g.id !in p.table && !LiveSlot(p, g.universe, g.grantee, g.prefix)
    ensures Agree(PushHalf(InsertHalf(p, g), g))
  {
    var ctx := UserContext(g.grantedBy, g.universe, Owner, []);
    GrantKeepsAgree(p, ctx, g.id, g.grantee, g.universe, g.prefix, g.canDelegate);
    GrantIsItsHalves(p, ctx, g.id, g.grantee, g.universe, g.prefix, g.canDelegate);
  }

  /** A fetch by the grantee between the halves is harmless exactly when the grantee's list was cached before; otherwise
      it loads the new row, and the push then adds the grant a second time. */
  lemma GrantRaceIff(p: Perms, g: PathGrant, gs: seq<PathGrant>, q: Perms)
    requires Agree(p) && g.id !in p.table && !LiveSlot(p, g.universe, g.grantee, g.prefix)
    requires Fetches(InsertHalf(p, g), KeyOf(g), gs, q)
    ensures Agree(PushHalf(q, g)) <==> KeyOf(g) in p.cache
  {
    var key := KeyOf(g);
    if key in p.cache {
      PushAfterInsert(p, g);
    } else {
      assert g.id in InsertHalf(p, g).table && g in gs;
      var twice := PushHalf(q, g).cache[key];
      var i :| 0 <= i < |gs| && gs[i] == g;
      assert twice == gs + [g] && twice[i].id == twice[|gs|].id;
      assert !Enumerates(twice, PushHalf(q, g).table, key);
    }
  }

  /** A revocation of the new grant between the halves is allowed, and leaves it cached without a row. */
  lemma RevokeRace(p: Perms, wizard: UserContext, g: PathGrant)
    requires Agree(p) && AtLeastWizard(wizard.level) && g.id !in p.table
    ensures var q := InsertHalf(p, g);
            var dropped := DropGrant(q, g, g.id, g.universe);
            && Next(q, OpRevoke(wizard, g.id, g.universe), dropped)
            && !Agree(PushHalf(dropped, g))
            && g in PushHalf(dropped, g).cache[KeyOf(g)] && g.id !in PushHalf(dropped, g).table
  {
    var q := InsertHalf(p, g);
    var dropped := DropGrant(q, g, g.id, g.universe);
    assert Finds(q, g.id, g.universe, Some(g)) && CanRevoke(wizard, g);
    var served := PushHalf(dropped, g).cache[KeyOf(g)];
    assert served[|served| - 1] == g;
    assert !Enumerates(served, dropped.table, KeyOf(g));
  }

  // ----- A re-grant and a revocation -----

  lemma RegrantIsFound(p: Perms, wizard: UserContext, g: PathGrant, id: string)
    requires Agree(p) && AtLeastWizard(wizard.level) && g.id in p.table && p.table[g.id] == g
    ensures var (p1, granted) := GrantPath(p, wizard, id, g.grantee, g.universe, g.prefix, g.canDelegate);
            && granted.Ok?
            && Next(p1, OpRevoke(wizard, id, g.universe), DropGrant(p1, granted.value, id, g.universe))
            && g in p.cache[KeyOf(g)] && p1.cache[KeyOf(g)] == p.cache[KeyOf(g)] + [granted.value]
  {
    var (p1, granted) := GrantPath(p, wizard, id, g.grantee, g.universe, g.prefix, g.canDelegate);
    var was := p.cache[KeyOf(g)];
    assert (was + [granted.value])[|was|] == granted.value;
    assert granted.value in p1.cache[KeyOf(g)];
    assert InCache(p1.cache, granted.value);
    assert Finds(p1, id, g.universe, Some(granted.value)) && CanRevoke(wizard, granted.value);
  }

  /** Re-granting a live slot and revoking the new grant: the table has no row for the slot any more, and
      the cache goes on serving the old grant. */
  lemma RegrantThenRevoke(p: Perms, wizard: UserContext, g: PathGrant, id: string)
    requires Agree(p) && AtLeastWizard(wizard.level) && g.id in p.table && p.table[g.id] == g && id !in p.table
    ensures var (p1, granted) := GrantPath(p, wizard, id, g.grantee, g.universe, g.prefix, g.canDelegate);
            && granted.Ok?
            && var p2 := DropGrant(p1, granted.value, id, g.universe);
            && Next(p1, OpRevoke(wizard, id, g.universe), p2)
            && !LiveSlot(p2, g.universe, g.grantee, g.prefix)
            && Fetches(p2, KeyOf(g), p2.cache[KeyOf(g)], p2)
            && g in p2.cache[KeyOf(g)]
  {
    RegrantIsFound(p, wizard, g, id);
    var p1 := GrantPath(p, wizard, id, g.grantee, g.universe, g.prefix, g.canDelegate).0;
    WithoutMembers(p1.cache[KeyOf(g)], id);
  }
}
