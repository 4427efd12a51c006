/** Delegation over whole runs (mudd/src/permissions/mod.rs:246-258, 403-522): grants are made with user
    contexts captured earlier, which may be out of date, and every grant is recorded. */
module Delegation {
  import opened Wrappers
  import opened ObjectPaths
  import opened Permissions

  /** A grant that succeeded, and the level its grantor's context had. */
  datatype Event = Event(level: AccessLevel, grant: PathGrant)

  datatype World = World(perms: Perms, contexts: set<UserContext>, history: seq<Event>)

  /** Contexts come from `get_user_context`; callers grant in the universe the context was made for. */
  ghost predicate NextWorld(w: World, op: Op, w': World) {
    && Next(w.perms, op, w'.perms)
    && match op
       case OpContext(ctx) => w'.contexts == w.contexts + {ctx} && w'.history == w.history
       case OpGrant(ctx, id, grantee, universe, prefix, canDelegate) =>
         && ctx in w.contexts && universe == ctx.universe && w'.contexts == w.contexts
         && var result := GrantPath(w.perms, ctx, id, grantee, universe, prefix, canDelegate).1;
            w'.history == if result.Ok? then w.history + [Event(ctx.level, result.value)] else w.history
       case OpRevoke(ctx, _, _) => ctx in w.contexts && w'.contexts == w.contexts && w'.history == w.history
       case _ => w'.contexts == w.contexts && w'.history == w.history
  }

  ghost predicate Known(h: seq<Event>, g: PathGrant) {
    exists i :: 0 <= i < |h| && h[i].grant == g
  }

  /** The first grant could be delegated to make the second. */
  ghost predicate Links(a: PathGrant, b: PathGrant) {
    a.canDelegate && a.universe == b.universe && a.grantee == b.grantedBy && Covers(a.prefix, b.prefix)
  }

  ghost predicate JustifiedAt(h: seq<Event>, i: nat)
    requires i < |h|
  {
    AtLeastWizard(h[i].level) || exists j :: 0 <= j < i && Links(h[j].grant, h[i].grant)
  }

  ghost predicate CacheKnown(c: Cache, h: seq<Event>) {
    forall key, g | key in c && g in c[key] :: Known(h, g) && KeyOf(g) == key
  }

  ghost predicate ContextKnown(ctx: UserContext, h: seq<Event>) {
    forall g | g in ctx.grants :: Known(h, g) && KeyOf(g) == (ctx.universe, ctx.account)
  }

  ghost predicate Invariant(w: World) {
    && (forall id | id in w.perms.table :: Known(w.history, w.perms.table[id]))
    && CacheKnown(w.perms.cache, w.history)
    && (forall ctx | ctx in w.contexts :: ContextKnown(ctx, w.history))
    && (forall i: nat | i < |w.history| :: JustifiedAt(w.history, i))
  }

  lemma KnownGrows(h: seq<Event>, e: Event)
    ensures forall g | Known(h, g) :: Known(h + [e], g)
    ensures Known(h + [e], e.grant)
  {
    forall g | Known(h, g) ensures Known(h + [e], g) {
      var i :| 0 <= i < |h| && h[i].grant == g;
      assert (h + [e])[i].grant == g;
    }
    assert (h + [e])[|h|] == e;
  }

  lemma JustifiedGrows(h: seq<Event>, e: Event)
    requires forall i: nat | i < |h| :: JustifiedAt(h, i)
    requires AtLeastWizard(e.level) || exists j :: 0 <= j < |h| && Links(h[j].grant, e.grant)
    ensures forall i: nat | i < |h + [e]| :: JustifiedAt(h + [e], i)
  {
    var longer := h + [e];
    forall i: nat | i < |longer| ensures JustifiedAt(longer, i) {
      if i < |h| {
        assert JustifiedAt(h, i);
        if !AtLeastWizard(h[i].level) {
          var j :| 0 <= j < i && Links(h[j].grant, h[i].grant);
          assert Links(longer[j].grant, longer[i].grant);
        }
      } else if !AtLeastWizard(e.level) {
        var j :| 0 <= j < |h| && Links(h[j].grant, e.grant);
        assert Links(longer[j].grant, longer[i].grant);
      }
    }
  }

  /** The table and the cache after a grant hold known grants only. */
  lemma KnownGrowsAll(w: World, e: Event)
    requires forall id | id in w.perms.table :: Known(w.history, w.perms.table[id])
    requires CacheKnown(w.perms.cache, w.history)
    ensures var t, c, key := InsertRow(w.perms.table, e.grant), w.perms.cache, KeyOf(e.grant);
            && (forall id | id in t :: Known(w.history + [e], t[id]))
            && CacheKnown(c[key := CachedFor(c, key) + [e.grant]], w.history + [e])
  {
    KnownGrows(w.history, e);
    hide Known;
  }

  lemma GrantKeeps(w: World, op: Op, w': World)
    requires Invariant(w) && NextWorld(w, op, w') && op.OpGrant? && CanDelegate(op.ctx, op.prefix)
    ensures Invariant(w')
  {
    var g := PathGrant(op.id, op.universe, op.grantee, op.prefix, op.canDelegate, op.ctx.account);
    var e := Event(op.ctx.level, g);
    KnownGrows(w.history, e);
    if !AtLeastWizard(op.ctx.level) {
      var k :| 0 <= k < |op.ctx.grants| && CanDelegateVia(op.ctx.grants[k], op.prefix);
      assert ContextKnown(op.ctx, w.history) && op.ctx.grants[k] in op.ctx.grants;
      var j :| 0 <= j < |w.history| && w.history[j].grant == op.ctx.grants[k];
      assert Links(w.history[j].grant, g);
    }
    JustifiedGrows(w.history, e);
    KnownGrowsAll(w, e);
    hide JustifiedAt, Known, InsertRow;
    forall ctx | ctx in w'.contexts ensures ContextKnown(ctx, w'.history) {
      assert ContextKnown(ctx, w.history);
    }
  }

  lemma DropKeepsKnown(p: Perms, h: seq<Event>, g: PathGrant, id: string, universe: string)
    requires CacheKnown(p.cache, h) && forall i | i in p.table :: Known(h, p.table[i])
    ensures var q := DropGrant(p, g, id, universe);
            CacheKnown(q.cache, h) && forall i | i in q.table :: Known(h, q.table[i])
  {
    var q, key := DropGrant(p, g, id, universe), (universe, g.grantee);
    if key in p.cache {
      WithoutMembers(p.cache[key], id);
      forall k, x | k in q.cache && x in q.cache[k] ensures Known(h, x) && KeyOf(x) == k {
        assert k in p.cache && x in p.cache[k];
      }
    }
  }

  lemma RevokeKeeps(w: World, op: Op, w': World)
    requires Invariant(w) && NextWorld(w, op, w') && op.OpRevoke?
    ensures Invariant(w')
  {
    var p := w.perms;
    var found :| Finds(p, op.id, op.universe, found)
      && w'.perms == if found.Some? && CanRevoke(op.ctx, found.value) then DropGrant(p, found.value, op.id, op.universe)
                     else p;
    if found.Some? && CanRevoke(op.ctx, found.value) {
      DropKeepsKnown(p, w.history, found.value, op.id, op.universe);
    }
  }

  lemma NextKeeps(w: World, op: Op, w': World)
    requires Invariant(w) && NextWorld(w, op, w')
    ensures Invariant(w')
  {
    match op
    case OpGrant(ctx, _, _, _, prefix, _) => if CanDelegate(ctx, prefix) { GrantKeeps(w, op, w'); }
    case OpRevoke(_, _, _) => RevokeKeeps(w, op, w');
    case OpContext(ctx) =>
      var p := CacheLevel(w.perms, ctx.account);
      assert forall g | g in ctx.grants :: Known(w.history, g) && KeyOf(g) == (ctx.universe, ctx.account);
    case _ =>
  }

  ghost predicate IsRun(ws: seq<World>, ops: seq<Op>) {
    |ws| == |ops| + 1 && forall i | 0 <= i < |ops| :: NextWorld(ws[i], ops[i], ws[i + 1])
  }

  /** No grants, nothing captured; accounts and levels are arbitrary. */
  ghost predicate Initial(w: World) {
    w.perms.cache == map[] && w.perms.table == map[] && w.contexts == {} && w.history == []
  }

  lemma {:induction false} RunKeeps(ws: seq<World>, ops: seq<Op>)
    requires IsRun(ws, ops) && Initial(ws[0])
    ensures Invariant(ws[|ops|])
    decreases |ops|
  {
    if ops != [] {
      var n := |ops| - 1;
      RunKeeps(ws[..n + 1], ops[..n]);
      NextKeeps(ws[n], ops[n], ws[n + 1]);
    }
  }

  /** A chain of grants, each made earlier than the next and delegable when used, from a Wizard's grant. */
  ghost predicate IsChain(h: seq<Event>, chain: seq<nat>) {
    && chain != []
    && (forall k | 0 <= k < |chain| :: chain[k] < |h|)
    && AtLeastWizard(h[chain[0]].level)
    && (forall k | 0 < k < |chain| :: chain[k - 1] < chain[k] && Links(h[chain[k - 1]].grant, h[chain[k]].grant))
  }

  lemma {:induction false} ChainTo(h: seq<Event>, i: nat) returns (chain: seq<nat>)
    requires i < |h| && forall k: nat | k < |h| :: JustifiedAt(h, k)
    ensures IsChain(h, chain) && chain[|chain| - 1] == i
    decreases i
  {
    assert JustifiedAt(h, i);
    if AtLeastWizard(h[i].level) {
      chain := [i];
    } else {
      var j :| 0 <= j < i && Links(h[j].grant, h[i].grant);
      var before := ChainTo(h, j);
      chain := before + [i];
    }
  }

  lemma {:induction false} ChainCovers(h: seq<Event>, chain: seq<nat>)
    requires IsChain(h, chain)
    ensures var root, leaf := h[chain[0]].grant, h[chain[|chain| - 1]].grant;
            root.universe == leaf.universe && Covers(root.prefix, leaf.prefix)
    decreases |chain|
  {
    var n := |chain| - 1;
    if n > 0 {
      ChainCovers(h, chain[..n]);
      CoversTransitive(h[chain[0]].grant.prefix, h[chain[n - 1]].grant.prefix, h[chain[n]].grant.prefix);
    }
  }

  /** A grant that some fetch, row or captured context still shows. */
  ghost predicate Live(w: World, g: PathGrant) {
    || (exists id :: id in w.perms.table && w.perms.table[id] == g)
    || InCache(w.perms.cache, g)
    || (exists ctx :: ctx in w.contexts && g in ctx.grants)
  }

  ghost predicate WizardGranted(h: seq<Event>, i: nat, universe: string, path: string) {
    i < |h| && AtLeastWizard(h[i].level) && h[i].grant.universe == universe && Covers(h[i].grant.prefix, path)
  }

  /** Delegation never amplifies: behind every live grant is a Wizard's grant of a covering prefix in the
      same universe, and so behind every path that the live grant opens. */
  lemma NeverAmplifies(ws: seq<World>, ops: seq<Op>, g: PathGrant, path: string)
    requires IsRun(ws, ops) && Initial(ws[0]) && Live(ws[|ops|], g) && Covers(g.prefix, path)
    ensures exists i: nat :: WizardGranted(ws[|ops|].history, i, g.universe, path)
  {
    RunKeeps(ws, ops);
    var w := ws[|ops|];
    assert Known(w.history, g) by {
      if ctx :| ctx in w.contexts && g in ctx.grants { assert ContextKnown(ctx, w.history); }
    }
    var i :| 0 <= i < |w.history| && w.history[i].grant == g;
    var chain := ChainTo(w.history, i);
    ChainCovers(w.history, chain);
    CoversTransitive(w.history[chain[0]].grant.prefix, g.prefix, path);
    assert WizardGranted(w.history, chain[0], g.universe, path);
  }

  // ----- Who may revoke -----

  ghost predicate Grants(op: Op, id: string) { op.OpGrant? && op.id == id && Authorises(op.ctx, op.prefix) }

  /** Operation `k` is the last before `n` that granted under the id. */
  ghost predicate Made(ops: seq<Op>, k: nat, n: nat, id: string) {
    k < n <= |ops| && Grants(ops[k], id) && forall j | k < j < n :: !Grants(ops[j], id)
  }

  /** What the grant asked for, and who asked. */
  function Asked(op: Op): PathGrant
    requires op.OpGrant?
  {
    PathGrant(op.id, op.universe, op.grantee, op.prefix, op.canDelegate, op.ctx.account)
  }

  lemma NextRow(w: World, op: Op, w': World, id: string)
    requires NextWorld(w, op, w') && id in w'.perms.table
    ensures if Grants(op, id) then w'.perms.table[id] == Asked(op)
            else id in w.perms.table && w'.perms.table[id] == w.perms.table[id]
  {
    hide Authorises;
    if op.OpGrant? { DelegatesIff(op.ctx, op.prefix); }
  }

  /** Every row was made by a grant of the run, and says what that grant asked for. */
  lemma {:induction false} RowIsMade(ws: seq<World>, ops: seq<Op>, n: nat, id: string) returns (k: nat)
    requires IsRun(ws, ops) && Initial(ws[0]) && n <= |ops| && id in ws[n].perms.table
    ensures Made(ops, k, n, id) && ws[n].perms.table[id] == Asked(ops[k])
    decreases n
  {
    hide NextWorld, Authorises;
    var m := n - 1;
    NextRow(ws[m], ops[m], ws[n], id);
    if Grants(ops[m], id) { k := m; } else { k := RowIsMade(ws, ops, m, id); }
  }

  /** In every run, where cache and table agree: a revocation removes the row that operation `k` made exactly when the
      revoker is Wizard or above, is the account that granted it, or holds a covering grant that may be passed on.
      Otherwise rows and lists stay as they were. */
  lemma RevokesOwnIff(ws: seq<World>, ops: seq<Op>, n: nat, k: nat)
    requires IsRun(ws, ops) && Initial(ws[0]) && n < |ops| && ops[n].OpRevoke? && Agree(ws[n].perms)
    requires Made(ops, k, n, ops[n].id)
    ensures var p, p', ctx, id := ws[n].perms, ws[n + 1].perms, ops[n].ctx, ops[n].id;
            && (id in p.table ==> p.table[id] == Asked(ops[k]))
            && if id in p.table && ops[k].universe == ops[n].universe
                  && (|| ctx.level == Wizard || ctx.level == Admin || ctx.level == Owner
                      || ctx.account == ops[k].ctx.account
                      || exists g :: g in ctx.grants && g.canDelegate && Covers(g.prefix, ops[k].prefix))
               then Gone(p, id, p') else p' == p
  {
    hide Revokes, Agree, Gone;
    var p, id := ws[n].perms, ops[n].id;
    if id in p.table { var made := RowIsMade(ws, ops, n, id); }
    assert NextWorld(ws[n], ops[n], ws[n + 1]);
    RevokesIff(p, ops[n].ctx, id, ops[n].universe, ws[n + 1].perms);
  }

  /** The universe is the caller's duty: `grant_path` itself does not compare it with the context's, so a
      context that may delegate a path in one universe succeeds in every other. */
  lemma GrantIgnoresContextUniverse(p: Perms, ctx: UserContext, id: string, grantee: string, universe: string,
                                    prefix: string, canDelegate: bool)
    ensures GrantPath(p, ctx, id, grantee, universe, prefix, canDelegate).1.Ok? <==> CanDelegate(ctx, prefix)
    ensures GrantPath(p, ctx, id, grantee, universe, prefix, canDelegate)
            == GrantPath(p, ctx.(universe := universe), id, grantee, universe, prefix, canDelegate)
  {
    assert CanDelegate(ctx, prefix) == CanDelegate(ctx.(universe := universe), prefix);
  }
}
