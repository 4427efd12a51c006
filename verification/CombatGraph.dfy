/** Who fights whom (mudd/src/combat/state.rs). Each link is held in two places, the attacker's target and
    the target's set of attackers, and the operations change several entities at once. */
module CombatGraph {
  import opened Wrappers

  type Id = string

  datatype Fighter = Fighter(inCombat: bool, attacking: Option<Id>, attackers: set<Id>, hp: int, maxHp: int)

  type World = map<Id, Fighter>

  const DEFAULT_HP := 100

  function Fresh(maxHp: int): Fighter { Fighter(false, None, {}, maxHp, maxHp) }

  function StartAttacking(f: Fighter, target: Id): Fighter { f.(inCombat := true, attacking := Some(target)) }

  function StopAttacking(f: Fighter): Fighter {
    f.(attacking := None, inCombat := f.inCombat && f.attackers != {})
  }

  function AddAttacker(f: Fighter, attacker: Id): Fighter {
    f.(inCombat := true, attackers := f.attackers + {attacker})
  }

  function RemoveAttacker(f: Fighter, attacker: Id): Fighter {
    var rest := f.attackers - {attacker};
    f.(attackers := rest, inCombat := f.inCombat && (rest != {} || f.attacking.Some?))
  }

  function LeaveCombat(f: Fighter): Fighter { f.(inCombat := false, attacking := None, attackers := {}) }

  function Ensure(w: World, e: Id): World { if e in w then w else w[e := Fresh(DEFAULT_HP)] }

  function Initiate(w: World, attacker: Id, defender: Id): World {
    var both := Ensure(Ensure(w, attacker), defender);
    var started := both[attacker := StartAttacking(both[attacker], defender)];
    started[defender := AddAttacker(started[defender], attacker)]
  }

  /** What becomes of one entity x when e ends combat, without the order of the loop. */
  function AfterEnd(w: World, e: Id, x: Id): Fighter
    requires e in w && x in w
  {
    if x == e then LeaveCombat(w[e])
    else
      var f := if x in w[e].attackers && w[x].attacking == Some(e) then StopAttacking(w[x]) else w[x];
      if w[e].attacking == Some(x) then RemoveAttacker(f, e) else f
  }

  function EndCombat(w: World, e: Id): World {
    if e in w then map x | x in w :: AfterEnd(w, e, x) else w
  }

  /** The loop of `end_combat` after it has visited the attackers in done. */
  function Released(w: World, e: Id, done: set<Id>): World {
    map x | x in w :: if x in done && w[x].attacking == Some(e) then StopAttacking(w[x]) else w[x]
  }

  lemma ReleaseOne(w: World, e: Id, done: set<Id>, x: Id)
    requires x !in done
    ensures Released(w, e, done + {x})
            == if x in w && w[x].attacking == Some(e) then Released(w, e, done)[x := StopAttacking(w[x])]
               else Released(w, e, done)
  {
  }

  /** The source's order of updates, after the loop, gives the closed form. */
  lemma EndCombatInOrder(w: World, e: Id)
    requires e in w
    ensures var v := Released(w, e, w[e].attackers);
            var u := if v[e].attacking.Some? && v[e].attacking.value in v
                     then v[v[e].attacking.value := RemoveAttacker(v[v[e].attacking.value], e)] else v;
            u[e := LeaveCombat(u[e])] == EndCombat(w, e)
  {
  }

  /** The second locked section of `remove_entity`. */
  function Drop(w: World, e: Id): World { w - {e} }

  function RemoveEntity(w: World, e: Id): World { Drop(EndCombat(w, e), e) }

  /** `init_entity` replaces whatever state the entity had. */
  function InitEntity(w: World, e: Id, maxHp: int): World { w[e := Fresh(maxHp)] }

  /** Damage and healing, in place under one lock. */
  function SetHp(w: World, e: Id, hp: int): World { if e in w then w[e := w[e].(hp := hp)] else w }

  /** `update_state` puts a copy back, with the links that it had when it was made. */
  function Save(w: World, e: Id, saved: Fighter): World { w[e := saved] }

  // ----- Invariants -----

  ghost predicate Targets(w: World, x: Id, d: Id) { x in w && w[x].attacking == Some(d) }

  ghost predicate Lists(w: World, d: Id, x: Id) { d in w && x in w[d].attackers }

  ghost predicate FlagRight(f: Fighter) { f.inCombat <==> f.attacking.Some? || f.attackers != {} }

  /** A target is tracked and lists its attacker; the flag says whether there is any link. */
  ghost predicate Sound(w: World) {
    && (forall x | x in w :: FlagRight(w[x]))
    && (forall x, d | Targets(w, x, d) :: Lists(w, d, x))
  }

  /** `attackers` is exactly the inverse of `attacking`. */
  ghost predicate Exact(w: World) {
    && Sound(w)
    && (forall x, d | Lists(w, d, x) :: Targets(w, x, d))
  }

  ghost predicate Untouched(w: World, e: Id) {
    && (forall x :: !Targets(w, x, e))
    && (e in w ==> !w[e].inCombat && w[e].attacking == None && w[e].attackers == {})
  }

  // ----- One step -----

  lemma InitiateKeepsSound(w: World, a: Id, d: Id)
    requires Sound(w)
    ensures Sound(Initiate(w, a, d))
  {
    var v := Initiate(w, a, d);
    forall x, y | Targets(v, x, y) ensures Lists(v, y, x) {
      if x != a { assert Targets(w, x, y); assert Lists(w, y, x); }
    }
  }

  /** Starting a fight keeps the inverse exact if and only if the attacker does not leave another target. */
  lemma InitiateKeepsExactIff(w: World, a: Id, d: Id)
    requires Exact(w)
    ensures Exact(Initiate(w, a, d)) <==> (a in w && w[a].attacking.Some? ==> w[a].attacking == Some(d))
  {
    InitiateKeepsSound(w, a, d);
    var v := Initiate(w, a, d);
    if a in w && w[a].attacking.Some? && w[a].attacking != Some(d) {
      var left := w[a].attacking.value;
      assert Targets(w, a, left);
      assert Lists(v, left, a) && !Targets(v, a, left);
    } else {
      forall x, y | Lists(v, y, x) ensures Targets(v, x, y) {
        if !(x == a && y == d) {
          assert Lists(w, y, x);
          assert Targets(w, x, y);
        }
      }
    }
  }

  lemma EndCombatClears(w: World, e: Id)
    requires Sound(w)
    ensures Sound(EndCombat(w, e)) && Untouched(EndCombat(w, e), e)
  {
    var v := EndCombat(w, e);
    if e in w {
      forall x, y | Targets(v, x, y) ensures y != e && Lists(v, y, x) {
        assert Targets(w, x, y);
        assert Lists(w, y, x);
      }
    } else {
      assert forall x :: Targets(w, x, e) ==> Lists(w, e, x);
    }
  }

  /** Only the attackers that target e, and e's own target, are changed. */
  lemma EndCombatFrame(w: World, e: Id, x: Id)
    requires x in w && x != e && !Targets(w, x, e) && !Targets(w, e, x)
    ensures x in EndCombat(w, e) && EndCombat(w, e)[x] == w[x]
  {
  }

  lemma EndCombatKeepsExact(w: World, e: Id)
    requires Exact(w)
    ensures Exact(EndCombat(w, e))
    ensures forall d :: !Lists(EndCombat(w, e), d, e)
  {
    EndCombatClears(w, e);
    var v := EndCombat(w, e);
    forall x, y | Lists(v, y, x) ensures Targets(v, x, y) && x != e {
      assert Lists(w, y, x);
      assert Targets(w, x, y);
    }
  }

  /** Which links there are after a fight starts: the attacker has the one target and no other, the defender lists one
      more attacker, and no other link comes or goes. */
  lemma InitiateLinks(w: World, a: Id, d: Id)
    ensures var v := Initiate(w, a, d);
            && v.Keys == w.Keys + {a, d}
            && (forall x, y :: Targets(v, x, y) <==> if x == a then y == d else Targets(w, x, y))
            && (forall x, y :: Lists(v, y, x) <==> Lists(w, y, x) || (y == d && x == a))
            && v[a].inCombat && v[d].inCombat
            && (forall x | x in w && x != a && x != d :: v[x] == w[x])
  {
  }

  /** Which links there are after combat ends for e: none from e, none to e from those it listed, e on nobody's list but
      of those it did not target, nobody on e's. */
  lemma EndCombatLinks(w: World, e: Id)
    requires e in w
    ensures var v := EndCombat(w, e);
            && v.Keys == w.Keys
            && (forall x, y :: Targets(v, x, y) <==> Targets(w, x, y) && x != e && !(y == e && Lists(w, e, x)))
            && (forall x, y :: Lists(v, y, x) <==> Lists(w, y, x) && y != e && !(x == e && Targets(w, e, y)))
  {
  }

  /** Dropping a state is safe if and only if no other entity still targets it. */
  lemma DropKeepsSoundIff(w: World, e: Id)
    requires Sound(w)
    ensures Sound(Drop(w, e)) <==> forall x | x != e :: !Targets(w, x, e)
  {
    var v := Drop(w, e);
    if x :| x != e && Targets(w, x, e) {
      assert Targets(v, x, e) && !Lists(v, e, x);
    } else {
      forall x, y | Targets(v, x, y) ensures Lists(v, y, x) {
        assert Targets(w, x, y);
        assert Lists(w, y, x);
      }
    }
  }

  lemma RemoveEntityClears(w: World, e: Id)
    requires Sound(w)
    ensures Sound(RemoveEntity(w, e)) && e !in RemoveEntity(w, e)
    ensures forall x :: !Targets(RemoveEntity(w, e), x, e)
    ensures Exact(w) ==> Exact(RemoveEntity(w, e)) && forall d :: !Lists(RemoveEntity(w, e), d, e)
  {
    var v := EndCombat(w, e);
    EndCombatClears(w, e);
    DropKeepsSoundIff(v, e);
    assert forall x :: Targets(Drop(v, e), x, e) ==> Targets(v, x, e);
    if Exact(w) {
      EndCombatKeepsExact(w, e);
      forall x, y | Lists(Drop(v, e), y, x) ensures Targets(Drop(v, e), x, y) {
        assert Lists(v, y, x);
        assert Targets(v, x, y) && x != e;
      }
    }
  }

  /** Initialising is safe if and only if nobody else targets the entity; an absent one never is. */
  lemma InitKeepsSoundIff(w: World, e: Id, maxHp: int)
    requires Sound(w)
    ensures Sound(InitEntity(w, e, maxHp)) <==> forall x | x != e :: !Targets(w, x, e)
    ensures e !in w ==> forall x :: !Targets(w, x, e)
  {
    var v := InitEntity(w, e, maxHp);
    if x :| x != e && Targets(w, x, e) {
      assert Lists(w, e, x);
      assert Targets(v, x, e) && !Lists(v, e, x);
    } else {
      forall x, y | Targets(v, x, y) ensures Lists(v, y, x) {
        assert Targets(w, x, y);
        assert Lists(w, y, x);
      }
      if e !in w {
        assert forall x :: Targets(w, x, e) ==> Lists(w, e, x);
      }
    }
  }

  lemma InitAbsentKeepsExact(w: World, e: Id, maxHp: int)
    requires Exact(w) && e !in w
    ensures Exact(InitEntity(w, e, maxHp))
  {
    InitKeepsSoundIff(w, e, maxHp);
    var v := InitEntity(w, e, maxHp);
    forall x, y | Lists(v, y, x) ensures Targets(v, x, y) {
      assert Lists(w, y, x);
      assert Targets(w, x, y);
    }
  }

  /** A new fight undone: ending it gives back the very world it started from. */
  lemma EndUndoesInitiate(w: World, a: Id, d: Id)
    requires Sound(w) && a in w && d in w && !w[a].inCombat && !Lists(w, d, a)
    ensures EndCombat(Initiate(w, a, d), a) == w
  {
    var v := Initiate(w, a, d);
    var u := EndCombat(v, a);
    assert FlagRight(w[a]) && FlagRight(w[d]);
    assert (w[d].attackers + {a}) - {a} == w[d].attackers;
    forall x | x in w ensures u[x] == w[x] {
      assert Targets(w, x, a) ==> Lists(w, a, x);
    }
    assert u.Keys == w.Keys;
  }

  /** After a retarget, ending combat leaves the first target in combat with an attacker that has left. */
  lemma RetargetStrands(w: World, a: Id, first: Id, second: Id)
    requires Exact(w) && Targets(w, a, first) && second != first && first != a
    ensures var v := EndCombat(Initiate(w, a, second), a);
            Sound(v) && Lists(v, first, a) && v[first].inCombat && v[a].attacking == None
  {
    InitiateKeepsSound(w, a, second);
    assert Lists(w, first, a);
    EndCombatClears(Initiate(w, a, second), a);
    assert Lists(Initiate(w, a, second), first, a);
  }

  /** `remove_entity` locks twice: an attack that starts in between is left pointing at nothing. */
  lemma RemovalRace(w: World, e: Id, x: Id)
    requires Sound(w) && x != e
    ensures !Sound(Drop(Initiate(EndCombat(w, e), x, e), e))
  {
    EndCombatClears(w, e);
    InitiateKeepsSound(EndCombat(w, e), x, e);
    DropKeepsSoundIff(Initiate(EndCombat(w, e), x, e), e);
    assert Targets(Initiate(EndCombat(w, e), x, e), x, e);
  }

  // ----- Putting a copy back -----

  /** The copy's flag is right, it lists whoever targets the entity now, and its own target lists the entity. */
  ghost predicate Fits(w: World, e: Id, saved: Fighter) {
    && FlagRight(saved)
    && (forall x | x != e && Targets(w, x, e) :: x in saved.attackers)
    && (saved.attacking.Some? ==>
          if saved.attacking.value == e then e in saved.attackers else Lists(w, saved.attacking.value, e))
  }

  /** A write-back with nothing in between is a change of hit points. */
  lemma UndisturbedWriteBack(w: World, e: Id, hp: int)
    requires e in w
    ensures Save(w, e, w[e].(hp := hp)) == SetHp(w, e, hp)
  {
  }

  lemma SaveKeepsSoundIff(w: World, e: Id, saved: Fighter)
    requires Sound(w)
    ensures Sound(Save(w, e, saved)) <==> Fits(w, e, saved)
  {
    var v := Save(w, e, saved);
    assert forall x, d | x != e :: Targets(v, x, d) <==> Targets(w, x, d);
    assert forall x, d | d != e :: Lists(v, d, x) <==> Lists(w, d, x);
    assert forall x :: Lists(v, e, x) <==> x in saved.attackers;
    if Sound(v) {
      assert v[e] == saved && FlagRight(v[e]);
      if saved.attacking.Some? { assert Targets(v, e, saved.attacking.value); }
      forall x | x != e && Targets(w, x, e) ensures x in saved.attackers { assert Targets(v, x, e); }
    }
  }

  /** The copy has exactly the links that the others have with the entity. */
  ghost predicate FitsExactly(w: World, e: Id, saved: Fighter) {
    && FlagRight(saved)
    && (forall x | x != e :: x in saved.attackers <==> Targets(w, x, e))
    && (forall d | d != e :: saved.attacking == Some(d) <==> Lists(w, d, e))
    && (e in saved.attackers <==> saved.attacking == Some(e))
  }

  lemma SaveKeepsExactIff(w: World, e: Id, saved: Fighter)
    requires Exact(w)
    ensures Exact(Save(w, e, saved)) <==> FitsExactly(w, e, saved)
  {
    SaveKeepsSoundIff(w, e, saved);
    var v := Save(w, e, saved);
    assert forall x, d | x != e :: Targets(v, x, d) <==> Targets(w, x, d);
    assert forall x, d | d != e :: Lists(v, d, x) <==> Lists(w, d, x);
    assert forall x :: Lists(v, e, x) <==> x in saved.attackers;
    assert forall d :: Targets(v, e, d) <==> saved.attacking == Some(d);
    if Exact(v) {
      assert forall x, d :: Targets(v, x, d) <==> Lists(v, d, x);
      assert v[e] == saved && FlagRight(v[e]);
    }
    assert FitsExactly(w, e, saved) ==> forall x, d :: Targets(v, x, d) <==> Lists(v, d, x);
  }

  /** The attack command clones a new entity's state, sets its hit points and puts the clone back. An attack that starts
      in between is kept exactly when the clone already listed the attacker ... */
  lemma WriteBackRaceIff(w: World, e: Id, x: Id, hp: int)
    requires Sound(w) && e in w && x != e
    ensures Sound(Save(Initiate(w, x, e), e, w[e].(hp := hp))) <==> x in w[e].attackers
  {
    var v, saved := Initiate(w, x, e), w[e].(hp := hp);
    InitiateKeepsSound(w, x, e);
    SaveKeepsSoundIff(v, e, saved);
    assert Targets(v, x, e) && FlagRight(w[e]);
    if x in w[e].attackers {
      forall y | y != e && Targets(v, y, e) ensures y in saved.attackers {
        if y != x { assert Targets(w, y, e); assert Lists(w, e, y); }
      }
      if saved.attacking.Some? {
        assert Targets(w, e, saved.attacking.value);
        assert Lists(w, saved.attacking.value, e);
      }
    }
  }

  /** ... and otherwise the attacker goes on targeting the entity after its removal. */
  lemma NeverReleased(w: World, e: Id, x: Id, hp: int)
    requires e in w && x != e && x !in w[e].attackers
    ensures Targets(RemoveEntity(Save(Initiate(w, x, e), e, w[e].(hp := hp)), e), x, e)
  {
  }

  /** The check for a missing state and the initialisation are two locked sections as well. */
  lemma GuardRace(w: World, e: Id, x: Id, maxHp: int)
    requires Sound(w) && e !in w && x != e
    ensures !Sound(InitEntity(Initiate(w, x, e), e, maxHp))
  {
    InitiateKeepsSound(w, x, e);
    InitKeepsSoundIff(Initiate(w, x, e), e, maxHp);
    assert Targets(Initiate(w, x, e), x, e);
  }

  // ----- Every run of locked sections -----

  /** What runs under one write lock; `remove_entity` is `SecEnd` and then `SecDrop`. */
  datatype Section =
    | SecInitiate(a: Id, d: Id)
    | SecEnd(e: Id)
    | SecDrop(e: Id)
    | SecInit(e: Id, maxHp: int)
    | SecSave(e: Id, saved: Fighter)
    | SecHp(e: Id, hp: int)

  function Step(w: World, op: Section): World {
    match op
    case SecInitiate(a, d) => Initiate(w, a, d)
    case SecEnd(e) => EndCombat(w, e)
    case SecDrop(e) => Drop(w, e)
    case SecInit(e, maxHp) => InitEntity(w, e, maxHp)
    case SecSave(e, saved) => Save(w, e, saved)
    case SecHp(e, hp) => SetHp(w, e, hp)
  }

  function Run(w: World, ops: seq<Section>): World
    decreases |ops|
  {
    if ops == [] then w else Step(Run(w, ops[..|ops| - 1]), ops[|ops| - 1])
  }

  /** Hit points and their maximum. */
  type Points = (int, int)

  /** What the sections leave an entity: 100 of 100 if a fight brought it in, all of its maximum once initialised, the
      copy's once one is put back; damage and healing change a tracked one; nothing is left of a dropped one. */
  function PointsOf(ops: seq<Section>, e: Id): Option<Points>
    decreases |ops|
  {
    if ops == [] then None
    else
      var before := PointsOf(ops[..|ops| - 1], e);
      match ops[|ops| - 1]
      case SecInitiate(a, d) => if (e == a || e == d) && before.None? then Some((100, 100)) else before
      case SecDrop(x) => if x == e then None else before
      case SecInit(x, maxHp) => if x == e then Some((maxHp, maxHp)) else before
      case SecSave(x, saved) => if x == e then Some((saved.hp, saved.maxHp)) else before
      case SecHp(x, hp) => if x == e && before.Some? then Some((hp, before.value.1)) else before
      case SecEnd(_) => before
  }

  function PointsIn(w: World, e: Id): Option<Points> { if e in w then Some((w[e].hp, w[e].maxHp)) else None }

  lemma StepPoints(w: World, op: Section, e: Id)
    ensures var before, after := PointsIn(w, e), PointsIn(Step(w, op), e);
            match op
            case SecInitiate(a, d) => after == if (e == a || e == d) && before.None? then Some((100, 100)) else before
            case SecDrop(x) => after == if x == e then None else before
            case SecInit(x, maxHp) => after == if x == e then Some((maxHp, maxHp)) else before
            case SecSave(x, saved) => after == if x == e then Some((saved.hp, saved.maxHp)) else before
            case SecHp(x, hp) => after == if x == e && before.Some? then Some((hp, before.value.1)) else before
            case SecEnd(_) => after == before
  {
  }

  /** In every run an entity has exactly those hit points, and is tracked exactly when it has any. */
  lemma {:induction false} PointsAreLastSet(ops: seq<Section>, e: Id)
    ensures PointsIn(Run(map[], ops), e) == PointsOf(ops, e)
    decreases |ops|
  {
    if ops != [] {
      hide Step;
      PointsAreLastSet(ops[..|ops| - 1], e);
      StepPoints(Run(map[], ops[..|ops| - 1]), ops[|ops| - 1], e);
    }
  }

  ghost predicate NobodyTargets(w: World, e: Id) { forall x | x != e :: !Targets(w, x, e) }

  ghost predicate Safe(w: World, op: Section) {
    match op
    case SecDrop(e) => NobodyTargets(w, e)
    case SecInit(e, _) => NobodyTargets(w, e)
    case SecSave(e, saved) => Fits(w, e, saved)
    case _ => true
  }

  ghost predicate TargetsNobodyElse(w: World, e: Id) {
    e in w && w[e].attacking.Some? ==> w[e].attacking == Some(e)
  }

  ghost predicate ExactSafe(w: World, op: Section) {
    match op
    case SecInitiate(a, d) => a in w && w[a].attacking.Some? ==> w[a].attacking == Some(d)
    case SecDrop(e) => NobodyTargets(w, e) && TargetsNobodyElse(w, e)
    case SecInit(e, _) => NobodyTargets(w, e) && TargetsNobodyElse(w, e)
    case SecSave(e, saved) => FitsExactly(w, e, saved)
    case _ => true
  }

  lemma SetHpKeeps(w: World, e: Id, hp: int)
    requires Sound(w)
    ensures Sound(SetHp(w, e, hp)) && (Exact(w) ==> Exact(SetHp(w, e, hp)))
  {
    var v := SetHp(w, e, hp);
    assert forall x, d :: Targets(v, x, d) <==> Targets(w, x, d);
    assert forall x, d :: Lists(v, d, x) <==> Lists(w, d, x);
  }

  lemma StepKeepsSoundIff(w: World, op: Section)
    requires Sound(w)
    ensures Sound(Step(w, op)) <==> Safe(w, op)
  {
    match op
    case SecInitiate(a, d) => InitiateKeepsSound(w, a, d);
    case SecEnd(e) => EndCombatClears(w, e);
    case SecDrop(e) => DropKeepsSoundIff(w, e);
    case SecInit(e, maxHp) => InitKeepsSoundIff(w, e, maxHp);
    case SecSave(e, saved) => SaveKeepsSoundIff(w, e, saved);
    case SecHp(e, hp) => SetHpKeeps(w, e, hp);
  }

  lemma DropKeepsExactIff(w: World, e: Id)
    requires Exact(w)
    ensures Exact(Drop(w, e)) <==> NobodyTargets(w, e) && TargetsNobodyElse(w, e)
  {
    DropKeepsSoundIff(w, e);
    var v := Drop(w, e);
    assert forall x, d | d != e :: Lists(v, d, x) <==> Lists(w, d, x);
    assert forall x, d | x != e :: Targets(v, x, d) <==> Targets(w, x, d);
    assert forall x :: !Lists(v, e, x) && !Targets(v, e, x);
    assert forall x, d :: Targets(w, x, d) <==> Lists(w, d, x);
    if Exact(v) && e in w && w[e].attacking.Some? {
      var d := w[e].attacking.value;
      assert Targets(w, e, d) && !Targets(v, e, d);
      assert d != e ==> Lists(v, d, e);
    }
  }

  lemma InitKeepsExactIff(w: World, e: Id, maxHp: int)
    requires Exact(w)
    ensures Exact(InitEntity(w, e, maxHp)) <==> NobodyTargets(w, e) && TargetsNobodyElse(w, e)
  {
    SaveKeepsExactIff(w, e, Fresh(maxHp));
    assert InitEntity(w, e, maxHp) == Save(w, e, Fresh(maxHp));
    assert forall x, d :: Targets(w, x, d) <==> Lists(w, d, x);
    if TargetsNobodyElse(w, e) {
      assert forall d | d != e :: !Targets(w, e, d);
    } else {
      assert Lists(w, w[e].attacking.value, e);
    }
  }

  lemma StepKeepsExactIff(w: World, op: Section)
    requires Exact(w)
    ensures Exact(Step(w, op)) <==> ExactSafe(w, op)
  {
    match op
    case SecInitiate(a, d) => InitiateKeepsExactIff(w, a, d);
    case SecEnd(e) => EndCombatKeepsExact(w, e);
    case SecDrop(e) => DropKeepsExactIff(w, e);
    case SecInit(e, maxHp) => InitKeepsExactIff(w, e, maxHp);
    case SecSave(e, saved) => SaveKeepsExactIff(w, e, saved);
    case SecHp(e, hp) => SetHpKeeps(w, e, hp);
  }

  ghost predicate AlwaysSound(ops: seq<Section>) {
    forall i | 0 <= i <= |ops| :: Sound(Run(map[], ops[..i]))
  }

  ghost predicate AlwaysSafe(ops: seq<Section>) {
    forall i | 0 <= i < |ops| :: Safe(Run(map[], ops[..i]), ops[i])
  }

  ghost predicate AlwaysExact(ops: seq<Section>) {
    forall i | 0 <= i <= |ops| :: Exact(Run(map[], ops[..i]))
  }

  ghost predicate AlwaysExactSafe(ops: seq<Section>) {
    forall i | 0 <= i < |ops| :: ExactSafe(Run(map[], ops[..i]), ops[i])
  }

  lemma AlwaysSplits(ops: seq<Section>)
    requires ops != []
    ensures var front, last := ops[..|ops| - 1], ops[|ops| - 1];
            var w := Run(map[], front);
            && (AlwaysSound(ops) <==> AlwaysSound(front) && Sound(Step(w, last)))
            && (AlwaysSafe(ops) <==> AlwaysSafe(front) && Safe(w, last))
            && (AlwaysExact(ops) <==> AlwaysExact(front) && Exact(Step(w, last)))
            && (AlwaysExactSafe(ops) <==> AlwaysExactSafe(front) && ExactSafe(w, last))
            && (AlwaysSound(front) ==> Sound(w)) && (AlwaysExact(front) ==> Exact(w))
  {
    hide Sound, Safe, Exact, ExactSafe, Step;
    var n := |ops| - 1;
    assert forall i | 0 <= i <= n :: ops[..n][..i] == ops[..i];
    assert forall i | 0 <= i < n :: ops[..n][i] == ops[i];
    assert ops[..|ops|] == ops && ops[..n][..n] == ops[..n];
  }

  /** Over every interleaving of locked sections the graph is sound throughout exactly when each section is safe where
      it runs. */
  lemma {:induction false} RunSoundIff(ops: seq<Section>)
    ensures AlwaysSound(ops) <==> AlwaysSafe(ops)
    decreases |ops|
  {
    if ops != [] {
      RunSoundIff(ops[..|ops| - 1]);
      AlwaysSplits(ops);
      hide AlwaysSound, AlwaysSafe, Sound, Safe, Step, Run;
      var w := Run(map[], ops[..|ops| - 1]);
      if Sound(w) { StepKeepsSoundIff(w, ops[|ops| - 1]); }
    }
  }

  /** And `attackers` is throughout the exact inverse of `attacking` exactly when each section keeps it so. */
  lemma {:induction false} RunExactIff(ops: seq<Section>)
    ensures AlwaysExact(ops) <==> AlwaysExactSafe(ops)
    decreases |ops|
  {
    if ops != [] {
      RunExactIff(ops[..|ops| - 1]);
      AlwaysSplits(ops);
      hide AlwaysExact, AlwaysExactSafe, Exact, ExactSafe, Step, Run;
      var w := Run(map[], ops[..|ops| - 1]);
      if Exact(w) { StepKeepsExactIff(w, ops[|ops| - 1]); }
    }
  }

  // ----- Whole commands, one after the other -----

  /** The start of the attack command, up to `initiate`; the hit points of a new target are set by a write-back. */
  function Prepare(w: World, player: Id, target: Id, hp: int, maxHp: int): World {
    var v := if target in w then w else SetHp(InitEntity(w, target, maxHp), target, hp);
    if player in v then v else InitEntity(v, player, DEFAULT_HP)
  }

  /** `left` is what a hit leaves of the target's hit points. */
  datatype Command =
    | Attack(player: Id, target: Id, hp: int, maxHp: int, left: Option<int>)
    | Stop(e: Id)
    | Remove(e: Id)

  function Execute(w: World, c: Command): World {
    match c
    case Attack(player, target, hp, maxHp, left) =>
      var v := Initiate(Prepare(w, player, target, hp, maxHp), player, target);
      if left.None? then v
      else
        var u := SetHp(v, target, left.value);
        if left.value <= 0 then RemoveEntity(EndCombat(u, player), target) else u
    case Stop(e) => EndCombat(w, e)
    case Remove(e) => RemoveEntity(w, e)
  }

  function ExecuteAll(w: World, cs: seq<Command>): World
    decreases |cs|
  {
    if cs == [] then w else Execute(ExecuteAll(w, cs[..|cs| - 1]), cs[|cs| - 1])
  }

  /** No player attacks while targeting another. */
  ghost predicate NoRetarget(w: World, c: Command) {
    c.Attack? && c.player in w && w[c.player].attacking.Some? ==> w[c.player].attacking == Some(c.target)
  }

  lemma PrepareKeeps(w: World, player: Id, target: Id, hp: int, maxHp: int)
    requires Sound(w)
    ensures var v := Prepare(w, player, target, hp, maxHp);
            && Sound(v) && (Exact(w) ==> Exact(v))
            && player in v && v[player].attacking == if player in w then w[player].attacking else None
  {
    var v := if target in w then w else SetHp(InitEntity(w, target, maxHp), target, hp);
    if target !in w {
      InitKeepsSoundIff(w, target, maxHp);
      if Exact(w) { InitAbsentKeepsExact(w, target, maxHp); }
      SetHpKeeps(InitEntity(w, target, maxHp), target, hp);
    }
    if player !in v {
      InitKeepsSoundIff(v, player, DEFAULT_HP);
      if Exact(v) { InitAbsentKeepsExact(v, player, DEFAULT_HP); }
    }
  }

  lemma HitKeeps(w: World, player: Id, target: Id, left: int)
    requires Sound(w)
    ensures var u := SetHp(w, target, left);
            var v := RemoveEntity(EndCombat(u, player), target);
            Sound(u) && Sound(v) && (Exact(w) ==> Exact(u) && Exact(v))
  {
    var u := SetHp(w, target, left);
    SetHpKeeps(w, target, left);
    EndCombatClears(u, player);
    if Exact(w) { EndCombatKeepsExact(u, player); }
    RemoveEntityClears(EndCombat(u, player), target);
  }

  lemma ExecuteKeeps(w: World, c: Command)
    requires Sound(w)
    ensures Sound(Execute(w, c))
    ensures Exact(w) && NoRetarget(w, c) ==> Exact(Execute(w, c))
  {
    match c
    case Attack(player, target, hp, maxHp, left) =>
      PrepareKeeps(w, player, target, hp, maxHp);
      var v := Prepare(w, player, target, hp, maxHp);
      InitiateKeepsSound(v, player, target);
      if Exact(v) { InitiateKeepsExactIff(v, player, target); }
      if left.Some? { HitKeeps(Initiate(v, player, target), player, target, left.value); }
    case Stop(e) =>
      EndCombatClears(w, e);
      if Exact(w) { EndCombatKeepsExact(w, e); }
    case Remove(e) => RemoveEntityClears(w, e);
  }

  /** Removing one entity leaves another that is out of combat as it is. */
  lemma DeadLeaveFree(w: World, free: Id, dead: Id)
    requires Sound(w) && Untouched(w, free) && free in w && free != dead
    ensures var v := RemoveEntity(w, dead);
            dead !in v && free in v && v[free] == w[free] && Untouched(v, free)
  {
    var v := RemoveEntity(w, dead);
    if dead in w {
      EndCombatLinks(w, dead);
      assert !Targets(w, free, dead) && !Targets(w, dead, free);
      EndCombatFrame(w, dead, free);
    }
    forall x ensures !Targets(v, x, free) {
      assert Targets(v, x, free) ==> Targets(EndCombat(w, dead), x, free);
      assert !Targets(w, x, free);
    }
  }

  /** A hit that leaves no hit points: the target is gone, and its attacker free. */
  lemma KillRemoves(w: World, player: Id, target: Id, left: int)
    requires Sound(w) && player != target && player in w
    ensures var v := RemoveEntity(EndCombat(SetHp(w, target, left), player), target);
            target !in v && player in v && Untouched(v, player)
  {
    var u := SetHp(w, target, left);
    SetHpKeeps(w, target, left);
    EndCombatClears(u, player);
    hide RemoveEntity, Untouched, Sound, AfterEnd;
    DeadLeaveFree(EndCombat(u, player), player, target);
  }

  /** The two are linked, the target has what the hit left, or what it had or was brought in with, a new attacker has
      100, and nobody else has changed. */
  ghost predicate Engaged(w: World, player: Id, target: Id, hp: int, maxHp: int, left: Option<int>, v: World) {
    && Targets(v, player, target) && Lists(v, target, player)
    && v[target].hp == (if left.Some? then left.value else if target in w then w[target].hp else hp)
    && v[target].maxHp == (if target in w then w[target].maxHp else maxHp)
    && PointsIn(v, player) == (if player in w then PointsIn(w, player) else Some((100, 100)))
    && v.Keys == w.Keys + {player, target}
    && forall x | x in w && x != player && x != target :: v[x] == w[x]
  }

  lemma AttackLinks(w: World, player: Id, target: Id, hp: int, maxHp: int, left: Option<int>)
    requires player != target
    ensures var started := Initiate(Prepare(w, player, target, hp, maxHp), player, target);
            var v := if left.Some? then SetHp(started, target, left.value) else started;
            Engaged(w, player, target, hp, maxHp, left, v)
  {
  }

  /** What a command of attack comes to: the target killed and the attacker free, or both engaged. */
  lemma AttackOutcome(w: World, player: Id, target: Id, hp: int, maxHp: int, left: Option<int>)
    requires Sound(w) && player != target
    ensures var v := Execute(w, Attack(player, target, hp, maxHp, left));
            if left.Some? && left.value <= 0 then target !in v && player in v && Untouched(v, player)
            else Engaged(w, player, target, hp, maxHp, left, v)
  {
    PrepareKeeps(w, player, target, hp, maxHp);
    InitiateKeepsSound(Prepare(w, player, target, hp, maxHp), player, target);
    AttackLinks(w, player, target, hp, maxHp, left);
    hide Sound, Untouched, Prepare, Initiate, SetHp, RemoveEntity, EndCombat;
    if left.Some? && left.value <= 0 {
      AttackLinks(w, player, target, hp, maxHp, None);
      KillRemoves(Initiate(Prepare(w, player, target, hp, maxHp), player, target), player, target, left.value);
    }
  }

  /** While commands do not overlap the graph is always sound; without retargeting it is also exact. */
  lemma {:induction false} RunKeepsSound(cs: seq<Command>)
    ensures Sound(ExecuteAll(map[], cs))
    ensures (forall i | 0 <= i < |cs| :: NoRetarget(ExecuteAll(map[], cs[..i]), cs[i])) ==> Exact(ExecuteAll(map[], cs))
    decreases |cs|
  {
    if cs != [] {
      var n := |cs| - 1;
      assert forall i | 0 <= i < n :: cs[..n][i] == cs[i] && cs[..n][..i] == cs[..i];
      RunKeepsSound(cs[..n]);
      ExecuteKeeps(ExecuteAll(map[], cs[..n]), cs[n]);
    }
  }
}
