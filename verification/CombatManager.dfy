/** The combat manager as it runs: one object per entity, changed in place under one lock. */
module CombatManagerClass {
  import opened Wrappers
  import G = CombatGraph

  class CombatState {
    var inCombat: bool
    var attacking: Option<G.Id>
    var attackers: set<G.Id>
    var hp: int
    var maxHp: int

    ghost function View(): G.Fighter
      reads this
    {
      G.Fighter(inCombat, attacking, attackers, hp, maxHp)
    }

    constructor (maxHp: int)
      ensures View() == G.Fresh(maxHp)
    {
      inCombat, attacking, attackers, hp, this.maxHp := false, None, {}, maxHp, maxHp;
    }

    /** A clone, as `get_state` returns one. */
    constructor Clone(other: CombatState)
      ensures View() == other.View()
    {
      inCombat, attacking, attackers := other.inCombat, other.attacking, other.attackers;
      hp, maxHp := other.hp, other.maxHp;
    }

    method StartAttacking(target: G.Id)
      modifies this
      ensures View() == G.StartAttacking(old(View()), target)
    {
      inCombat := true;
      attacking := Some(target);
    }

    method StopAttacking()
      modifies this
      ensures View() == G.StopAttacking(old(View()))
    {
      attacking := None;
      if attackers == {} {
        inCombat := false;
      }
    }

    method AddAttacker(attacker: G.Id)
      modifies this
      ensures View() == G.AddAttacker(old(View()), attacker)
    {
      inCombat := true;
      attackers := attackers + {attacker};
    }

    method RemoveAttacker(attacker: G.Id)
      modifies this
      ensures View() == G.RemoveAttacker(old(View()), attacker)
    {
      attackers := attackers - {attacker};
      if attackers == {} && attacking == None {
        inCombat := false;
      }
    }

    method LeaveCombat()
      modifies this
      ensures View() == G.LeaveCombat(old(View()))
    {
      inCombat := false;
      attacking := None;
      attackers := {};
    }
  }

  class CombatManager {
    var states: map<G.Id, CombatState>

    /** No state object is shared between two entities. */
    ghost predicate Valid()
      reads this
    {
      forall x, y | x in states && y in states && x != y :: states[x] != states[y]
    }

    ghost function View(): G.World
      reads this, states.Values
    {
      map x | x in states :: states[x].View()
    }

    constructor ()
      ensures Valid() && View() == map[]
    {
      states := map[];
    }

    method Ensure(e: G.Id)
      requires Valid()
      modifies this
      ensures Valid() && View() == G.Ensure(old(View()), e)
      ensures fresh(states.Values - old(states.Values))
      ensures e in states && forall x | x in old(states) :: x in states && states[x] == old(states[x])
    {
      if e !in states {
        var state := new CombatState(G.DEFAULT_HP);
        states := states[e := state];
      }
    }

    method InitEntity(e: G.Id, maxHp: int)
      requires Valid()
      modifies this
      ensures Valid() && View() == G.InitEntity(old(View()), e, maxHp)
    {
      var state := new CombatState(maxHp);
      states := states[e := state];
    }

    method GetState(e: G.Id) returns (copy: Option<CombatState>)
      requires Valid()
      ensures copy.Some? <==> e in states
      ensures copy.Some? ==> fresh(copy.value) && copy.value.View() == View()[e]
    {
      if e !in states {
        return None;
      }
      var state := new CombatState.Clone(states[e]);
      copy := Some(state);
    }

    /** The object goes in as it is, whatever happened to the entity since it was cloned. */
    method UpdateState(e: G.Id, state: CombatState)
      requires Valid() && state !in states.Values
      modifies this
      ensures Valid() && View() == G.Save(old(View()), e, state.View())
      ensures states == old(states)[e := state]
    {
      states := states[e := state];
    }

    /** A clone changed and put back, with nothing in between. */
    method WriteBackHp(e: G.Id, hp: int)
      requires Valid()
      modifies this
      ensures Valid() && View() == G.SetHp(old(View()), e, hp)
    {
      var copy := GetState(e);
      if copy.Some? {
        ghost var before := View();
        copy.value.hp := hp;
        assert View() == before;
        UpdateState(e, copy.value);
      }
    }

    /** What the attack command does before `initiate`, undisturbed. */
    method Prepare(player: G.Id, target: G.Id, hp: int, maxHp: int)
      requires Valid()
      modifies this
      ensures Valid() && View() == G.Prepare(old(View()), player, target, hp, maxHp)
    {
      hide G.InitEntity, G.Save, G.SetHp;
      var found := GetState(target);
      if found == None {
        InitEntity(target, maxHp);
        WriteBackHp(target, hp);
      }
      var own := GetState(player);
      if own == None {
        InitEntity(player, G.DEFAULT_HP);
      }
    }

    /** An update of one entity's object changes one entry of the view. */
    twostate lemma OneChanged(e: G.Id)
      requires old(Valid()) && states == old(states) && e in states
      requires forall x | x in states && x != e :: unchanged(states[x])
      ensures View() == old(View())[e := states[e].View()]
    {
      assert View().Keys == states.Keys && old(View()).Keys == states.Keys;
      forall x | x in states && x != e ensures View()[x] == old(View())[x] {
        assert unchanged(states[x]);
      }
    }

    method Initiate(attacker: G.Id, defender: G.Id)
      requires Valid()
      modifies this, states.Values
      ensures Valid() && View() == G.Initiate(old(View()), attacker, defender)
    {
      Ensure(attacker);
      Ensure(defender);
      label Started:
      states[attacker].StartAttacking(defender);
      OneChanged@Started(attacker);
      label Listed:
      states[defender].AddAttacker(attacker);
      OneChanged@Listed(defender);
    }

    method Release(id: G.Id, e: G.Id)
      requires Valid()
      modifies states.Values
      ensures Valid()
      ensures View() == if id in old(View()) && old(View())[id].attacking == Some(e)
                        then old(View())[id := G.StopAttacking(old(View())[id])] else old(View())
    {
      if id in states && states[id].attacking == Some(e) {
        states[id].StopAttacking();
        OneChanged(id);
      }
    }

    method EndCombat(e: G.Id)
      requires Valid()
      modifies states.Values
      ensures Valid() && View() == G.EndCombat(old(View()), e)
    {
      ghost var w := View();
      var attackerIds := if e in states then states[e].attackers else {};
      var left := attackerIds;
      assert View() == G.Released(w, e, {});
      assert attackerIds - left == {};
      while left != {}
        invariant left <= attackerIds
        invariant View() == G.Released(w, e, attackerIds - left)
        decreases left
      {
        var id :| id in left;
        G.ReleaseOne(w, e, attackerIds - left, id);
        assert attackerIds - left + {id} == attackerIds - (left - {id});
        Release(id, e);
        left := left - {id};
      }
      assert attackerIds - left == attackerIds;
      if e !in states {
        return;
      }
      G.EndCombatInOrder(w, e);
      Detach(e);
    }

    /** The rest of `end_combat`: leave the target's list, then clear the own state. */
    method Detach(e: G.Id)
      requires Valid() && e in states
      modifies states.Values
      ensures Valid()
      ensures var v := old(View());
              var u := if v[e].attacking.Some? && v[e].attacking.value in v
                       then v[v[e].attacking.value := G.RemoveAttacker(v[v[e].attacking.value], e)] else v;
              View() == u[e := G.LeaveCombat(u[e])]
    {
      var target := states[e].attacking;
      if target.Some? && target.value in states {
        states[target.value].RemoveAttacker(e);
        OneChanged(target.value);
      }
      label Cleared:
      states[e].LeaveCombat();
      OneChanged@Cleared(e);
    }

    method RemoveEntity(e: G.Id)
      requires Valid()
      modifies this, states.Values
      ensures Valid() && View() == G.RemoveEntity(old(View()), e)
    {
      EndCombat(e);
      states := states - {e};
    }
  }
}
