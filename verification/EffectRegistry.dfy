/** Effects as they run: a vector changed in place, and a registry over a map and the stored rows. */
module EffectRegistryClass {
  import opened Wrappers
  import opened Effects
  import opened EffectCodec
  import opened EffectRows
  import opened StoredEffects

  /** `StatusEffect::tick`. */
  method TickOne(e: Effect) returns (effect: Effect, result: seq<Hit>)
    ensures effect == Ticked(e) && result == TickResult(e)
  {
    effect := e;
    if effect.remaining > 0 {
      effect := effect.(remaining := effect.remaining - 1);
    }
    if effect.magnitude > 0 {
      if effect.damage.Some? {
        return effect, [(effect.magnitude, effect.damage.value)];
      }
    }
    if effect.kind == Regenerating && effect.magnitude > 0 {
      return effect, [(-effect.magnitude, Physical)];
    }
    result := [];
  }

  lemma StepResults(was: seq<Effect>, i: nat, results: seq<Hit>, result: seq<Hit>)
    requires i < |was| && result == TickResult(was[i])
    ensures results + Results(was[i..]) == results + result + Results(was[i + 1..])
  {
    assert was[i..][0] == was[i] && was[i..][1..] == was[i + 1..];
  }

  lemma AddNext(es: seq<Effect>, i: nat, e: Effect)
    requires i < |es|
    ensures es[i].kind != e.kind ==> es[..i] + Effects.Add(es[i..], e) == es[..i + 1] + Effects.Add(es[i + 1..], e)
    ensures es[i].kind == e.kind ==>
              es[..i] + Effects.Add(es[i..], e)
              == es[i := es[i].(remaining := Max(es[i].remaining, e.remaining),
                                magnitude := Max(es[i].magnitude, e.magnitude))]
  {
    assert es[i..][0] == es[i] && es[i..][1..] == es[i + 1..];
  }

  lemma RemoveNext(es: seq<Effect>, i: nat, kind: EffectType, kept: seq<Effect>)
    requires i < |es|
    ensures kept + Effects.Remove(es[i..], kind)
         == kept + (if es[i].kind != kind then [es[i]] else []) + Effects.Remove(es[i + 1..], kind)
  {
    assert es[i..][0] == es[i] && es[i..][1..] == es[i + 1..];
  }

  lemma ActiveNext(es: seq<Effect>, i: nat, kept: seq<Effect>)
    requires i < |es|
    ensures kept + Active(es[i..]) == kept + (if es[i].remaining != 0 then [es[i]] else []) + Active(es[i + 1..])
  {
    assert es[i..][0] == es[i] && es[i..][1..] == es[i + 1..];
  }

  class EntityEffects {
    var effects: seq<Effect>

    constructor (effects: seq<Effect>)
      ensures this.effects == effects
    {
      this.effects := effects;
    }

    method Add(effect: Effect)
      modifies this
      ensures effects == Effects.Add(old(effects), effect)
    {
      ghost var was := effects;
      assert was[0..] == was && [] + Effects.Add(was, effect) == Effects.Add(was, effect);
      for i := 0 to |effects|
        invariant effects == was && Effects.Add(was, effect) == was[..i] + Effects.Add(was[i..], effect)
      {
        AddNext(was, i, effect);
        hide Effects.Add;
        if effects[i].kind == effect.kind {
          effects := effects[i := effects[i].(remaining := Max(effects[i].remaining, effect.remaining))];
          effects := effects[i := effects[i].(magnitude := Max(effects[i].magnitude, effect.magnitude))];
          return;
        }
      }
      assert was[|was|..] == [];
      effects := effects + [effect];
    }

    /** `retain`: one pass that keeps the other types. */
    method Remove(kind: EffectType)
      modifies this
      ensures effects == Effects.Remove(old(effects), kind)
    {
      ghost var was := effects;
      var kept := [];
      assert was[0..] == was && kept + Effects.Remove(was, kind) == Effects.Remove(was, kind);
      for i := 0 to |effects|
        invariant effects == was && Effects.Remove(was, kind) == kept + Effects.Remove(was[i..], kind)
      {
        RemoveNext(was, i, kind, kept);
        hide Effects.Remove;
        if effects[i].kind != kind {
          kept := kept + [effects[i]];
        }
      }
      assert was[|was|..] == [] && kept + [] == kept;
      effects := kept;
    }

    /** Tick each effect in place, then `retain` what has not expired. */
    method TickAll() returns (results: seq<Hit>)
      modifies this
      ensures (effects, results) == Effects.TickAll(old(effects))
    {
      results := [];
      ghost var was := effects;
      assert was[0..] == was;
      for i := 0 to |effects|
        invariant |effects| == |was|
        invariant forall k | 0 <= k < i :: effects[k] == Ticked(was[k])
        invariant forall k | i <= k < |was| :: effects[k] == was[k]
        invariant results + Results(was[i..]) == Results(was)
      {
        var effect, result := TickOne(effects[i]);
        effects := effects[i := effect];
        StepResults(was, i, results, result);
        results := results + result;
      }
      assert effects == TickedAll(was);
      assert results + [] == results;
      RetainActive();
    }

    method RetainActive()
      modifies this
      ensures effects == Active(old(effects))
    {
      ghost var was := effects;
      var kept := [];
      assert was[0..] == was && kept + Active(was) == Active(was);
      for i := 0 to |effects|
        invariant effects == was && Active(was) == kept + Active(was[i..])
      {
        ActiveNext(was, i, kept);
        hide Active;
        if effects[i].remaining != 0 {
          kept := kept + [effects[i]];
        }
      }
      assert was[|was|..] == [] && kept + [] == kept;
      effects := kept;
    }
  }

  class EffectRegistry {
    var entities: map<string, seq<Effect>>
    /** The rows of `active_effects`, column by column. */
    var rows: seq<StoredRow>

    ghost function Stored(): StoredRegistry
      reads this
    {
      StoredRegistry(entities, rows)
    }

    /** A new registry, and `load_from_db` on the rows it finds. */
    constructor (rows: seq<StoredRow>)
      ensures Stored() == StoredRegistry(LoadStored(rows), rows)
    {
      entities, this.rows := map[], rows;
      new;
      assert rows[..0] == [];
      for i := 0 to |rows|
        invariant this.rows == rows && entities == LoadStored(rows[..i])
      {
        assert rows[..i + 1][..i] == rows[..i];
        var effect := Decode(rows[i]);
        if effect.Some? {
          var effects := new EntityEffects(EffectsOf(entities, rows[i].entity));
          effects.Add(effect.value);
          entities := entities[rows[i].entity := effects.effects];
        }
      }
      assert rows[..|rows|] == rows;
    }

    method AddEffect(entity: string, effect: Effect)
      modifies this
      ensures Stored() == StepStored(old(Stored()), OpAdd(entity, effect))
    {
      rows := rows + [Encode(entity, effect)];
      var effects := new EntityEffects(EffectsOf(entities, entity));
      effects.Add(effect);
      entities := entities[entity := effects.effects];
    }

    method RemoveEffect(entity: string, kind: EffectType)
      modifies this
      ensures Stored() == StepStored(old(Stored()), OpRemove(entity, kind))
    {
      rows := DeleteStored(rows, entity, Some(KindText(kind)));
      if entity in entities {
        var effects := new EntityEffects(entities[entity]);
        effects.Remove(kind);
        entities := entities[entity := effects.effects];
      }
    }

    method Tick(entity: string) returns (results: seq<Hit>)
      modifies this
      ensures Stored() == StepStored(old(Stored()), OpTick(entity))
      ensures results == if entity in old(entities) then Effects.TickAll(old(entities)[entity]).1 else []
    {
      results := [];
      if entity in entities {
        var effects := new EntityEffects(entities[entity]);
        results := effects.TickAll();
        entities := entities[entity := effects.effects];
      }
      SyncEffectsToDb(entity);
    }

    /** Delete the entity's rows, then insert its active effects one by one. */
    method SyncEffectsToDb(entity: string)
      modifies this`rows
      ensures rows == DeleteStored(old(rows), entity, None) + EncodeAll(entity, Active(EffectsOf(entities, entity)))
    {
      hide Active, Encode, DeleteStored;
      rows := DeleteStored(rows, entity, None);
      var active := Active(EffectsOf(entities, entity));
      ghost var kept := rows;
      for i := 0 to |active|
        invariant rows == kept + EncodeAll(entity, active)[..i]
      {
        rows := rows + [Encode(entity, active[i])];
      }
      assert EncodeAll(entity, active)[..|active|] == EncodeAll(entity, active);
    }

    method Clear(entity: string)
      modifies this
      ensures Stored() == StepStored(old(Stored()), OpClear(entity))
    {
      rows := DeleteStored(rows, entity, None);
      entities := entities - {entity};
    }
  }
}
