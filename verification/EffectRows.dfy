/** Stored effects (mudd/src/combat/effects.rs:323-517): rows are inserted one by one and never merged, while
    the list in memory merges by type; loading folds the rows back. */
module EffectRows {
  import opened Wrappers
  import opened Effects

  /** A stored row, read back; module `StoredEffects` is about the columns. */
  datatype Row = Row(entity: string, effect: Effect)

  // ----- The registry -----

  datatype Registry = Registry(entities: map<string, seq<Effect>>, rows: seq<Row>)

  function EffectsOf(entities: map<string, seq<Effect>>, entity: string): seq<Effect> {
    if entity in entities then entities[entity] else []
  }

  /** `DELETE FROM active_effects WHERE entity_id = ?` and, given a type, `AND effect_type = ?`. */
  function DeleteRows(rows: seq<Row>, entity: string, kind: Option<EffectType>): seq<Row> {
    if rows == [] then []
    else
      (if rows[0].entity == entity && (kind.None? || rows[0].effect.kind == kind.value) then [] else [rows[0]])
      + DeleteRows(rows[1..], entity, kind)
  }

  function RowsFor(entity: string, es: seq<Effect>): seq<Row> {
    seq(|es|, i requires 0 <= i < |es| => Row(entity, es[i]))
  }

  function AddEffect(r: Registry, entity: string, e: Effect): Registry {
    Registry(r.entities[entity := Add(EffectsOf(r.entities, entity), e)], r.rows + [Row(entity, e)])
  }

  function RemoveEffect(r: Registry, entity: string, kind: EffectType): Registry {
    Registry(if entity in r.entities then r.entities[entity := Remove(r.entities[entity], kind)] else r.entities,
             DeleteRows(r.rows, entity, Some(kind)))
  }

  /** The rows of the entity are replaced by what is active after the tick. */
  function Tick(r: Registry, entity: string): Registry {
    var entities := if entity in r.entities then r.entities[entity := TickAll(r.entities[entity]).0] else r.entities;
    Registry(entities, DeleteRows(r.rows, entity, None) + RowsFor(entity, Active(EffectsOf(entities, entity))))
  }

  function Clear(r: Registry, entity: string): Registry {
    Registry(r.entities - {entity}, DeleteRows(r.rows, entity, None))
  }

  /** Deleting or replacing the entity's `combat_state` row cascades to its effect rows, and to nothing in memory. */
  function Cascade(r: Registry, entity: string): Registry { r.(rows := DeleteRows(r.rows, entity, None)) }

  function LoadRow(entities: map<string, seq<Effect>>, row: Row): map<string, seq<Effect>> {
    entities[row.entity := Add(EffectsOf(entities, row.entity), row.effect)]
  }

  function Load(rows: seq<Row>): map<string, seq<Effect>>
    decreases |rows|
  {
    if rows == [] then map[] else LoadRow(Load(rows[..|rows| - 1]), rows[|rows| - 1])
  }

  // ----- What a list says about one type -----

  ghost predicate Distinct(es: seq<Effect>) {
    forall i, j | 0 <= i < j < |es| :: es[i].kind != es[j].kind
  }

  /** Remaining ticks and magnitude of an effect. */
  datatype Strength = Strength(remaining: int, magnitude: int)

  /** The strength of the first effect of the type. */
  function View(es: seq<Effect>, kind: EffectType): Option<Strength> {
    if es == [] then None
    else if es[0].kind == kind then Some(Strength(es[0].remaining, es[0].magnitude))
    else View(es[1..], kind)
  }

  predicate About(row: Row, entity: string, kind: EffectType) { row.entity == entity && row.effect.kind == kind }

  /** The greatest remaining ticks and the greatest magnitude among the rows of a type, order aside. */
  ghost predicate Summary(rows: seq<Row>, entity: string, kind: EffectType, v: Option<Strength>) {
    match v
    case None => forall row | row in rows :: !About(row, entity, kind)
    case Some(p) =>
      && (forall row | row in rows && About(row, entity, kind) ::
            row.effect.remaining <= p.remaining && row.effect.magnitude <= p.magnitude)
      && (exists row :: row in rows && About(row, entity, kind) && row.effect.remaining == p.remaining)
      && (exists row :: row in rows && About(row, entity, kind) && row.effect.magnitude == p.magnitude)
  }

  lemma SummaryUnique(rows: seq<Row>, rows': seq<Row>, entity: string, kind: EffectType, v: Option<Strength>,
                      w: Option<Strength>)
    requires forall row :: row in rows <==> row in rows'
    requires Summary(rows, entity, kind, v) && Summary(rows', entity, kind, w)
    ensures v == w
  {
  }

  lemma {:induction false} AddView(es: seq<Effect>, e: Effect, kind: EffectType)
    ensures View(Add(es, e), kind)
            == if kind != e.kind then View(es, kind)
               else if View(es, kind).None? then Some(Strength(e.remaining, e.magnitude))
               else Some(Strength(Max(View(es, kind).value.remaining, e.remaining),
                                  Max(View(es, kind).value.magnitude, e.magnitude)))
  {
    if es != [] {
      AddView(es[1..], e, kind);
      if es[0].kind != e.kind { assert Add(es, e)[1..] == Add(es[1..], e); }
      else { assert Add(es, e)[1..] == es[1..]; }
    }
  }

  lemma {:induction false} AddDistinct(es: seq<Effect>, e: Effect)
    requires Distinct(es)
    ensures Distinct(Add(es, e))
    ensures forall x | x in Add(es, e) :: x.kind == e.kind || exists y :: y in es && y.kind == x.kind
  {
    if es != [] && es[0].kind != e.kind {
      AddDistinct(es[1..], e);
      var added := Add(es[1..], e);
      forall x | x in added ensures x.kind != es[0].kind {
        if x.kind != e.kind {
          var y :| y in es[1..] && y.kind == x.kind;
          assert y in es;
        }
      }
    }
  }

  lemma {:induction false} RemoveView(es: seq<Effect>, gone: EffectType, kind: EffectType)
    ensures View(Remove(es, gone), kind) == if kind == gone then None else View(es, kind)
  {
    if es != [] {
      RemoveView(es[1..], gone, kind);
      if es[0].kind != gone { assert Remove(es, gone)[1..] == Remove(es[1..], gone); }
      else { assert Remove(es, gone) == Remove(es[1..], gone); }
    }
  }

  lemma {:induction false} DeleteMembers(rows: seq<Row>, entity: string, kind: Option<EffectType>)
    ensures forall row :: row in DeleteRows(rows, entity, kind)
                          <==> row in rows && !(row.entity == entity && (kind.None? || row.effect.kind == kind.value))
  {
    if rows != [] {
      DeleteMembers(rows[1..], entity, kind);
      assert rows == [rows[0]] + rows[1..];
    }
  }

  lemma {:induction false} ViewIff(es: seq<Effect>, kind: EffectType)
    requires Distinct(es)
    ensures View(es, kind).None? <==> forall e | e in es :: e.kind != kind
    ensures forall e | e in es && e.kind == kind :: View(es, kind) == Some(Strength(e.remaining, e.magnitude))
  {
    if es != [] {
      ViewIff(es[1..], kind);
      assert es == [es[0]] + es[1..];
    }
  }

  lemma {:induction false} ActiveDistinct(es: seq<Effect>)
    requires Distinct(es)
    ensures Distinct(Active(es))
  {
    if es != [] {
      ActiveDistinct(es[1..]);
      ActiveMembers(es[1..]);
      assert forall e | e in es[1..] :: e.kind != es[0].kind;
    }
  }

  lemma {:induction false} RemoveDistinct(es: seq<Effect>, kind: EffectType)
    requires Distinct(es)
    ensures Distinct(Remove(es, kind))
    ensures forall e | e in Remove(es, kind) :: e in es
  {
    if es != [] {
      RemoveDistinct(es[1..], kind);
      assert es == [es[0]] + es[1..];
      assert forall e | e in es[1..] :: e.kind != es[0].kind;
    }
  }

  // ----- Memory and rows agree -----

  ghost predicate AgreeOn(r: Registry, entity: string, kind: EffectType) {
    Summary(r.rows, entity, kind, View(EffectsOf(r.entities, entity), kind))
  }

  /** Each type at most once in memory, with the strength that the rows sum up to. */
  ghost predicate Agree(r: Registry) {
    && (forall entity, kind :: AgreeOn(r, entity, kind))
    && (forall entity :: Distinct(EffectsOf(r.entities, entity)))
  }

  lemma SummaryOfMore(rows: seq<Row>, row: Row, entity: string, kind: EffectType, v: Option<Strength>)
    requires Summary(rows, entity, kind, v)
    ensures !About(row, entity, kind) ==> Summary(rows + [row], entity, kind, v)
    ensures About(row, entity, kind) ==>
              Summary(rows + [row], entity, kind,
                      if v.None? then Some(Strength(row.effect.remaining, row.effect.magnitude))
                      else Some(Strength(Max(v.value.remaining, row.effect.remaining),
                                         Max(v.value.magnitude, row.effect.magnitude))))
  {
    assert (rows + [row])[|rows|] == row;
    assert forall x | x in rows :: x in rows + [row];
  }

  lemma AddAgreesOn(r: Registry, entity: string, e: Effect, x: string, kind: EffectType)
    requires AgreeOn(r, x, kind)
    ensures AgreeOn(AddEffect(r, entity, e), x, kind)
  {
    SummaryOfMore(r.rows, Row(entity, e), x, kind, View(EffectsOf(r.entities, x), kind));
    AddView(EffectsOf(r.entities, entity), e, kind);
  }

  lemma AddKeepsAgree(r: Registry, entity: string, e: Effect)
    requires Agree(r)
    ensures Agree(AddEffect(r, entity, e))
  {
    var s := AddEffect(r, entity, e);
    forall x, kind ensures AgreeOn(s, x, kind) { AddAgreesOn(r, entity, e, x, kind); }
    AddDistinct(EffectsOf(r.entities, entity), e);
    forall x ensures Distinct(EffectsOf(s.entities, x)) { assert Distinct(EffectsOf(r.entities, x)); }
  }

  lemma SameAbout(rows: seq<Row>, rows': seq<Row>, entity: string, kind: EffectType, v: Option<Strength>)
    requires forall row | About(row, entity, kind) :: row in rows <==> row in rows'
    requires Summary(rows, entity, kind, v)
    ensures Summary(rows', entity, kind, v)
  {
  }

  lemma RemoveAgreesOn(r: Registry, entity: string, gone: EffectType, x: string, kind: EffectType)
    requires AgreeOn(r, x, kind)
    ensures AgreeOn(RemoveEffect(r, entity, gone), x, kind)
  {
    DeleteMembers(r.rows, entity, Some(gone));
    RemoveView(EffectsOf(r.entities, entity), gone, kind);
    if x != entity || kind != gone {
      SameAbout(r.rows, RemoveEffect(r, entity, gone).rows, x, kind, View(EffectsOf(r.entities, x), kind));
    }
  }

  lemma RemoveKeepsAgree(r: Registry, entity: string, gone: EffectType)
    requires Agree(r)
    ensures Agree(RemoveEffect(r, entity, gone))
  {
    var s := RemoveEffect(r, entity, gone);
    forall x, kind ensures AgreeOn(s, x, kind) { RemoveAgreesOn(r, entity, gone, x, kind); }
    RemoveDistinct(EffectsOf(r.entities, entity), gone);
    forall x ensures Distinct(EffectsOf(s.entities, x)) { assert Distinct(EffectsOf(r.entities, x)); }
  }

  lemma RowsForAgree(entity: string, es: seq<Effect>, kind: EffectType, others: seq<Row>)
    requires Distinct(es) && forall row | row in others :: row.entity != entity
    ensures Summary(others + RowsFor(entity, es), entity, kind, View(es, kind))
  {
    ViewIff(es, kind);
    var rows := RowsFor(entity, es);
    if e :| e in es && e.kind == kind {
      var i :| 0 <= i < |es| && es[i] == e;
      assert rows[i] == Row(entity, e) && (others + rows)[|others| + i] == rows[i];
    }
    assert forall row | row in rows :: row.entity == entity && row.effect in es;
  }

  lemma {:induction false} AllActive(es: seq<Effect>)
    requires forall e | e in es :: e.remaining > 0
    ensures Active(es) == es
  {
    if es != [] { AllActive(es[1..]); }
  }

  lemma TickDistinct(es: seq<Effect>)
    requires Distinct(es)
    ensures var now := TickAll(es).0; Distinct(now) && Active(now) == now
  {
    assert Distinct(TickedAll(es));
    ActiveDistinct(TickedAll(es));
    ActiveMembers(TickedAll(es));
    AllActive(Active(TickedAll(es)));
  }

  /** The rows after a tick, and what memory holds then. */
  lemma TickRows(r: Registry, entity: string)
    requires Distinct(EffectsOf(r.entities, entity))
    ensures var s := Tick(r, entity);
            var now := EffectsOf(s.entities, entity);
            && Distinct(now) && s.rows == DeleteRows(r.rows, entity, None) + RowsFor(entity, now)
            && forall x | x != entity :: EffectsOf(s.entities, x) == EffectsOf(r.entities, x)
  {
    TickDistinct(EffectsOf(r.entities, entity));
    var now := TickAll(EffectsOf(r.entities, entity)).0;
    assert Active([]) == [];
    hide TickAll, DeleteRows, Active, Distinct;
    assert EffectsOf(Tick(r, entity).entities, entity) == if entity in r.entities then now else [];
  }

  lemma RowsForOthers(rows: seq<Row>, others: seq<Row>, entity: string, es: seq<Effect>, x: string, kind: EffectType)
    requires x != entity && forall row :: row in others <==> row in rows && row.entity != entity
    ensures forall row | About(row, x, kind) :: row in rows <==> row in others + RowsFor(entity, es)
  {
    assert forall row | row in RowsFor(entity, es) :: row.entity == entity;
  }

  /** A tick repairs its own entity, whatever was wrong with the rows. */
  lemma TickAgreesOn(r: Registry, entity: string, x: string, kind: EffectType)
    requires Distinct(EffectsOf(r.entities, entity)) && (x != entity ==> AgreeOn(r, x, kind))
    ensures AgreeOn(Tick(r, entity), x, kind)
  {
    hide Active, TickAll, View;
    var s := Tick(r, entity);
    var others, now := DeleteRows(r.rows, entity, None), EffectsOf(s.entities, entity);
    TickRows(r, entity);
    DeleteMembers(r.rows, entity, None);
    hide DeleteRows, Summary;
    if x == entity {
      RowsForAgree(entity, now, kind, others);
    } else {
      RowsForOthers(r.rows, others, entity, now, x, kind);
      SameAbout(r.rows, s.rows, x, kind, View(EffectsOf(r.entities, x), kind));
    }
  }

  lemma TickKeepsAgree(r: Registry, entity: string)
    requires Agree(r)
    ensures Agree(Tick(r, entity))
  {
    hide Tick, AgreeOn;
    assert Distinct(EffectsOf(r.entities, entity));
    TickRows(r, entity);
    forall x, kind ensures AgreeOn(Tick(r, entity), x, kind) { TickAgreesOn(r, entity, x, kind); }
    forall x ensures Distinct(EffectsOf(Tick(r, entity).entities, x)) {
      if x != entity { assert Distinct(EffectsOf(r.entities, x)); }
    }
  }

  lemma DeleteAgreesOn(r: Registry, entity: string, x: string, kind: EffectType)
    requires x != entity && AgreeOn(r, x, kind)
    ensures AgreeOn(Clear(r, entity), x, kind) && AgreeOn(Cascade(r, entity), x, kind)
  {
    DeleteMembers(r.rows, entity, None);
    SameAbout(r.rows, Cascade(r, entity).rows, x, kind, View(EffectsOf(r.entities, x), kind));
  }

  /** Where memory holds nothing, deleting the rows makes both agree. */
  lemma EmptyAgreesOn(r: Registry, entity: string, kind: EffectType)
    ensures AgreeOn(Clear(r, entity), entity, kind)
    ensures EffectsOf(r.entities, entity) == [] ==> AgreeOn(Cascade(r, entity), entity, kind)
  {
    DeleteMembers(r.rows, entity, None);
  }

  lemma ClearKeepsAgree(r: Registry, entity: string)
    requires Agree(r)
    ensures Agree(Clear(r, entity))
  {
    forall x, kind ensures AgreeOn(Clear(r, entity), x, kind) {
      EmptyAgreesOn(r, entity, kind);
      if x != entity { DeleteAgreesOn(r, entity, x, kind); }
    }
    forall x ensures Distinct(EffectsOf(Clear(r, entity).entities, x)) { assert Distinct(EffectsOf(r.entities, x)); }
  }

  /** The cascade breaks the agreement if and only if the entity has effects in memory. */
  lemma CascadeKeepsAgreeIff(r: Registry, entity: string)
    requires Agree(r)
    ensures Agree(Cascade(r, entity)) <==> EffectsOf(r.entities, entity) == []
  {
    var s := Cascade(r, entity);
    DeleteMembers(r.rows, entity, None);
    if EffectsOf(r.entities, entity) == [] {
      forall x, kind ensures AgreeOn(s, x, kind) {
        EmptyAgreesOn(r, entity, kind);
        if x != entity { DeleteAgreesOn(r, entity, x, kind); }
      }
    } else {
      assert !AgreeOn(s, entity, EffectsOf(r.entities, entity)[0].kind);
    }
  }

  // ----- Halves of operations -----

  /** `add_effect` writes its row, and then merges in memory. */
  function AddRow(r: Registry, entity: string, e: Effect): Registry { r.(rows := r.rows + [Row(entity, e)]) }

  function AddMemory(r: Registry, entity: string, e: Effect): Registry {
    r.(entities := r.entities[entity := Add(EffectsOf(r.entities, entity), e)])
  }

  /** `tick` decrements in memory, and then rewrites the rows from what memory holds by then. */
  function TickMemory(r: Registry, entity: string): Registry {
    r.(entities := if entity in r.entities then r.entities[entity := TickAll(r.entities[entity]).0] else r.entities)
  }

  function Sync(r: Registry, entity: string): Registry {
    r.(rows := DeleteRows(r.rows, entity, None) + RowsFor(entity, Active(EffectsOf(r.entities, entity))))
  }

  /** Memory holds the type already, for as long and as strong. */
  predicate Absorbed(r: Registry, entity: string, e: Effect) {
    var v := View(EffectsOf(r.entities, entity), e.kind);
    v.Some? && v.value.remaining >= e.remaining && v.value.magnitude >= e.magnitude
  }

  lemma HalvesMake(r: Registry, entity: string, e: Effect)
    ensures AddEffect(r, entity, e) == AddMemory(AddRow(r, entity, e), entity, e)
    ensures Tick(r, entity) == Sync(TickMemory(r, entity), entity)
  {
  }

  lemma AbsorbedAddsNothing(r: Registry, entity: string, e: Effect)
    requires Agree(r) && Absorbed(r, entity, e)
    ensures Agree(AddMemory(r, entity, e)) && Agree(AddRow(r, entity, e))
  {
    var es := EffectsOf(r.entities, entity);
    var s, t := AddMemory(r, entity, e), AddRow(r, entity, e);
    forall x, kind ensures AgreeOn(s, x, kind) && AgreeOn(t, x, kind) {
      assert AgreeOn(r, x, kind);
      AddView(es, e, kind);
      SummaryOfMore(r.rows, Row(entity, e), x, kind, View(EffectsOf(r.entities, x), kind));
    }
    AddDistinct(es, e);
    forall x ensures Distinct(EffectsOf(s.entities, x)) { assert Distinct(EffectsOf(r.entities, x)); }
  }

  /** Either half of an addition keeps the agreement exactly when memory had absorbed the effect already. */
  lemma AddHalfKeepsAgreeIff(r: Registry, entity: string, e: Effect)
    requires Agree(r)
    ensures Agree(AddMemory(r, entity, e)) <==> Absorbed(r, entity, e)
    ensures Agree(AddRow(r, entity, e)) <==> Absorbed(r, entity, e)
  {
    var es, kind := EffectsOf(r.entities, entity), e.kind;
    var s, t := AddMemory(r, entity, e), AddRow(r, entity, e);
    AddView(es, e, kind);
    assert AgreeOn(r, entity, kind);
    SummaryOfMore(r.rows, Row(entity, e), entity, kind, View(es, kind));
    if Agree(s) {
      assert AgreeOn(s, entity, kind);
      SummaryUnique(r.rows, r.rows, entity, kind, View(es, kind), View(Add(es, e), kind));
    }
    if Agree(t) {
      assert AgreeOn(t, entity, kind);
      SummaryUnique(t.rows, t.rows, entity, kind, View(es, kind), View(Add(es, e), kind));
    }
    if Absorbed(r, entity, e) { AbsorbedAddsNothing(r, entity, e); }
  }

  /** All but the entity's own rows agree with memory. */
  ghost predicate AgreeBut(r: Registry, entity: string) {
    && (forall x, kind | x != entity :: AgreeOn(r, x, kind))
    && (forall x :: Distinct(EffectsOf(r.entities, x)))
  }

  /** Whatever happened to the entity's rows, the second half of a tick repairs them exactly when nothing that has run
      out is left in memory. */
  lemma SyncRepairsIff(r: Registry, entity: string)
    requires AgreeBut(r, entity)
    ensures Agree(Sync(r, entity)) <==> forall e | e in EffectsOf(r.entities, entity) :: e.remaining > 0
  {
    var es, s := EffectsOf(r.entities, entity), Sync(r, entity);
    var others := DeleteRows(r.rows, entity, None);
    DeleteMembers(r.rows, entity, None);
    ActiveMembers(es);
    if forall e | e in es :: e.remaining > 0 {
      AllActive(es);
      forall x, kind ensures AgreeOn(s, x, kind) {
        if x == entity {
          RowsForAgree(entity, es, kind, others);
        } else {
          assert AgreeOn(r, x, kind);
          RowsForOthers(r.rows, others, entity, es, x, kind);
          SameAbout(r.rows, s.rows, x, kind, View(EffectsOf(r.entities, x), kind));
        }
      }
    } else {
      var e :| e in es && e.remaining == 0;
      ViewIff(es, e.kind);
      assert forall row | row in s.rows && About(row, entity, e.kind) :: row.effect in Active(es);
      assert forall x | x in es && x.kind == e.kind :: x.remaining == 0;
      assert !AgreeOn(s, entity, e.kind);
    }
  }

  lemma {:induction false} DeleteLast(rows: seq<Row>, entity: string, e: Effect)
    ensures DeleteRows(rows + [Row(entity, e)], entity, None) == DeleteRows(rows, entity, None)
  {
    if rows != [] {
      assert (rows + [Row(entity, e)])[1..] == rows[1..] + [Row(entity, e)];
      DeleteLast(rows[1..], entity, e);
    }
  }

  /** A whole tick between the halves of an addition loses the new row: memory and rows agree afterwards exactly when
      what the tick left had absorbed the effect. */
  lemma AddTickRaceIff(r: Registry, entity: string, e: Effect)
    requires Agree(r)
    ensures Agree(AddMemory(Tick(AddRow(r, entity, e), entity), entity, e)) <==> Absorbed(Tick(r, entity), entity, e)
  {
    DeleteLast(r.rows, entity, e);
    assert Tick(AddRow(r, entity, e), entity) == Tick(r, entity);
    TickKeepsAgree(r, entity);
    AddHalfKeepsAgreeIff(Tick(r, entity), entity, e);
  }

  // ----- Every run -----

  /** `OpCascade` is the deletion or the replacement of the entity's combat row; every persisted change of hit points
      replaces it. */
  datatype Op =
    | OpAdd(entity: string, effect: Effect)
    | OpRemove(entity: string, kind: EffectType)
    | OpTick(entity: string)
    | OpClear(entity: string)
    | OpCascade(entity: string)

  function Step(r: Registry, op: Op): Registry {
    match op
    case OpAdd(entity, e) => AddEffect(r, entity, e)
    case OpRemove(entity, kind) => RemoveEffect(r, entity, kind)
    case OpTick(entity) => Tick(r, entity)
    case OpClear(entity) => Clear(r, entity)
    case OpCascade(entity) => Cascade(r, entity)
  }

  function Run(ops: seq<Op>): Registry
    decreases |ops|
  {
    if ops == [] then Registry(map[], []) else Step(Run(ops[..|ops| - 1]), ops[|ops| - 1])
  }

  /** Since the entity last lost rows that memory still stood for, it has been ticked or cleared. */
  ghost predicate Whole(ops: seq<Op>, entity: string)
    decreases |ops|
  {
    if ops == [] then true
    else
      var front, last := ops[..|ops| - 1], ops[|ops| - 1];
      if last == OpTick(entity) || last == OpClear(entity) then true
      else if last == OpCascade(entity) then EffectsOf(Run(front).entities, entity) == []
      else Whole(front, entity)
  }

  lemma StepDistinct(r: Registry, op: Op, x: string)
    requires Distinct(EffectsOf(r.entities, x))
    ensures Distinct(EffectsOf(Step(r, op).entities, x))
  {
    if op.entity == x {
      match op
      case OpAdd(_, e) => AddDistinct(EffectsOf(r.entities, x), e);
      case OpRemove(_, kind) => RemoveDistinct(EffectsOf(r.entities, x), kind);
      case OpTick(_) => TickRows(r, x);
      case _ =>
    }
  }

  lemma {:induction false} RunDistinct(ops: seq<Op>, x: string)
    ensures Distinct(EffectsOf(Run(ops).entities, x))
    decreases |ops|
  {
    if ops != [] {
      RunDistinct(ops[..|ops| - 1], x);
      StepDistinct(Run(ops[..|ops| - 1]), ops[|ops| - 1], x);
    }
  }

  lemma StepAgreesOn(r: Registry, op: Op, x: string, kind: EffectType)
    requires Distinct(EffectsOf(r.entities, op.entity))
    requires AgreeOn(r, x, kind) || op == OpTick(x) || op == OpClear(x) || op == OpCascade(x)
    requires op == OpCascade(x) ==> EffectsOf(r.entities, x) == []
    ensures AgreeOn(Step(r, op), x, kind)
  {
    hide AgreeOn;
    match op
    case OpAdd(entity, e) => AddAgreesOn(r, entity, e, x, kind);
    case OpRemove(entity, gone) => RemoveAgreesOn(r, entity, gone, x, kind);
    case OpTick(entity) => TickAgreesOn(r, entity, x, kind);
    case OpClear(entity) => if x == entity { EmptyAgreesOn(r, x, kind); } else { DeleteAgreesOn(r, entity, x, kind); }
    case OpCascade(entity) => if x == entity { EmptyAgreesOn(r, x, kind); } else { DeleteAgreesOn(r, entity, x, kind); }
  }

  /** After every run, memory and rows agree about every entity that is whole, and each type is in memory once. */
  lemma {:induction false} RunAgreesOn(ops: seq<Op>, x: string, kind: EffectType)
    ensures Whole(ops, x) ==> AgreeOn(Run(ops), x, kind)
    ensures Distinct(EffectsOf(Run(ops).entities, x))
    decreases |ops|
  {
    RunDistinct(ops, x);
    if ops != [] && Whole(ops, x) {
      var front, last := ops[..|ops| - 1], ops[|ops| - 1];
      RunAgreesOn(front, x, kind);
      RunDistinct(front, last.entity);
      StepAgreesOn(Run(front), last, x, kind);
    }
  }

  lemma {:induction false} NoCascadeIsWhole(ops: seq<Op>, x: string)
    requires forall op | op in ops :: op != OpCascade(x)
    ensures Whole(ops, x)
    decreases |ops|
  {
    if ops != [] {
      var front, last := ops[..|ops| - 1], ops[|ops| - 1];
      assert last in ops;
      forall op | op in front ensures op in ops {
        var i :| 0 <= i < |front| && front[i] == op;
        assert ops[i] == op;
      }
      NoCascadeIsWhole(front, x);
    }
  }

  /** After every run without cascades, or in which every entity is whole, memory and rows agree. */
  lemma RunAgrees(ops: seq<Op>)
    ensures (forall op | op in ops :: !op.OpCascade?) || (forall x :: Whole(ops, x)) ==> Agree(Run(ops))
  {
    if forall op | op in ops :: !op.OpCascade? {
      forall x ensures Whole(ops, x) { NoCascadeIsWhole(ops, x); }
    }
    hide AgreeOn, Distinct, Whole;
    forall x, kind ensures Whole(ops, x) ==> AgreeOn(Run(ops), x, kind) { RunAgreesOn(ops, x, kind); }
    forall x ensures Distinct(EffectsOf(Run(ops).entities, x)) { RunDistinct(ops, x); }
  }

  lemma StepAgreesIff(r: Registry, op: Op)
    requires Agree(r)
    ensures Agree(Step(r, op)) <==> (op.OpCascade? ==> EffectsOf(r.entities, op.entity) == [])
  {
    hide Agree;
    match op
    case OpAdd(entity, e) => AddKeepsAgree(r, entity, e);
    case OpRemove(entity, kind) => RemoveKeepsAgree(r, entity, kind);
    case OpTick(entity) => TickKeepsAgree(r, entity);
    case OpClear(entity) => ClearKeepsAgree(r, entity);
    case OpCascade(entity) => CascadeKeepsAgreeIff(r, entity);
  }

  ghost predicate AlwaysAgree(ops: seq<Op>) {
    forall i | 0 <= i <= |ops| :: Agree(Run(ops[..i]))
  }

  ghost predicate Harmless(r: Registry, op: Op) { op.OpCascade? ==> EffectsOf(r.entities, op.entity) == [] }

  ghost predicate AlwaysHarmless(ops: seq<Op>) {
    forall i | 0 <= i < |ops| :: Harmless(Run(ops[..i]), ops[i])
  }

  lemma AlwaysSplits(ops: seq<Op>)
    requires ops != []
    ensures var front, last := ops[..|ops| - 1], ops[|ops| - 1];
            && (AlwaysAgree(ops) <==> AlwaysAgree(front) && Agree(Step(Run(front), last)))
            && (AlwaysHarmless(ops) <==> AlwaysHarmless(front) && Harmless(Run(front), last))
            && (AlwaysAgree(front) ==> Agree(Run(front)))
  {
    hide Agree, Harmless, Step;
    var n := |ops| - 1;
    assert forall i | 0 <= i <= n :: ops[..n][..i] == ops[..i];
    assert forall i | 0 <= i < n :: ops[..n][i] == ops[i];
    assert ops[..|ops|] == ops && ops[..n][..n] == ops[..n];
  }

  /** Throughout a run memory and rows agree exactly when no cascade hits an entity with effects in memory. */
  lemma {:induction false} RunAgreesIff(ops: seq<Op>)
    ensures AlwaysAgree(ops) <==> AlwaysHarmless(ops)
    decreases |ops|
  {
    hide Agree, Run, Step;
    if ops == [] {
      RunAgrees([]);
    } else {
      hide AlwaysAgree, AlwaysHarmless;
      var r := Run(ops[..|ops| - 1]);
      RunAgreesIff(ops[..|ops| - 1]);
      AlwaysSplits(ops);
      if Agree(r) { StepAgreesIff(r, ops[|ops| - 1]); }
    }
  }

  lemma {:induction false} LoadSums(rows: seq<Row>, entity: string, kind: EffectType)
    ensures Summary(rows, entity, kind, View(EffectsOf(Load(rows), entity), kind))
    ensures Distinct(EffectsOf(Load(rows), entity))
    decreases |rows|
  {
    if rows != [] {
      var before, row := rows[..|rows| - 1], rows[|rows| - 1];
      LoadSums(before, entity, kind);
      assert rows == before + [row];
      SummaryOfMore(before, row, entity, kind, View(EffectsOf(Load(before), entity), kind));
      AddView(EffectsOf(Load(before), entity), row.effect, kind);
      if row.entity == entity { AddDistinct(EffectsOf(Load(before), entity), row.effect); }
    }
  }

  /** After any run, loading the stored rows in any order rebuilds what memory says about every whole entity and every
      type, and holds each type once. */
  lemma RowsRebuildMemory(ops: seq<Op>, order: seq<Row>, entity: string, kind: EffectType)
    requires Whole(ops, entity) && multiset(order) == multiset(Run(ops).rows)
    ensures var loaded := EffectsOf(Load(order), entity);
            View(loaded, kind) == View(EffectsOf(Run(ops).entities, entity), kind) && Distinct(loaded)
  {
    var r := Run(ops);
    RunAgreesOn(ops, entity, kind);
    LoadSums(order, entity, kind);
    forall row ensures row in order <==> row in r.rows {
      assert row in multiset(order) <==> row in multiset(r.rows);
    }
    assert AgreeOn(r, entity, kind);
    SummaryUnique(order, r.rows, entity, kind, View(EffectsOf(Load(order), entity), kind),
                  View(EffectsOf(r.entities, entity), kind));
  }
}
