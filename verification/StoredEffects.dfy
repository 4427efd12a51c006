/** The rows of `active_effects` as the statements see them, by their columns (mudd/src/combat/effects.rs:339-517). */
module StoredEffects {
  import opened Wrappers
  import opened Effects
  import opened EffectCodec
  import opened EffectRows

  /** Loading reads the rows one by one and skips those of an unknown type. */
  function LoadStored(rows: seq<StoredRow>): map<string, seq<Effect>>
    decreases |rows|
  {
    if rows == [] then map[]
    else
      var entities, row := LoadStored(rows[..|rows| - 1]), rows[|rows| - 1];
      match Decode(row)
      case None => entities
      case Some(e) => entities[row.entity := Add(EffectsOf(entities, row.entity), e)]
  }

  function DecodeOne(row: StoredRow): seq<Row> {
    match Decode(row) case None => [] case Some(e) => [Row(row.entity, e)]
  }

  function DecodeRows(rows: seq<StoredRow>): seq<Row> {
    if rows == [] then [] else DecodeOne(rows[0]) + DecodeRows(rows[1..])
  }

  lemma {:induction false} DecodeConcat(a: seq<StoredRow>, b: seq<StoredRow>)
    ensures DecodeRows(a + b) == DecodeRows(a) + DecodeRows(b)
  {
    hide Decode, DecodeOne;
    if a == [] {
      assert a + b == b;
    } else {
      assert (a + b)[1..] == a[1..] + b;
      DecodeConcat(a[1..], b);
    }
  }

  lemma DecodeAppend(rows: seq<StoredRow>, row: StoredRow)
    ensures DecodeRows(rows + [row]) == DecodeRows(rows) + DecodeOne(row)
  {
    DecodeConcat(rows, [row]);
    assert [row][1..] == [];
  }

  lemma LoadAppend(rows: seq<Row>, row: Row)
    ensures Load(rows + [row]) == LoadRow(Load(rows), row)
  {
    assert (rows + [row])[..|rows|] == rows;
  }

  lemma LoadNothing()
    ensures Load(DecodeRows([])) == map[]
  {
  }

  lemma {:induction false} LoadStoredIsLoad(rows: seq<StoredRow>)
    ensures LoadStored(rows) == Load(DecodeRows(rows))
    decreases |rows|
  {
    hide Decode, Add, DecodeRows, Load;
    if rows == [] {
      LoadNothing();
    } else {
      var front, row := rows[..|rows| - 1], rows[|rows| - 1];
      LoadStoredIsLoad(front);
      assert rows == front + [row];
      DecodeAppend(front, row);
      match Decode(row)
      case None => assert DecodeRows(front) + [] == DecodeRows(front);
      case Some(e) => LoadAppend(DecodeRows(front), Row(row.entity, e));
    }
  }

  lemma {:induction false} DecodeMembers(rows: seq<StoredRow>, r: Row)
    ensures r in DecodeRows(rows) <==> exists s :: s in rows && Decode(s) == Some(r.effect) && s.entity == r.entity
  {
    hide Decode;
    if rows != [] {
      DecodeMembers(rows[1..], r);
      assert rows == [rows[0]] + rows[1..];
    }
  }

  // ----- The statements -----

  /** `DELETE FROM active_effects WHERE entity_id = ?` and, given a text, `AND effect_type = ?`. */
  function DeleteStored(rows: seq<StoredRow>, entity: string, kind: Option<string>): seq<StoredRow> {
    if rows == [] then []
    else
      (if rows[0].entity == entity && (kind.None? || rows[0].kind == kind.value) then [] else [rows[0]])
      + DeleteStored(rows[1..], entity, kind)
  }

  function EncodeAll(entity: string, es: seq<Effect>): seq<StoredRow> {
    seq(|es|, i requires 0 <= i < |es| => Encode(entity, es[i]))
  }

  lemma DecodeEncoded(entity: string, e: Effect)
    ensures DecodeOne(Encode(entity, e)) == [Row(entity, e)]
  {
    hide Decode, KindText, DamageText;
    RowRoundTrip(entity, e);
  }

  lemma {:induction false} DecodeEncodeAll(entity: string, es: seq<Effect>)
    ensures DecodeRows(EncodeAll(entity, es)) == RowsFor(entity, es)
  {
    hide Decode, Encode, DecodeOne;
    if es != [] {
      DecodeEncodeAll(entity, es[1..]);
      DecodeEncoded(entity, es[0]);
      assert EncodeAll(entity, es)[1..] == EncodeAll(entity, es[1..]);
      assert RowsFor(entity, es) == [Row(entity, es[0])] + RowsFor(entity, es[1..]);
    }
  }

  /** The type is unknown, or written as the server writes it. */
  predicate Canonical(row: StoredRow) { Decode(row).Some? ==> row.kind == KindText(Decode(row).value.kind) }

  ghost predicate AllCanonical(rows: seq<StoredRow>) { forall row | row in rows :: Canonical(row) }

  lemma EncodedCanonical(entity: string, e: Effect)
    ensures Canonical(Encode(entity, e))
  {
    hide Decode, KindText, DamageText;
    RowRoundTrip(entity, e);
  }

  function TextOf(kind: Option<EffectType>): Option<string> {
    match kind case None => None case Some(k) => Some(KindText(k))
  }

  lemma DeleteOneDecodes(row: StoredRow, entity: string, kind: Option<EffectType>)
    requires Canonical(row)
    ensures DecodeRows(DeleteStored([row], entity, TextOf(kind))) == DeleteRows(DecodeOne(row), entity, kind)
    ensures forall r | r in DeleteStored([row], entity, TextOf(kind)) :: r == row
  {
    hide Decode, KindText;
    assert [row][1..] == [] && DecodeRows([row]) == DecodeOne(row);
    if kind.Some? {
      KindRoundTrip(kind.value);
      if Decode(row).Some? {
        assert DecodeOne(row)[1..] == [];
        if row.kind == KindText(kind.value) { KindTextInjective(Decode(row).value.kind, kind.value); }
      }
    } else if Decode(row).Some? {
      assert DecodeOne(row)[1..] == [];
    }
  }

  lemma DeleteNothing(entity: string, kind: Option<EffectType>)
    ensures DeleteRows([], entity, kind) == []
  {
  }

  lemma DeleteFirst(row: Row, rest: seq<Row>, entity: string, kind: Option<EffectType>)
    ensures var deleted := row.entity == entity && (kind.None? || row.effect.kind == kind.value);
            DeleteRows([row] + rest, entity, kind)
            == if deleted then DeleteRows(rest, entity, kind) else [row] + DeleteRows(rest, entity, kind)
  {
    assert ([row] + rest)[1..] == rest;
  }

  lemma {:induction false} DeleteConcat(a: seq<Row>, b: seq<Row>, entity: string, kind: Option<EffectType>)
    ensures DeleteRows(a + b, entity, kind) == DeleteRows(a, entity, kind) + DeleteRows(b, entity, kind)
  {
    hide DeleteRows;
    var tail := DeleteRows(b, entity, kind);
    if a == [] {
      DeleteNothing(entity, kind);
      assert a + b == b && [] + tail == tail;
    } else {
      var first, rest := a[0], DeleteRows(a[1..], entity, kind);
      DeleteConcat(a[1..], b, entity, kind);
      DeleteFirst(first, a[1..], entity, kind);
      DeleteFirst(first, a[1..] + b, entity, kind);
      assert a == [first] + a[1..] && a + b == [first] + (a[1..] + b);
      assert [first] + (rest + tail) == [first] + rest + tail;
    }
  }

  /** On rows so written, deleting by the text of a type deletes exactly the rows read as that type. */
  lemma {:induction false} DeleteDecodes(rows: seq<StoredRow>, entity: string, kind: Option<EffectType>)
    requires AllCanonical(rows)
    ensures DecodeRows(DeleteStored(rows, entity, TextOf(kind))) == DeleteRows(DecodeRows(rows), entity, kind)
    ensures AllCanonical(DeleteStored(rows, entity, TextOf(kind)))
  {
    if rows != [] {
      hide Decode, DecodeOne, TextOf;
      var row, rest := rows[0], DeleteStored(rows[1..], entity, TextOf(kind));
      DeleteDecodes(rows[1..], entity, kind);
      DeleteOneDecodes(row, entity, kind);
      DeleteConcat(DecodeOne(row), DecodeRows(rows[1..]), entity, kind);
      DecodeConcat(DeleteStored([row], entity, TextOf(kind)), rest);
      assert DeleteStored(rows, entity, TextOf(kind)) == DeleteStored([row], entity, TextOf(kind)) + rest by {
        assert [row][1..] == [];
      }
    }
  }

  // ----- The registry over its columns -----

  datatype StoredRegistry = StoredRegistry(entities: map<string, seq<Effect>>, rows: seq<StoredRow>)

  function Read(r: StoredRegistry): Registry { Registry(r.entities, DecodeRows(r.rows)) }

  function StepStored(r: StoredRegistry, op: Op): StoredRegistry {
    match op
    case OpAdd(entity, e) =>
      StoredRegistry(r.entities[entity := Add(EffectsOf(r.entities, entity), e)], r.rows + [Encode(entity, e)])
    case OpRemove(entity, kind) =>
      var entities := if entity !in r.entities then r.entities
                      else r.entities[entity := Remove(r.entities[entity], kind)];
      StoredRegistry(entities, DeleteStored(r.rows, entity, Some(KindText(kind))))
    case OpTick(entity) =>
      var entities := if entity in r.entities then r.entities[entity := TickAll(r.entities[entity]).0] else r.entities;
      StoredRegistry(entities, DeleteStored(r.rows, entity, None)
                               + EncodeAll(entity, Active(EffectsOf(entities, entity))))
    case OpClear(entity) => StoredRegistry(r.entities - {entity}, DeleteStored(r.rows, entity, None))
    case OpCascade(entity) => r.(rows := DeleteStored(r.rows, entity, None))
  }

  lemma StepStoredReads(r: StoredRegistry, op: Op)
    requires AllCanonical(r.rows)
    ensures Read(StepStored(r, op)) == Step(Read(r), op) && AllCanonical(StepStored(r, op).rows)
  {
    hide Decode, Encode, TickAll, Active;
    match op
    case OpAdd(entity, e) =>
      DecodeAppend(r.rows, Encode(entity, e));
      DecodeEncoded(entity, e);
      EncodedCanonical(entity, e);
    case OpRemove(entity, kind) => DeleteDecodes(r.rows, entity, Some(kind));
    case OpTick(entity) =>
      var now := Active(EffectsOf(StepStored(r, op).entities, entity));
      DeleteDecodes(r.rows, entity, None);
      DecodeConcat(DeleteStored(r.rows, entity, None), EncodeAll(entity, now));
      DecodeEncodeAll(entity, now);
      forall e ensures Canonical(Encode(entity, e)) { EncodedCanonical(entity, e); }
    case OpClear(entity) => DeleteDecodes(r.rows, entity, None);
    case OpCascade(entity) => DeleteDecodes(r.rows, entity, None);
  }

  function RunStored(ops: seq<Op>): StoredRegistry
    decreases |ops|
  {
    if ops == [] then StoredRegistry(map[], []) else StepStored(RunStored(ops[..|ops| - 1]), ops[|ops| - 1])
  }

  lemma {:induction false} RunStoredReads(ops: seq<Op>)
    ensures Read(RunStored(ops)) == Run(ops) && AllCanonical(RunStored(ops).rows)
    decreases |ops|
  {
    if ops != [] {
      RunStoredReads(ops[..|ops| - 1]);
      StepStoredReads(RunStored(ops[..|ops| - 1]), ops[|ops| - 1]);
    }
  }

  /** After any run, loading the stored rows in any order, among any rows of unknown types, rebuilds what memory says
      about every whole entity and every type, and holds each type once. */
  lemma StoredRowsRebuildMemory(ops: seq<Op>, unknown: seq<StoredRow>, order: seq<StoredRow>, entity: string,
                                kind: EffectType)
    requires Whole(ops, entity) && forall row | row in unknown :: Decode(row).None?
    requires multiset(order) == multiset(RunStored(ops).rows + unknown)
    ensures var loaded := EffectsOf(LoadStored(order), entity);
            View(loaded, kind) == View(EffectsOf(RunStored(ops).entities, entity), kind) && Distinct(loaded)
  {
    hide Decode, View, Distinct, Summary, RunStored, Run, StepStored;
    var rows, read := RunStored(ops).rows, DecodeRows(order);
    RunStoredReads(ops);
    RunAgreesOn(ops, entity, kind);
    LoadStoredIsLoad(order);
    LoadSums(read, entity, kind);
    forall row ensures row in order <==> row in rows || row in unknown {
      assert row in multiset(order) <==> row in multiset(rows + unknown);
    }
    forall r ensures r in read <==> r in Run(ops).rows {
      DecodeMembers(order, r);
      DecodeMembers(rows, r);
    }
    assert AgreeOn(Run(ops), entity, kind);
    SummaryUnique(read, Run(ops).rows, entity, kind, View(EffectsOf(Load(read), entity), kind),
                  View(EffectsOf(Run(ops).entities, entity), kind));
  }
}
