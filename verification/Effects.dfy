/** Status effects (mudd/src/combat/effects.rs): what a list of effects does over time, and the stored rows
    that must rebuild the list in memory. */
module Effects {
  import opened Wrappers
  import opened Integers

  datatype EffectType = Poisoned | Stunned | Blinded | Burning | Frozen | Paralyzed | Slowed | Hasted
                      | Strengthened | Weakened | Protected | Exposed | Invisible | Regenerating | Silenced

  datatype DamageType = Physical | Slashing | Piercing | Bludgeoning | Fire | Cold | Lightning | Acid | Poison
                      | Psychic | Radiant | Necrotic | Force | Thunder

  predicate PreventsAction(t: EffectType) { t == Stunned || t == Paralyzed }

  datatype Effect = Effect(kind: EffectType, remaining: U32, magnitude: I32, source: Option<string>,
                           damage: Option<DamageType>)

  function Max(a: int, b: int): int { if a < b then b else a }

  // ----- One entity's effects -----

  /** The first effect of the same type absorbs the new one, and keeps its own source and damage type. */
  function Add(es: seq<Effect>, e: Effect): seq<Effect> {
    if es == [] then [e]
    else if es[0].kind == e.kind then
      [es[0].(remaining := Max(es[0].remaining, e.remaining), magnitude := Max(es[0].magnitude, e.magnitude))] + es[1..]
    else [es[0]] + Add(es[1..], e)
  }

  function Remove(es: seq<Effect>, kind: EffectType): seq<Effect> {
    if es == [] then []
    else (if es[0].kind == kind then [] else [es[0]]) + Remove(es[1..], kind)
  }

  function Active(es: seq<Effect>): seq<Effect> {
    if es == [] then []
    else (if es[0].remaining == 0 then [] else [es[0]]) + Active(es[1..])
  }

  type Hit = (int, DamageType)

  function Ticked(e: Effect): Effect { e.(remaining := if e.remaining > 0 then e.remaining - 1 else 0) }

  /** The damage of one tick; healing is negative. */
  function TickResult(e: Effect): seq<Hit> {
    if e.magnitude > 0 && e.damage.Some? then [(e.magnitude, e.damage.value)]
    else if e.kind == Regenerating && e.magnitude > 0 then [(-e.magnitude, Physical)]
    else []
  }

  function TickedAll(es: seq<Effect>): seq<Effect> {
    seq(|es|, i requires 0 <= i < |es| => Ticked(es[i]))
  }

  function Results(es: seq<Effect>): seq<Hit> {
    if es == [] then [] else TickResult(es[0]) + Results(es[1..])
  }

  function TickAll(es: seq<Effect>): (seq<Effect>, seq<Hit>) { (Active(TickedAll(es)), Results(es)) }

  predicate CanAct(es: seq<Effect>) {
    forall i | 0 <= i < |es| :: PreventsAction(es[i].kind) ==> es[i].remaining == 0
  }

  /** An effect whose type is not there yet goes last; otherwise the first of the type lasts as long and is as strong as
      the longer and the stronger of the two, and keeps its source and its damage type. */
  lemma {:induction false} AddMerges(es: seq<Effect>, e: Effect, i: nat)
    ensures (forall j | 0 <= j < |es| :: es[j].kind != e.kind) ==> Add(es, e) == es + [e]
    ensures i < |es| && es[i].kind == e.kind && (forall j | 0 <= j < i :: es[j].kind != e.kind) ==>
              var was := es[i];
              Add(es, e) == es[i := Effect(e.kind, if was.remaining > e.remaining then was.remaining else e.remaining,
                                           if was.magnitude > e.magnitude then was.magnitude else e.magnitude,
                                           was.source, was.damage)]
  {
    if es != [] && es[0].kind != e.kind {
      assert es == [es[0]] + es[1..];
      AddMerges(es[1..], e, if i > 0 then i - 1 else 0);
    }
  }

  // ----- Accounting over whole runs of ticks -----

  function TickTimes(es: seq<Effect>, n: nat): (seq<Effect>, seq<Hit>)
    decreases n
  {
    if n == 0 then (es, [])
    else
      var (once, hits) := TickAll(es);
      var (end, more) := TickTimes(once, n - 1);
      (end, hits + more)
  }

  function Total(hits: seq<Hit>, d: DamageType): int {
    if hits == [] then 0 else (if hits[0].1 == d then hits[0].0 else 0) + Total(hits[1..], d)
  }

  function PerTick(e: Effect, d: DamageType): int { Total(TickResult(e), d) }

  /** In how many of the first n ticks the effect takes part: at least once, then until it runs out. */
  function Lifetime(e: Effect, n: nat): nat {
    var span := Max(1, e.remaining);
    if n < span then n else span
  }

  function Expected(es: seq<Effect>, n: nat, d: DamageType): int {
    if es == [] then 0 else PerTick(es[0], d) * Lifetime(es[0], n) + Expected(es[1..], n, d)
  }

  lemma {:induction false} TotalConcat(xs: seq<Hit>, ys: seq<Hit>, d: DamageType)
    ensures Total(xs + ys, d) == Total(xs, d) + Total(ys, d)
    decreases |xs|
  {
    if xs == [] {
      assert xs + ys == ys;
    } else {
      TotalConcat(xs[1..], ys, d);
      assert (xs + ys)[1..] == xs[1..] + ys;
    }
  }

  lemma OneTickOfOne(e: Effect, n: nat, d: DamageType)
    ensures PerTick(e, d) * Lifetime(e, n + 1)
            == PerTick(e, d) + if Ticked(e).remaining == 0 then 0 else PerTick(Ticked(e), d) * Lifetime(Ticked(e), n)
  {
    assert TickResult(Ticked(e)) == TickResult(e);
    var p := PerTick(e, d);
    if Ticked(e).remaining == 0 {
      assert Lifetime(e, n + 1) == 1;
    } else {
      assert Lifetime(e, n + 1) == 1 + Lifetime(Ticked(e), n);
      assert p * (1 + Lifetime(Ticked(e), n)) == p + p * Lifetime(Ticked(e), n);
    }
  }

  lemma {:induction false} OneTick(es: seq<Effect>, n: nat, d: DamageType)
    ensures Expected(es, n + 1, d) == Total(TickAll(es).1, d) + Expected(TickAll(es).0, n, d)
  {
    if es != [] {
      OneTick(es[1..], n, d);
      OneTickOfOne(es[0], n, d);
      TotalConcat(TickResult(es[0]), Results(es[1..]), d);
      assert TickedAll(es)[1..] == TickedAll(es[1..]) && TickedAll(es)[0] == Ticked(es[0]);
      var rest := Active(TickedAll(es[1..]));
      if Ticked(es[0]).remaining == 0 {
        assert TickAll(es).0 == [] + rest == rest;
      } else {
        assert TickAll(es).0 == [Ticked(es[0])] + rest;
        assert ([Ticked(es[0])] + rest)[1..] == rest;
      }
    }
  }

  lemma {:induction false} NothingExpected(es: seq<Effect>, d: DamageType)
    ensures Expected(es, 0, d) == 0
  {
    if es != [] { NothingExpected(es[1..], d); }
  }

  /** The whole damage of each type over n ticks: every effect contributes its magnitude once per tick of its
      life, and an effect added with no duration still ticks once. */
  lemma {:induction false} DamageOverTime(es: seq<Effect>, n: nat, d: DamageType)
    ensures Total(TickTimes(es, n).1, d) == Expected(es, n, d)
    decreases n
  {
    hide TickAll, Expected;
    if n == 0 {
      NothingExpected(es, d);
    } else {
      var (once, hits) := TickAll(es);
      DamageOverTime(once, n - 1, d);
      OneTick(es, n - 1, d);
      TotalConcat(hits, TickTimes(once, n - 1).1, d);
    }
  }

  lemma TotalOne(amount: int, hurt: DamageType, d: DamageType)
    ensures Total([(amount, hurt)], d) == if hurt == d then amount else 0
  {
    assert [(amount, hurt)][1..] == [];
  }

  lemma PerTickOf(e: Effect, d: DamageType)
    ensures PerTick(e, d)
         == if e.magnitude <= 0 then 0
            else match e.damage
                 case Some(hurt) => if d == hurt then e.magnitude else 0
                 case None => if e.kind == Regenerating && d == Physical then -e.magnitude else 0
  {
    match e.damage
    case Some(hurt) => TotalOne(e.magnitude, hurt, d);
    case None => TotalOne(0 - e.magnitude, Physical, d);
  }

  /** What a lone effect does once it has run its course: one that does damage, its magnitude for each tick of its life
      and at least once; one that regenerates and does none, as much healing, which counts as negative physical damage;
      any other, nothing. */
  lemma LoneEffect(e: Effect, n: nat, d: DamageType)
    requires n >= Max(1, e.remaining)
    ensures var ticks := if e.remaining > 1 then e.remaining else 1;
            Total(TickTimes([e], n).1, d)
            == if e.magnitude <= 0 then 0
               else match e.damage
                    case Some(hurt) => if d == hurt then e.magnitude * ticks else 0
                    case None => if e.kind == Regenerating && d == Physical then -e.magnitude * ticks else 0
  {
    hide PerTick;
    DamageOverTime([e], n, d);
    assert [e][1..] == [] && Expected([], n, d) == 0;
    assert Lifetime(e, n) == Max(1, e.remaining);
    PerTickOf(e, d);
  }

  lemma {:induction false} ActiveMembers(es: seq<Effect>)
    ensures forall e :: e in Active(es) <==> e in es && e.remaining > 0
  {
    if es != [] {
      ActiveMembers(es[1..]);
      assert es == [es[0]] + es[1..];
    }
  }

  /** What is left after one tick: everything that had more than one tick to go, with one tick less. */
  lemma TickMembers(es: seq<Effect>)
    ensures forall e | e in es && e.remaining > 1 :: Ticked(e) in TickAll(es).0
    ensures forall e | e in TickAll(es).0 :: e.remaining > 0 && exists was :: was in es && e == Ticked(was)
  {
    ActiveMembers(TickedAll(es));
    forall e | e in es && e.remaining > 1 ensures Ticked(e) in TickAll(es).0 {
      var i :| 0 <= i < |es| && es[i] == e;
      assert TickedAll(es)[i] == Ticked(e);
    }
  }

  lemma {:induction false} ActsOnceRunOut(es: seq<Effect>, n: nat)
    ensures CanAct(TickTimes(es, n).0) <==> forall e | e in es :: PreventsAction(e.kind) ==> e.remaining <= n
    decreases n
  {
    if n > 0 {
      var once := TickAll(es).0;
      TickMembers(es);
      ActsOnceRunOut(once, n - 1);
      if forall e | e in once :: PreventsAction(e.kind) ==> e.remaining <= n - 1 {
        forall e | e in es && PreventsAction(e.kind) ensures e.remaining <= n {
          if e.remaining > 1 { assert Ticked(e) in once; }
        }
      }
    }
  }

  /** An entity can act after n ticks exactly when every stun and every paralysis has run out by then. */
  lemma CanActIff(es: seq<Effect>, n: nat)
    ensures CanAct(TickTimes(es, n).0)
            <==> forall e | e in es && (e.kind == Stunned || e.kind == Paralyzed) :: e.remaining <= n
  {
    hide CanAct, TickTimes;
    ActsOnceRunOut(es, n);
  }

  /** The list is empty after n ticks exactly when it was, or when it ticked and nothing lasted longer. */
  lemma {:induction false} GoneIff(es: seq<Effect>, n: nat)
    ensures TickTimes(es, n).0 == [] <==> es == [] || (n > 0 && forall e | e in es :: e.remaining <= n)
    decreases n
  {
    if n == 0 {
    } else {
      var once := TickAll(es).0;
      TickMembers(es);
      GoneIff(once, n - 1);
      if TickTimes(es, n).0 == [] {
        forall e | e in es ensures e.remaining <= n {
          if e.remaining > 1 { assert Ticked(e) in once; }
        }
      } else if n == 1 {
        var e := once[0];
        assert e in once;
      }
    }
  }
}
