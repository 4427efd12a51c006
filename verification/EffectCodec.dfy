/** The columns of `active_effects` and what they are read back as (mudd/src/combat/effects.rs:46-119,
    337-369, 457-512). */
module EffectCodec {
  import opened Wrappers
  import opened Integers
  import opened Effects
  import T = Text

  datatype StoredRow = StoredRow(entity: string, kind: string, remaining: I32, magnitude: I32,
                                 damage: Option<string>, source: Option<string>)

  function KindText(t: EffectType): string {
    match t
    case Poisoned => "poisoned"
    case Stunned => "stunned"
    case Blinded => "blinded"
    case Burning => "burning"
    case Frozen => "frozen"
    case Paralyzed => "paralyzed"
    case Slowed => "slowed"
    case Hasted => "hasted"
    case Strengthened => "strengthened"
    case Weakened => "weakened"
    case Protected => "protected"
    case Exposed => "exposed"
    case Invisible => "invisible"
    case Regenerating => "regenerating"
    case Silenced => "silenced"
  }

  function ParseKindAlias(s: string): Option<EffectType> {
    if s == "poison" then Some(Poisoned)
    else if s == "stun" then Some(Stunned)
    else if s == "blind" then Some(Blinded)
    else if s == "burn" then Some(Burning)
    else if s == "freeze" then Some(Frozen)
    else if s == "paralyze" then Some(Paralyzed)
    else if s == "slow" then Some(Slowed)
    else if s == "haste" then Some(Hasted)
    else if s == "strength" then Some(Strengthened)
    else if s == "weak" then Some(Weakened)
    else if s == "protect" then Some(Protected)
    else if s == "expose" then Some(Exposed)
    else if s == "invis" then Some(Invisible)
    else if s == "regen" then Some(Regenerating)
    else if s == "silence" then Some(Silenced)
    else None
  }

  /** The names that `Display` writes, then the aliases. */
  function ParseLower(s: string): Option<EffectType> {
    if s == "poisoned" then Some(Poisoned)
    else if s == "stunned" then Some(Stunned)
    else if s == "blinded" then Some(Blinded)
    else if s == "burning" then Some(Burning)
    else if s == "frozen" then Some(Frozen)
    else if s == "paralyzed" then Some(Paralyzed)
    else if s == "slowed" then Some(Slowed)
    else if s == "hasted" then Some(Hasted)
    else if s == "strengthened" then Some(Strengthened)
    else if s == "weakened" then Some(Weakened)
    else if s == "protected" then Some(Protected)
    else if s == "exposed" then Some(Exposed)
    else if s == "invisible" then Some(Invisible)
    else if s == "regenerating" then Some(Regenerating)
    else if s == "silenced" then Some(Silenced)
    else ParseKindAlias(s)
  }

  /** `from_str`, in any letter case. */
  function ParseKind(s: string): Option<EffectType> { ParseLower(T.Lower(s)) }

  function DamageText(d: DamageType): string {
    match d
    case Physical => "Physical"
    case Slashing => "Slashing"
    case Piercing => "Piercing"
    case Bludgeoning => "Bludgeoning"
    case Fire => "Fire"
    case Cold => "Cold"
    case Lightning => "Lightning"
    case Acid => "Acid"
    case Poison => "Poison"
    case Psychic => "Psychic"
    case Radiant => "Radiant"
    case Necrotic => "Necrotic"
    case Force => "Force"
    case Thunder => "Thunder"
  }

  function ParseDamage(s: string): Option<DamageType> {
    if s == "Physical" then Some(Physical)
    else if s == "Slashing" then Some(Slashing)
    else if s == "Piercing" then Some(Piercing)
    else if s == "Bludgeoning" then Some(Bludgeoning)
    else if s == "Fire" then Some(Fire)
    else if s == "Cold" then Some(Cold)
    else if s == "Lightning" then Some(Lightning)
    else if s == "Acid" then Some(Acid)
    else if s == "Poison" then Some(Poison)
    else if s == "Psychic" then Some(Psychic)
    else if s == "Radiant" then Some(Radiant)
    else if s == "Necrotic" then Some(Necrotic)
    else if s == "Force" then Some(Force)
    else if s == "Thunder" then Some(Thunder)
    else None
  }

  /** `as i32` and `as u32`. */
  function AsI32(x: U32): I32 { if x < TWO_31 then x else x - TWO_32 }

  function AsU32(x: I32): U32 { if x >= 0 then x else x + TWO_32 }

  function Encode(entity: string, e: Effect): StoredRow {
    StoredRow(entity, KindText(e.kind), AsI32(e.remaining), e.magnitude,
        if e.damage.Some? then Some(DamageText(e.damage.value)) else None, e.source)
  }

  /** A row with an unknown type is skipped; an unknown damage type reads as none. */
  function Decode(row: StoredRow): Option<Effect> {
    match ParseKind(row.kind)
    case None => None
    case Some(kind) =>
      Some(Effect(kind, AsU32(row.remaining), row.magnitude, row.source,
                  if row.damage.Some? then ParseDamage(row.damage.value) else None))
  }

  lemma LowerOfLower(s: string)
    requires forall i | 0 <= i < |s| :: 'a' <= s[i] <= 'z'
    ensures T.Lower(s) == s
  {
  }

  lemma KindTextIsLower(t: EffectType)
    ensures T.Lower(KindText(t)) == KindText(t)
  {
    LowerOfLower(KindText(t));
  }

  lemma ParseKindText(t: EffectType)
    ensures ParseLower(KindText(t)) == Some(t)
  {
  }

  lemma KindRoundTrip(t: EffectType)
    ensures ParseKind(KindText(t)) == Some(t)
  {
    hide KindText, ParseLower, T.Lower;
    KindTextIsLower(t);
    ParseKindText(t);
  }

  /** The short name of each type. */
  function Alias(t: EffectType): string {
    match t
    case Poisoned => "poison"
    case Stunned => "stun"
    case Blinded => "blind"
    case Burning => "burn"
    case Frozen => "freeze"
    case Paralyzed => "paralyze"
    case Slowed => "slow"
    case Hasted => "haste"
    case Strengthened => "strength"
    case Weakened => "weak"
    case Protected => "protect"
    case Exposed => "expose"
    case Invisible => "invis"
    case Regenerating => "regen"
    case Silenced => "silence"
  }

  lemma AliasIsNoName(t: EffectType)
    ensures ParseLower(Alias(t)) == ParseKindAlias(Alias(t))
  {
    hide ParseKindAlias;
  }

  lemma ParseAlias(t: EffectType)
    ensures ParseLower(Alias(t)) == Some(t)
  {
    hide ParseLower;
    AliasIsNoName(t);
  }

  lemma AliasOnly(s: string, t: EffectType)
    requires ParseKindAlias(s) == Some(t)
    ensures s == Alias(t)
  {
  }

  lemma NameFirst(s: string, t: EffectType)
    requires ParseLower(s) == Some(t)
    ensures s == KindText(t) || ParseKindAlias(s) == Some(t)
  {
    hide ParseKindAlias;
  }

  /** A text reads as a type exactly when it is, in any letter case, the type's printed or short name. */
  lemma ParseKindIff(s: string, t: EffectType)
    ensures ParseKind(s) == Some(t) <==> T.Lower(s) == KindText(t) || T.Lower(s) == Alias(t)
  {
    hide T.Lower, ParseLower, ParseKindAlias, KindText, Alias;
    ParseKindText(t);
    ParseAlias(t);
    if ParseKind(s) == Some(t) {
      NameFirst(T.Lower(s), t);
      if T.Lower(s) != KindText(t) { AliasOnly(T.Lower(s), t); }
    }
  }

  lemma KindTextInjective(t: EffectType, u: EffectType)
    requires KindText(t) == KindText(u)
    ensures t == u
  {
    hide KindText, ParseKind;
    KindRoundTrip(t);
    KindRoundTrip(u);
  }

  lemma DamageRoundTrip(d: DamageType)
    ensures ParseDamage(DamageText(d)) == Some(d)
  {
  }

  /** No other text reads as a damage type. */
  lemma ParseDamageIff(s: string, d: DamageType)
    ensures ParseDamage(s) == Some(d) <==> s == DamageText(d)
  {
    DamageRoundTrip(d);
  }

  lemma RowRoundTrip(entity: string, e: Effect)
    ensures Decode(Encode(entity, e)) == Some(e)
  {
    hide KindText, ParseKind, DamageText, ParseDamage;
    KindRoundTrip(e.kind);
    if e.damage.Some? { DamageRoundTrip(e.damage.value); }
    assert AsU32(AsI32(e.remaining)) == e.remaining;
  }
}
