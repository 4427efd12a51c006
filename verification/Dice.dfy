/** Dice notation and dice (mudd/src/combat/dice.rs:35-161), and the second parser that scripts use
    (mudd/src/lua/game_api.rs:1758-1809). */
module Dice {
  import opened Wrappers
  import opened I = Integers
  import T = Text

  /** The low 32 bits, read as a signed number: Rust's `as i32`, and its arithmetic in a release build. */
  function ToI32(x: int): I32 { (x + TWO_31) % TWO_32 - TWO_31 }

  function ToU32(x: int): U32 { x % TWO_32 }

  function ToI64(x: int): I.I64 { (x + I.TWO_63) % I.TWO_64 - I.TWO_63 }

  datatype DiceRoll = DiceRoll(count: U32, sides: U32, modifier: I32)

  function Suffix(modifier: I32): string {
    if modifier > 0 then "+" + I.IntToString(modifier)
    else if modifier < 0 then I.IntToString(modifier)
    else ""
  }

  function ToString(d: DiceRoll): string {
    I.NatToString(d.count) + "d" + I.NatToString(d.sides) + Suffix(d.modifier)
  }

  datatype ParseError =
    | MissingD
    | InvalidCount
    | ZeroCount
    | InvalidModifier
    | InvalidSides
    | ZeroSides
    | CountOutOfRange
    | SidesOutOfRange

  // ----- The combat parser -----

  /** The text after the `d`, cut into sides and modifier. */
  function SplitModifier(rest: string): Result<(string, I32), ParseError> {
    match T.Find(rest, '+')
    case Some(plus) =>
      (match I.ParseSigned(rest[plus + 1..], TWO_31)
       case Some(m) => (I.SignedInRange(rest[plus + 1..], TWO_31); Ok((rest[..plus], m)))
       case None => Err(InvalidModifier))
    case None =>
      match T.FindLast(rest, '-')
      case Some(minus) =>
        if minus == 0 then Ok((rest, 0))
        else
          (match I.ParseSigned(rest[minus..], TWO_31)
           case Some(m) => (I.SignedInRange(rest[minus..], TWO_31); Ok((rest[..minus], m)))
           case None => Err(InvalidModifier))
      case None => Ok((rest, 0))
  }

  function ParseRest(count: U32, rest: string): Result<DiceRoll, ParseError> {
    match SplitModifier(rest)
    case Err(e) => Err(e)
    case Ok((sidesText, modifier)) =>
      match I.ParseUnsigned(sidesText, TWO_32)
      case None => Err(InvalidSides)
      case Some(sides) => if sides == 0 then Err(ZeroSides) else Ok(DiceRoll(count, sides, modifier))
  }

  function ParseDice(notation: string): Result<DiceRoll, ParseError> {
    var s := T.Lower(T.Trim(notation));
    match T.Find(s, 'd')
    case None => Err(MissingD)
    case Some(d) =>
      match if d == 0 then Some(1) else I.ParseUnsigned(s[..d], TWO_32)
      case None => Err(InvalidCount)
      case Some(count) => if count == 0 then Err(ZeroCount) else ParseRest(count, s[d + 1..])
  }

  // ----- The parser for scripts -----

  datatype ScriptRoll = ScriptRoll(count: nat, sides: nat, modifier: I.I64)

  function SplitScriptModifier(rest: string): Result<(string, I.I64), ParseError> {
    match T.Find(rest, '+')
    case Some(plus) =>
      (match I.ParseSigned(rest[plus + 1..], I.TWO_63)
       case Some(m) => (I.SignedInRange(rest[plus + 1..], I.TWO_63); Ok((rest[..plus], m)))
       case None => Err(InvalidModifier))
    case None =>
      match T.Find(rest, '-')
      case Some(minus) =>
        (match I.ParseSigned(rest[minus + 1..], I.TWO_63)
         case Some(m) => Ok((rest[..minus], ToI64(-m)))
         case None => Err(InvalidModifier))
      case None => Ok((rest, 0))
  }

  function ParseScriptRest(count: nat, rest: string): Result<ScriptRoll, ParseError> {
    match SplitScriptModifier(rest)
    case Err(e) => Err(e)
    case Ok((sidesText, modifier)) =>
      match I.ParseSigned(sidesText, I.TWO_63)
      case None => Err(InvalidSides)
      case Some(sides) =>
        if 1 <= sides <= 1000 then Ok(ScriptRoll(count, sides, modifier)) else Err(SidesOutOfRange)
  }

  function ParseScript(notation: string): Result<ScriptRoll, ParseError> {
    var s := T.Lower(T.Trim(notation));
    match T.Find(s, 'd')
    case None => Err(MissingD)
    case Some(d) =>
      match if d == 0 then Some(1) else I.ParseSigned(s[..d], I.TWO_63)
      case None => Err(InvalidCount)
      case Some(count) => if 1 <= count <= 100 then ParseScriptRest(count, s[d + 1..]) else Err(CountOutOfRange)
  }

  // ----- Round trip -----

  predicate Plain(c: char) { I.IsDigit(c) || c == 'd' || c == '+' || c == '-' }

  lemma PlainIsNormal(s: string)
    requires forall i | 0 <= i < |s| :: Plain(s[i])
    ensures T.Lower(T.Trim(s)) == s
  {
    if s != "" { assert !T.IsWhitespace(s[0]) && !T.IsWhitespace(s[|s| - 1]); }
    assert forall i | 0 <= i < |s| :: T.LowerChar(s[i]) == s[i];
  }

  lemma FindAfterDigits(digits: string, c: char, rest: string)
    requires forall i | 0 <= i < |digits| :: I.IsDigit(digits[i])
    requires !I.IsDigit(c)
    ensures T.Find(digits + [c] + rest, c) == Some(|digits|)
    ensures T.Find(digits, c) == None
  {
    var s := digits + [c] + rest;
    assert s[|digits|] == c;
    assert forall i | 0 <= i < |digits| :: s[i] == digits[i];
  }

  lemma ToStringIsPlain(d: DiceRoll)
    ensures forall i | 0 <= i < |ToString(d)| :: Plain(ToString(d)[i])
  {
    if d.modifier < 0 { assert forall i | 0 <= i < |I.IntToString(d.modifier)| :: Plain(I.IntToString(d.modifier)[i]); }
  }

  lemma SplitAtPlus(digits: string, number: string, modifier: I32)
    requires forall i | 0 <= i < |digits| :: I.IsDigit(digits[i])
    requires I.ParseSigned(number, TWO_31) == Some(modifier)
    ensures SplitModifier(digits + ("+" + number)) == Ok((digits, modifier))
  {
    hide I.ParseSigned;
    FindAfterDigits(digits, '+', number);
    var rest := digits + ("+" + number);
    assert rest == digits + ['+'] + number;
    assert rest[|digits| + 1..] == number && rest[..|digits|] == digits;
  }

  lemma SplitAtMinus(digits: string, number: string, modifier: I32)
    requires digits != "" && forall i | 0 <= i < |digits| :: I.IsDigit(digits[i])
    requires number != "" && number[0] == '-' && forall i | 0 < i < |number| :: I.IsDigit(number[i])
    requires I.ParseSigned(number, TWO_31) == Some(modifier)
    ensures SplitModifier(digits + number) == Ok((digits, modifier))
  {
    hide I.ParseSigned;
    var rest := digits + number;
    assert rest[|digits|..] == number && rest[..|digits|] == digits;
    assert forall i | 0 <= i < |rest| :: rest[i] == if i < |digits| then digits[i] else number[i - |digits|];
    assert '+' !in rest;
    assert rest[|digits|] == '-';
  }

  lemma SplitNowhere(digits: string)
    requires forall i | 0 <= i < |digits| :: I.IsDigit(digits[i])
    ensures SplitModifier(digits) == Ok((digits, 0))
  {
    hide I.ParseSigned;
    FindAfterDigits(digits, '+', "");
    FindAfterDigits(digits, '-', "");
  }

  /** The modifier of printed dice is found again. */
  lemma SplitPrinted(sides: U32, modifier: I32)
    ensures SplitModifier(I.NatToString(sides) + Suffix(modifier)) == Ok((I.NatToString(sides), modifier))
  {
    hide I.ParseSigned, SplitModifier, I.NatToString;
    var digits, number := I.NatToString(sides), I.IntToString(modifier);
    I.ParseInt(modifier, TWO_31);
    if modifier > 0 {
      SplitAtPlus(digits, number, modifier);
    } else if modifier < 0 {
      SplitAtMinus(digits, number, modifier);
    } else {
      assert digits + "" == digits;
      SplitNowhere(digits);
    }
  }

  /** Printed dice parse back exactly when there is something to roll. */
  lemma RoundTripIff(d: DiceRoll)
    ensures ParseDice(ToString(d)) == Ok(d) <==> d.count >= 1 && d.sides >= 1
  {
    hide I.ParseUnsigned, I.NatToString, SplitModifier, T.Trim, T.Lower;
    var count, rest := I.NatToString(d.count), I.NatToString(d.sides) + Suffix(d.modifier);
    ToStringIsPlain(d);
    PlainIsNormal(ToString(d));
    SplitPrinted(d.sides, d.modifier);
    I.ParseInt(d.count, TWO_32);
    I.ParseInt(d.sides, TWO_32);
    assert ToString(d) == count + ['d'] + rest;
    FindAfterDigits(count, 'd', rest);
    assert ToString(d)[..|count|] == count && ToString(d)[|count| + 1..] == rest;
  }

  // ----- The two parsers agree -----

  /** A minus sign inside the modifier, which only the script parser reads. */
  predicate DoubleDash(rest: string) { T.Find(rest, '+').None? && T.Find(rest, '-') != T.FindLast(rest, '-') }

  lemma PositiveInBothWidths(s: string, v: nat)
    requires v < TWO_32
    ensures I.ParseUnsigned(s, TWO_32) == Some(v) ==> I.ParseSigned(s, I.TWO_63) == Some(v)
    ensures v >= 1 && I.ParseSigned(s, I.TWO_63) == Some(v) ==> I.ParseUnsigned(s, TWO_32) == Some(v)
  {
    if s != "" && s[0] == '-' && I.ParseDigits(s).Some? { I.AllDigits(s); }
  }

  lemma ModifierInBothWidths(s: string)
    ensures I.ParseSigned(s, TWO_31).Some? ==> I.ParseSigned(s, I.TWO_63) == I.ParseSigned(s, TWO_31)
    ensures I.ParseSigned(s, I.TWO_63).Some? && -TWO_31 <= I.ParseSigned(s, I.TWO_63).value < TWO_31 ==>
              I.ParseSigned(s, TWO_31) == I.ParseSigned(s, I.TWO_63)
  {
  }

  /** Negative numbers are read with their sign by one parser, and after it by the other. */
  lemma SignInsideOrOutside(digits: string)
    requires digits == "" || (digits[0] != '-' && digits[0] != '+')
    ensures I.ParseSigned("-" + digits, TWO_31).Some? ==>
              && I.ParseSigned(digits, I.TWO_63).Some?
              && ToI64(-I.ParseSigned(digits, I.TWO_63).value) == I.ParseSigned("-" + digits, TWO_31).value
    ensures I.ParseSigned(digits, I.TWO_63).Some? ==>
              var m := ToI64(-I.ParseSigned(digits, I.TWO_63).value);
              I.ParseSigned("-" + digits, TWO_31) == if -TWO_31 <= m < TWO_31 then Some(m) else None
  {
    assert ("-" + digits)[1..] == digits;
  }

  lemma SidesHaveNoDash(s: string, i: nat)
    requires i < |s| && s[i] == '-'
    ensures I.ParseUnsigned(s, TWO_32).None?
  {
    var digits := if s[0] == '+' then s[1..] else s;
    assert digits[if s[0] == '+' then i - 1 else i] == '-';
    if I.ParseDigits(digits).Some? { I.AllDigits(digits); }
  }

  lemma SplitsAgreeOnMinus(rest: string)
    requires T.Find(rest, '+').None?
    ensures SplitModifier(rest).Ok? && I.ParseUnsigned(SplitModifier(rest).value.0, TWO_32).Some? ==>
              SplitScriptModifier(rest) == Ok((SplitModifier(rest).value.0, SplitModifier(rest).value.1))
    ensures SplitScriptModifier(rest).Ok? && SplitScriptModifier(rest).value.0 != "" ==>
              var (sides, m) := SplitScriptModifier(rest).value;
              if DoubleDash(rest) then
                SplitModifier(rest).Ok? ==> I.ParseUnsigned(SplitModifier(rest).value.0, TWO_32).None?
              else if -TWO_31 <= m < TWO_31 then
                SplitModifier(rest) == Ok((sides, m))
              else
                SplitModifier(rest).Err?
  {
    hide I.ParseSigned, I.ParseUnsigned, ToI64;
    var first, last := T.Find(rest, '-'), T.FindLast(rest, '-');
    if first.Some? {
      var digits := rest[last.value + 1..];
      assert rest[last.value..] == "-" + digits;
      assert digits != "" ==> digits[0] != '+';
      SignInsideOrOutside(digits);
      I.SignedInRange(rest[last.value..], TWO_31);
      if first == last && last.value == 0 {
        SidesHaveNoDash(rest, 0);
      } else if first != last {
        assert rest[..last.value][first.value] == '-';
        SidesHaveNoDash(rest[..last.value], first.value);
      }
    }
  }

  lemma SplitsAgree(rest: string)
    ensures SplitModifier(rest).Ok? && I.ParseUnsigned(SplitModifier(rest).value.0, TWO_32).Some? ==>
              SplitScriptModifier(rest) == Ok((SplitModifier(rest).value.0, SplitModifier(rest).value.1))
    ensures SplitScriptModifier(rest).Ok? && SplitScriptModifier(rest).value.0 != "" ==>
              var (sides, m) := SplitScriptModifier(rest).value;
              if DoubleDash(rest) then
                SplitModifier(rest).Ok? ==> I.ParseUnsigned(SplitModifier(rest).value.0, TWO_32).None?
              else if -TWO_31 <= m < TWO_31 then
                SplitModifier(rest) == Ok((sides, m))
              else
                SplitModifier(rest).Err?
  {
    hide I.ParseSigned, I.ParseUnsigned, ToI64;
    var plus := T.Find(rest, '+');
    if plus.Some? {
      ModifierInBothWidths(rest[plus.value + 1..]);
      I.SignedInRange(rest[plus.value + 1..], TWO_31);
    } else {
      SplitsAgreeOnMinus(rest);
    }
  }

  predicate HasDoubleDash(notation: string) {
    var s := T.Lower(T.Trim(notation));
    match T.Find(s, 'd')
    case None => false
    case Some(d) => DoubleDash(s[d + 1..])
  }

  lemma ScriptReadsDice(notation: string, d: DiceRoll)
    requires ParseDice(notation) == Ok(d)
    ensures d.count >= 1 && d.sides >= 1
    ensures ParseScript(notation).Ok? <==> d.count <= 100 && d.sides <= 1000
    ensures ParseScript(notation).Ok? ==> ParseScript(notation).value == ScriptRoll(d.count, d.sides, d.modifier)
  {
    hide I.ParseSigned, I.ParseUnsigned, SplitModifier, SplitScriptModifier, T.Trim, T.Lower;
    var s := T.Lower(T.Trim(notation));
    var pos := T.Find(s, 'd').value;
    var rest := s[pos + 1..];
    if pos > 0 { PositiveInBothWidths(s[..pos], d.count); }
    SplitsAgree(rest);
    PositiveInBothWidths(SplitModifier(rest).value.0, d.sides);
  }

  /** What the combat parser accepts, the script parser reads the same exactly within its own limits. */
  lemma ScriptReadsDiceIff(notation: string)
    ensures ParseDice(notation).Ok? ==>
              var d := ParseDice(notation).value;
              && d.count >= 1 && d.sides >= 1
              && (ParseScript(notation).Ok? <==> d.count <= 100 && d.sides <= 1000)
              && (ParseScript(notation).Ok? ==>
                    ParseScript(notation).value == ScriptRoll(d.count, d.sides, d.modifier))
  {
    if ParseDice(notation).Ok? { ScriptReadsDice(notation, ParseDice(notation).value); }
  }

  lemma EmptyIsNoNumber()
    ensures I.ParseSigned("", I.TWO_63).None?
  {
  }

  lemma DiceReadsScript(notation: string, l: ScriptRoll)
    requires ParseScript(notation) == Ok(l)
    ensures ParseDice(notation).Ok? <==> -TWO_31 <= l.modifier < TWO_31 && !HasDoubleDash(notation)
    ensures ParseDice(notation).Ok? ==>
              var d := ParseDice(notation).value;
              l == ScriptRoll(d.count, d.sides, d.modifier)
  {
    hide I.ParseSigned, I.ParseUnsigned, SplitModifier, SplitScriptModifier, T.Trim, T.Lower, DoubleDash;
    var s := T.Lower(T.Trim(notation));
    var pos := T.Find(s, 'd').value;
    var rest := s[pos + 1..];
    if pos > 0 { PositiveInBothWidths(s[..pos], l.count); }
    var sides := SplitScriptModifier(rest).value.0;
    assert sides != "" by { EmptyIsNoNumber(); }
    SplitsAgree(rest);
    PositiveInBothWidths(sides, l.sides);
  }

  /** What the script parser accepts, the combat parser accepts, and reads the same, exactly when the modifier fits
      its 32 bits and holds no second minus sign. */
  lemma DiceReadsScriptIff(notation: string)
    ensures ParseScript(notation).Ok? ==>
              var l := ParseScript(notation).value;
              && (ParseDice(notation).Ok? <==> -TWO_31 <= l.modifier < TWO_31 && !HasDoubleDash(notation))
              && (ParseDice(notation).Ok? ==>
                    var d := ParseDice(notation).value;
                    l == ScriptRoll(d.count, d.sides, d.modifier))
  {
    if ParseScript(notation).Ok? { DiceReadsScript(notation, ParseScript(notation).value); }
  }

  // ----- Rolling -----

  function Sum(rolls: seq<nat>): nat {
    if rolls == [] then 0 else Sum(rolls[..|rolls| - 1]) + rolls[|rolls| - 1]
  }

  /** One die for each count, each with a face from 1 to `sides`. */
  predicate Rolled(count: nat, sides: nat, rolls: seq<nat>) {
    |rolls| == count && forall i | 0 <= i < |rolls| :: 1 <= rolls[i] <= sides
  }

  function Total(rolls: seq<nat>, modifier: I32): I32 { ToI32(Sum(rolls) + modifier) }

  function Min(d: DiceRoll): I32 { ToI32(ToI32(d.count) + d.modifier) }

  function Max(d: DiceRoll): I32 { ToI32(ToI32(ToU32(d.count * d.sides)) + d.modifier) }

  lemma SameRemainder(x: int, y: int, k: int)
    requires x == y + k * TWO_32
    ensures x % TWO_32 == y % TWO_32
  {
    assert x / TWO_32 == y / TWO_32 + k;
  }

  lemma SameWrap(x: int, y: int, k: int)
    requires x == y + k * TWO_32
    ensures ToI32(x) == ToI32(y) && ToU32(x) == ToU32(y)
  {
    SameRemainder(x + TWO_31, y + TWO_31, k);
    SameRemainder(x, y, k);
  }

  /** Wrapping early or late makes no difference. */
  lemma WrapsOnce(a: int, b: int)
    ensures ToI32(ToI32(a) + b) == ToI32(a + b) == ToI32(ToI32(ToU32(a)) + b)
    ensures ToI32(ToI32(a) + ToI32(b)) == ToI32(a + b)
    ensures ToU32(ToU32(a) + b) == ToU32(a + b)
  {
    var i, u, v := (a + TWO_31) / TWO_32, a / TWO_32, (b + TWO_31) / TWO_32;
    assert ToI32(a) == a - i * TWO_32 && ToU32(a) == a - u * TWO_32 && ToI32(b) == b - v * TWO_32;
    var w := (ToU32(a) + TWO_31) / TWO_32;
    assert ToI32(ToU32(a)) == ToU32(a) - w * TWO_32;
    hide ToI32, ToU32;
    SameWrap(a + b, ToI32(a) + b, i);
    SameWrap(a + b, ToI32(a) + ToI32(b), i + v);
    SameWrap(a + b, ToU32(a) + b, u);
    SameWrap(a + b, ToI32(ToU32(a)) + b, u + w);
  }

  method RollDice(count: U32, sides: U32, modifier: I32, rolls: seq<nat>) returns (total: I32)
    requires Rolled(count, sides, rolls)
    ensures total == Total(rolls, modifier)
  {
    total := 0;
    var i := 0;
    while i < count
      invariant 0 <= i <= count
      invariant total == ToI32(Sum(rolls[..i]))
    {
      assert rolls[..i + 1][..i] == rolls[..i];
      WrapsOnce(Sum(rolls[..i]), rolls[i]);
      total := ToI32(total + ToI32(rolls[i]));
      i := i + 1;
    }
    assert rolls[..i] == rolls;
    WrapsOnce(Sum(rolls), modifier);
    total := ToI32(total + modifier);
  }

  method RollDetailed(d: DiceRoll, rolls: seq<nat>) returns (results: seq<nat>, total: I32)
    requires Rolled(d.count, d.sides, rolls)
    ensures results == rolls && total == Total(rolls, d.modifier)
  {
    results := [];
    var i := 0;
    while i < d.count
      invariant 0 <= i <= d.count && results == rolls[..i]
    {
      results := results + [rolls[i]];
      i := i + 1;
    }
    var sum: U32 := 0;
    var j := 0;
    while j < |results|
      invariant 0 <= j <= |results| && sum == ToU32(Sum(results[..j]))
    {
      assert results[..j + 1][..j] == results[..j];
      WrapsOnce(Sum(results[..j]), results[j]);
      sum := ToU32(sum + results[j]);
      j := j + 1;
    }
    assert results[..j] == results;
    WrapsOnce(Sum(results), d.modifier);
    total := ToI32(ToI32(sum) + d.modifier);
  }

  method RollScript(l: ScriptRoll, rolls: seq<nat>) returns (total: I.I64)
    requires l.count <= 100 && l.sides <= 1000 && Rolled(l.count, l.sides, rolls)
    ensures total == ToI64(Sum(rolls) + l.modifier)
  {
    total := 0;
    var i := 0;
    while i < l.count
      invariant 0 <= i <= l.count
      invariant total == Sum(rolls[..i]) <= 1000 * i
    {
      assert rolls[..i + 1][..i] == rolls[..i];
      total := total + rolls[i];
      i := i + 1;
    }
    assert rolls[..i] == rolls;
    total := ToI64(total + l.modifier);
  }

  lemma {:induction false} SumInRange(count: nat, sides: nat, rolls: seq<nat>)
    requires Rolled(count, sides, rolls)
    ensures count <= Sum(rolls) <= count * sides
  {
    if count > 0 {
      SumInRange(count - 1, sides, rolls[..count - 1]);
      assert (count - 1) * sides + sides == count * sides;
    }
  }

  lemma CountAtMostProduct(count: nat, sides: nat)
    requires sides >= 1
    ensures count * sides >= count
  {
  }

  /** Every sum from `count` to `count * sides` can come up. */
  lemma {:induction false} EverySumComesUp(count: nat, sides: nat, sum: nat) returns (rolls: seq<nat>)
    requires sides >= 1 && count <= sum <= count * sides
    ensures Rolled(count, sides, rolls) && Sum(rolls) == sum
  {
    if count == 0 {
      rolls := [];
    } else {
      var last := if sum - (count - 1) <= sides then sum - (count - 1) else sides;
      assert (count - 1) * sides + sides == count * sides;
      assert (count - 1) * sides >= count - 1 by { CountAtMostProduct(count - 1, sides); }
      var front := EverySumComesUp(count - 1, sides, sum - last);
      rolls := front + [last];
      assert rolls[..|rolls| - 1] == front;
    }
  }

  /** Where a sum leaves the 32-bit range, counted in whole ranges. */
  function Window(x: int): int { (x + TWO_31) / TWO_32 }

  function Lowest(d: DiceRoll): int { d.count + d.modifier }

  function Highest(d: DiceRoll): int { d.count * d.sides + d.modifier }

  ghost predicate RollsWithinBounds(d: DiceRoll) {
    forall rolls | Rolled(d.count, d.sides, rolls) :: Min(d) <= Total(rolls, d.modifier) <= Max(d)
  }

  /** Where the sums wrap around the same number of times, order is kept. */
  predicate BoundsHold(d: DiceRoll) {
    Window(Lowest(d)) == Window(Highest(d)) || (Min(d) == -TWO_31 && Max(d) == TWO_31 - 1)
  }

  lemma MinMaxWrap(d: DiceRoll)
    ensures Min(d) == ToI32(Lowest(d)) && Max(d) == ToI32(Highest(d))
  {
    hide ToI32, ToU32;
    WrapsOnce(d.count, d.modifier);
    WrapsOnce(d.count * d.sides, d.modifier);
  }

  lemma WrapInWindow(x: int)
    ensures ToI32(x) == x - Window(x) * TWO_32
  {
  }

  lemma WindowMonotone(x: int, y: int)
    requires x <= y
    ensures Window(x) <= Window(y)
  {
  }

  lemma NoWindow(x: int)
    requires -TWO_31 <= x < TWO_31
    ensures Window(x) == 0 && ToI32(x) == x
  {
  }

  /** The first sum of a window wraps to the least number, and the one before to the greatest. */
  lemma WindowStartsAt(x: int)
    ensures var edge := Window(x) * TWO_32 - TWO_31;
            edge <= x < edge + TWO_32 && ToI32(edge) == -TWO_31 && ToI32(edge - 1) == TWO_31 - 1
  {
  }

  /** The sum that wraps around last, or the one before it. */
  lemma RollOutOfBounds(d: DiceRoll) returns (rolls: seq<nat>)
    requires d.count >= 1 && d.sides >= 1 && !BoundsHold(d)
    ensures Rolled(d.count, d.sides, rolls) && !(Min(d) <= Total(rolls, d.modifier) <= Max(d))
  {
    hide Min, Max, Rolled, Sum, ToI32, Window;
    CountAtMostProduct(d.count, d.sides);
    WindowMonotone(Lowest(d), Highest(d));
    var edge := Window(Highest(d)) * TWO_32 - TWO_31;
    WindowStartsAt(Highest(d));
    WindowStartsAt(Lowest(d));
    var x := if Min(d) > -TWO_31 then edge else edge - 1;
    rolls := EverySumComesUp(d.count, d.sides, x - d.modifier);
  }

  /** `min` and `max` bound every roll exactly when the lowest and the highest sum wrap around equally often; without
      overflow they always do. */
  lemma RollsWithinBoundsIff(d: DiceRoll)
    requires d.count >= 1 && d.sides >= 1
    ensures RollsWithinBounds(d) <==> BoundsHold(d)
    ensures Highest(d) < TWO_31 ==> BoundsHold(d) && Min(d) == Lowest(d) && Max(d) == Highest(d)
  {
    hide Window, ToI32, Min, Max, Rolled, Sum;
    MinMaxWrap(d);
    WrapInWindow(Lowest(d));
    WrapInWindow(Highest(d));
    CountAtMostProduct(d.count, d.sides);
    WindowMonotone(Lowest(d), Highest(d));
    if BoundsHold(d) {
      forall rolls | Rolled(d.count, d.sides, rolls) ensures Min(d) <= Total(rolls, d.modifier) <= Max(d) {
        SumInRange(d.count, d.sides, rolls);
        var x := Sum(rolls) + d.modifier;
        WrapInWindow(x);
        WindowMonotone(Lowest(d), x);
        WindowMonotone(x, Highest(d));
      }
    } else {
      var rolls := RollOutOfBounds(d);
      assert Rolled(d.count, d.sides, rolls) && !(Min(d) <= Total(rolls, d.modifier) <= Max(d));
    }
    if Highest(d) < TWO_31 {
      NoWindow(Highest(d));
      NoWindow(Lowest(d));
    }
  }

  lemma WidthsAgreeIff(x: int)
    requires -TWO_31 <= x <= TWO_31 + 100000
    ensures ToI32(x) == ToI64(x) <==> x < TWO_31
  {
  }

  lemma ProductAtMost(count: nat, sides: nat)
    requires count <= 100 && sides <= 1000
    ensures count * sides <= 100000
  {
    assert count * sides <= count * 1000 by { assert count * (1000 - sides) >= 0; }
  }

  /** Both dice rollers agree on the same dice exactly when the 32-bit total does not overflow. */
  lemma ScriptTotalIff(l: ScriptRoll, modifier: I32, rolls: seq<nat>)
    requires l.modifier == modifier && l.count <= 100 && l.sides <= 1000 && Rolled(l.count, l.sides, rolls)
    ensures Total(rolls, modifier) == ToI64(Sum(rolls) + l.modifier) <==> Sum(rolls) + modifier < TWO_31
  {
    SumInRange(l.count, l.sides, rolls);
    ProductAtMost(l.count, l.sides);
    WidthsAgreeIff(Sum(rolls) + modifier);
  }
}
