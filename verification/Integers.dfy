/** Machine integers and their decimal text, as Rust prints and parses them. */
module Integers {
  import opened Wrappers

  const TWO_31: int := 0x8000_0000
  const TWO_32: int := 0x1_0000_0000
  const TWO_63: int := 0x8000_0000_0000_0000
  const TWO_64: int := 0x1_0000_0000_0000_0000
  const I64_MAX: I64 := TWO_63 - 1

  type U32 = x: int | 0 <= x < TWO_32
  type I32 = x: int | -TWO_31 <= x < TWO_31
  type U64 = x: int | 0 <= x < TWO_64
  type I64 = x: int | -TWO_63 <= x < TWO_63

  /** Rust's `as i64` and `as u64`: the same 64 bits, read with the other sign convention. */
  function AsI64(x: U64): I64 { if x < TWO_63 then x else x - TWO_64 }

  function AsU64(x: I64): U64 { if x >= 0 then x else x + TWO_64 }

  lemma {:induction false} HasMax(keys: set<I64>)
    requires keys != {}
    ensures exists m: I64 :: m in keys && forall k | k in keys :: k <= m
  {
    var k :| k in keys;
    if keys != {k} {
      HasMax(keys - {k});
      var m :| m in keys - {k} && forall j | j in keys - {k} :: j <= m;
      var top := if k < m then m else k;
      assert forall j | j in keys :: j == k || j in keys - {k};
      assert top in keys && forall j | j in keys :: j <= top;
    }
  }

  function MaxKey(keys: set<I64>): (m: I64)
    requires keys != {}
    ensures m in keys && forall k | k in keys :: k <= m
  {
    HasMax(keys);
    var m :| m in keys && forall k | k in keys :: k <= m;
    m
  }

  // ----- Decimal text -----

  function DigitChar(d: nat): char
    requires d < 10
  {
    ('0' as int + d) as char
  }

  predicate IsDigit(c: char) { '0' <= c <= '9' }

  function DigitValue(c: char): nat
    requires IsDigit(c)
  {
    c as int - '0' as int
  }

  function NatToString(n: nat): (s: string)
    ensures s != "" && forall i | 0 <= i < |s| :: IsDigit(s[i])
  {
    if n < 10 then [DigitChar(n)] else NatToString(n / 10) + [DigitChar(n % 10)]
  }

  function IntToString(n: int): string {
    if n < 0 then "-" + NatToString(-n) else NatToString(n)
  }

  /** The value of a non-empty run of digits. */
  function ParseDigits(s: string): Option<nat> {
    if s == "" || !IsDigit(s[|s| - 1]) then None
    else if |s| == 1 then Some(DigitValue(s[0]))
    else
      match ParseDigits(s[..|s| - 1])
      case None => None
      case Some(v) => Some(10 * v + DigitValue(s[|s| - 1]))
  }

  /** `str::parse` on an unsigned type: an optional plus sign, digits, no overflow. */
  function ParseUnsigned(s: string, limit: int): Option<nat> {
    var digits := if s != "" && s[0] == '+' then s[1..] else s;
    match ParseDigits(digits)
    case Some(v) => if v < limit then Some(v) else None
    case None => None
  }

  /** `str::parse` on a signed type with values in [-limit, limit). */
  function ParseSigned(s: string, limit: int): Option<int> {
    if s != "" && s[0] == '-' then
      match ParseDigits(s[1..])
      case Some(v) => if v <= limit then Some(0 - v) else None
      case None => None
    else
      match ParseUnsigned(s, limit)
      case Some(v) => Some(v)
      case None => None
  }

  lemma {:induction false} ParseNat(n: nat)
    ensures ParseDigits(NatToString(n)) == Some(n)
  {
    if n >= 10 {
      ParseNat(n / 10);
      var s := NatToString(n);
      assert s[..|s| - 1] == NatToString(n / 10) && s[|s| - 1] == DigitChar(n % 10);
    }
  }

  lemma ParseInt(n: int, limit: int)
    requires -limit <= n < limit
    ensures ParseSigned(IntToString(n), limit) == Some(n)
    ensures n >= 0 ==> ParseUnsigned(IntToString(n), limit) == Some(n)
  {
    ParseNat(if n < 0 then -n else n);
    if n < 0 { assert IntToString(n)[1..] == NatToString(-n); }
  }

  lemma IntToStringInjective(a: int, b: int)
    requires IntToString(a) == IntToString(b)
    ensures a == b
  {
    var limit := if a < 0 then -a else a + 1;
    var more := if b < 0 then -b else b + 1;
    ParseInt(a, limit + more);
    ParseInt(b, limit + more);
  }

  lemma {:induction false} AllDigits(s: string)
    requires ParseDigits(s).Some?
    ensures s != "" && forall i | 0 <= i < |s| :: IsDigit(s[i])
  {
    if |s| > 1 { AllDigits(s[..|s| - 1]); }
  }

  lemma SignedInRange(s: string, limit: int)
    requires limit > 0
    ensures ParseSigned(s, limit).Some? ==> -limit <= ParseSigned(s, limit).value < limit
  {
  }

  lemma {:induction false} LeadingZero(digits: string)
    requires digits != ""
    ensures ParseDigits("0" + digits) == ParseDigits(digits)
  {
    var s, n := "0" + digits, |digits| - 1;
    if n == 0 {
      assert s[..1] == "0" && ParseDigits("0") == Some(0);
    } else {
      assert s[..|s| - 1] == "0" + digits[..n];
      LeadingZero(digits[..n]);
    }
  }

  /** The text is the digits behind the sign, and these stand for the number. */
  ghost predicate Stands(s: string, sign: string, digits: string, n: int) {
    && s == sign + digits && (sign == "" || sign == "+" || sign == "-")
    && ParseDigits(digits).Some?
    && n == (if sign == "-" then 0 - ParseDigits(digits).value else ParseDigits(digits).value)
  }

  /** A text reads as the numbers of a signed type exactly as an optional sign, digits, and no overflow. */
  lemma ParseSignedIff(s: string, limit: int, n: int)
    requires limit > 0
    ensures ParseSigned(s, limit) == Some(n)
            <==> -limit <= n < limit && exists sign, digits :: Stands(s, sign, digits, n)
  {
    if ParseSigned(s, limit) == Some(n) {
      if s[0] == '-' || s[0] == '+' {
        assert s == [s[0]] + s[1..];
        assert Stands(s, [s[0]], s[1..], n);
      } else {
        assert Stands(s, "", s, n);
      }
    }
    if sign, digits :| Stands(s, sign, digits, n) {
      AllDigits(digits);
      assert sign != "" ==> s[0] == sign[0] && s[1..] == digits;
      assert sign == "" ==> s == digits;
    }
  }
}
