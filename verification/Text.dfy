/** The parts of Rust's string library that the parsers use. */
module Text {
  import opened Wrappers

  /** Unicode's White_Space property, which `char::is_whitespace` and `str::trim` go by. */
  predicate IsWhitespace(c: char) {
    var n := c as int;
    || 9 <= n <= 13 || n == 0x20 || n == 0x85 || n == 0xA0 || n == 0x1680 || 0x2000 <= n <= 0x200A
    || n == 0x2028 || n == 0x2029 || n == 0x202F || n == 0x205F || n == 0x3000
  }

  function TrimStart(s: string): string {
    if s != "" && IsWhitespace(s[0]) then TrimStart(s[1..]) else s
  }

  function TrimEnd(s: string): string {
    if s != "" && IsWhitespace(s[|s| - 1]) then TrimEnd(s[..|s| - 1]) else s
  }

  function Trim(s: string): string { TrimEnd(TrimStart(s)) }

  /** Lower case as far as it leads to ASCII: besides the letters A to Z, only the Kelvin sign has an ASCII lower case.
      Other characters outside ASCII, whose lower case is not ASCII either, are kept as they are. */
  function LowerChar(c: char): char {
    if 'A' <= c <= 'Z' then (c as int + 32) as char
    else if c as int == 0x212A then 'k'
    else c
  }

  function Lower(s: string): string { seq(|s|, i requires 0 <= i < |s| => LowerChar(s[i])) }

  /** The number of bytes of a string. */
  function Utf8Length(s: string): nat {
    if s == "" then 0
    else
      var n := s[0] as int;
      (if n < 0x80 then 1 else if n < 0x800 then 2 else if n < 0x10000 then 3 else 4) + Utf8Length(s[1..])
  }

  lemma {:induction false} AsciiLength(s: string)
    requires forall i | 0 <= i < |s| :: s[i] as int < 0x80
    ensures Utf8Length(s) == |s|
  {
    if s != "" { AsciiLength(s[1..]); }
  }

  /** The first position of `c`. */
  function Find(s: string, c: char): (r: Option<nat>)
    ensures r.Some? ==> r.value < |s| && s[r.value] == c && forall i | 0 <= i < r.value :: s[i] != c
    ensures r.None? ==> c !in s
  {
    if s == "" then None
    else if s[0] == c then Some(0)
    else
      match Find(s[1..], c)
      case None => None
      case Some(i) => Some(i + 1)
  }

  /** The last position of `c`. */
  function FindLast(s: string, c: char): (r: Option<nat>)
    ensures r.Some? ==> r.value < |s| && s[r.value] == c && forall i | r.value < i < |s| :: s[i] != c
    ensures r.None? ==> c !in s
  {
    if s == "" then None
    else if s[|s| - 1] == c then Some(|s| - 1)
    else FindLast(s[..|s| - 1], c)
  }

  // ----- Order, as a `BTreeMap` with string keys iterates -----

  predicate Less(a: string, b: string) {
    b != "" && (a == "" || a[0] < b[0] || (a[0] == b[0] && Less(a[1..], b[1..])))
  }

  lemma {:induction false} LessIsTotal(a: string, b: string)
    ensures a != b ==> Less(a, b) || Less(b, a)
    ensures !(Less(a, b) && Less(b, a))
  {
    if a != "" && b != "" {
      LessIsTotal(a[1..], b[1..]);
      if a != b && a[0] == b[0] { assert a == [a[0]] + a[1..] && b == [b[0]] + b[1..]; }
    }
  }

  lemma {:induction false} LessIsTransitive(a: string, b: string, c: string)
    requires Less(a, b) && Less(b, c)
    ensures Less(a, c)
  {
    if a != "" && a[0] == b[0] == c[0] { LessIsTransitive(a[1..], b[1..], c[1..]); }
  }

  predicate IsLeast(keys: set<string>, k: string) {
    k in keys && forall j | j in keys :: j == k || Less(k, j)
  }

  lemma {:induction false} HasLeast(keys: set<string>)
    requires keys != {}
    ensures exists k :: IsLeast(keys, k)
  {
    var k :| k in keys;
    if keys == {k} {
      assert IsLeast(keys, k);
    } else {
      HasLeast(keys - {k});
      var m :| IsLeast(keys - {k}, m);
      LessIsTotal(k, m);
      if Less(m, k) {
        assert IsLeast(keys, m);
      } else {
        forall j | j in keys ensures j == k || Less(k, j) {
          if j != k && j != m { LessIsTransitive(k, m, j); }
        }
        assert IsLeast(keys, k);
      }
    }
  }

  lemma LeastIsUnique(keys: set<string>, a: string, b: string)
    requires IsLeast(keys, a) && IsLeast(keys, b)
    ensures a == b
  {
    LessIsTotal(a, b);
  }

  ghost function Ascending(keys: set<string>): seq<string> {
    if keys == {} then []
    else
      HasLeast(keys);
      var k :| IsLeast(keys, k);
      [k] + Ascending(keys - {k})
  }

  lemma AscendingEmpty()
    ensures Ascending({}) == []
  {
  }

  lemma AscendingFrom(keys: set<string>, k: string)
    requires IsLeast(keys, k)
    ensures Ascending(keys) == [k] + Ascending(keys - {k})
  {
    HasLeast(keys);
    var m :| IsLeast(keys, m) && Ascending(keys) == [m] + Ascending(keys - {m});
    LeastIsUnique(keys, k, m);
  }

  /** Every key once, in order. */
  lemma {:induction false} AscendingHasAll(keys: set<string>)
    ensures forall k :: k in Ascending(keys) <==> k in keys
    ensures forall i, j | 0 <= i < j < |Ascending(keys)| :: Less(Ascending(keys)[i], Ascending(keys)[j])
  {
    if keys != {} {
      HasLeast(keys);
      var k :| IsLeast(keys, k);
      AscendingFrom(keys, k);
      AscendingHasAll(keys - {k});
    }
  }

  lemma AscendingDistinct(keys: set<string>, i: nat, j: nat)
    requires i < j < |Ascending(keys)|
    ensures Ascending(keys)[i] != Ascending(keys)[j]
  {
    hide Ascending;
    AscendingHasAll(keys);
    LessIsTotal(Ascending(keys)[i], Ascending(keys)[j]);
  }
}
