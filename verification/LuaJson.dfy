/** JSON to Lua and back (mudd/src/lua/game_api.rs:1812-1854, 1887-1916). Lua tables hold no nil, so the
    two conversions do not quite undo each other; what they do is exactly the normal form below. */
module LuaJson {
  import opened Wrappers
  import opened Integers

  type BigU64 = x: int | TWO_63 <= x < TWO_64 witness TWO_63

  /** The numbers of `serde_json`: signed 64-bit integers, larger unsigned ones, and finite floats. */
  datatype Number = Int(i: I64) | BigUnsigned(u: BigU64) | Float(f: real)

  datatype Json =
    | Null
    | Bool(b: bool)
    | Num(n: Number)
    | Str(s: string)
    | Arr(items: seq<Json>)
    | Obj(members: map<string, Json>)

  /** The keys that read as text; a float key, which is no integer, by its identity and the text Lua prints for it. */
  datatype Key = IntKey(i: I64) | FloatKey(id: nat, text: string) | StrKey(s: string)

  /** A table by such keys, and whether it has keys of any other type. `Opaque` is what has no JSON form of its own:
      functions, user data, and floats that are not finite. */
  datatype Lua =
    | Nil
    | Boolean(b: bool)
    | Integer(i: I64)
    | Floating(f: real)
    | String(s: string)
    | Table(fields: map<Key, Lua>, others: bool)
    | Opaque

  datatype ConversionError = BadKey

  /** The 64-bit float nearest to a large integer, of two the even one: between 2^63 and 2^64 floats are 2048 apart. */
  function NearestFloat(u: BigU64): real {
    var q, rest := u / 2048, u % 2048;
    var up := rest > 1024 || (rest == 1024 && q % 2 == 1);
    ((if up then q + 1 else q) * 2048) as real
  }

  function Distance(u: int, m: int): int { if u < m * 2048 then m * 2048 - u else u - m * 2048 }

  ghost predicate Nearer(u: int, q: int, m: int) {
    Distance(u, q) <= Distance(u, m) && (Distance(u, q) == Distance(u, m) && q != m ==> q % 2 == 0)
  }

  /** Of the multiples of 2048 none is nearer, and of two that are as near the even one is taken. */
  lemma NearestFloatIsNearest(u: BigU64, m: int)
    ensures var q := NearestFloat(u).Floor / 2048;
            NearestFloat(u) == (q * 2048) as real && Nearer(u, q, m)
  {
    var q, rest := u / 2048, u % 2048;
    var chosen := if rest > 1024 || (rest == 1024 && q % 2 == 1) then q + 1 else q;
    assert NearestFloat(u).Floor == chosen * 2048 && Nearer(u, chosen, m);
  }

  // ----- JSON to Lua -----

  predicate Present(items: seq<Json>, k: int) { 1 <= k <= |items| && items[k - 1] != Null }

  function ListKeys(items: seq<Json>): (keys: set<Key>)
    ensures forall k :: k in keys <==> k.IntKey? && Present(items, k.i)
  {
    set i: I64 | 0 <= i <= |items| && Present(items, i) :: IntKey(i)
  }

  function RecordKeys(members: map<string, Json>): (keys: set<Key>)
    ensures forall k :: k in keys <==> k.StrKey? && k.s in members && members[k.s] != Null
  {
    set s | s in members && members[s] != Null :: StrKey(s)
  }

  /** Storing nil under a key leaves the key absent. The arrays of one process fit its memory, so their
      indices fit a signed 64-bit key. */
  function JsonToLua(j: Json): Lua {
    match j
    case Null => Nil
    case Bool(b) => Boolean(b)
    case Num(Int(i)) => Integer(i)
    case Num(BigUnsigned(u)) => Floating(NearestFloat(u))
    case Num(Float(f)) => Floating(f)
    case Str(s) => String(s)
    case Arr(items) => Table(map k | k in ListKeys(items) :: JsonToLua(items[k.i - 1]), false)
    case Obj(members) => Table(map k | k in RecordKeys(members) :: JsonToLua(members[k.s]), false)
  }

  // ----- Lua to JSON -----

  function KeyText(k: Key): string {
    match k
    case IntKey(i) => IntToString(i)
    case FloatKey(_, text) => text
    case StrKey(s) => s
  }

  predicate ArrayLike(v: Lua)
    requires v.Table?
  {
    !v.others && v.fields != map[] && forall k | k in v.fields :: k.IntKey? && k.i > 0
  }

  function Indices(fields: map<Key, Lua>): (indices: set<I64>)
    ensures forall i :: i in indices <==> IntKey(i) in fields
  {
    set k | k in fields && k.IntKey? :: k.i
  }

  function MaxIndex(v: Lua): (n: I64)
    requires v.Table? && ArrayLike(v)
    ensures n > 0 && IntKey(n) in v.fields && forall k | k in v.fields :: k.i <= n
  {
    assert forall k | k in v.fields :: k == IntKey(k.i) && k.i in Indices(v.fields);
    MaxKey(Indices(v.fields))
  }

  /** No table inside has a key that cannot be read as text. */
  predicate Convertible(v: Lua) {
    v.Table? ==> !v.others && forall k | k in v.fields :: Convertible(v.fields[k])
  }

  /** What the conversion may give. Where keys of a table print alike, any of them may have been visited last. */
  ghost predicate Becomes(v: Lua, x: Json) {
    match v
    case Nil => x == Null
    case Boolean(b) => x == Bool(b)
    case Integer(i) => x == Num(Int(i))
    case Floating(f) => x == Num(Float(f))
    case String(s) => x == Str(s)
    case Opaque => x == Null
    case Table(fields, others) =>
      if ArrayLike(v) then
        && x.Arr? && |x.items| == MaxIndex(v) && Convertible(v)
        && forall i: I64 | 1 <= i <= |x.items| ::
             if IntKey(i) in fields then Becomes(fields[IntKey(i)], x.items[i - 1]) else x.items[i - 1] == Null
      else
        && x.Obj? && Convertible(v)
        && (forall k | k in fields :: KeyText(k) in x.members)
        && forall t | t in x.members :: exists k :: k in fields && KeyText(k) == t && Becomes(fields[k], x.members[t])
  }

  ghost predicate ListOutcome(v: Lua, x: Json)
    requires v.Table? && ArrayLike(v)
  {
    && x.Arr? && |x.items| == MaxIndex(v) && Convertible(v)
    && forall i: I64 | 1 <= i <= |x.items| ::
         if IntKey(i) in v.fields then Becomes(v.fields[IntKey(i)], x.items[i - 1]) else x.items[i - 1] == Null
  }

  ghost predicate MemberOutcome(fields: map<Key, Lua>, t: string, x: Json) {
    exists k :: k in fields && KeyText(k) == t && Becomes(fields[k], x)
  }

  ghost predicate RecordOutcome(v: Lua, x: Json)
    requires v.Table?
  {
    && x.Obj? && Convertible(v)
    && (forall k | k in v.fields :: KeyText(k) in x.members)
    && forall t | t in x.members :: MemberOutcome(v.fields, t, x.members[t])
  }

  lemma TableBecomes(v: Lua, x: Json)
    requires v.Table?
    ensures Becomes(v, x) <==> if ArrayLike(v) then ListOutcome(v, x) else RecordOutcome(v, x)
    ensures Convertible(v) <==> !v.others && forall k | k in v.fields :: Convertible(v.fields[k])
  {
  }

  lemma ListTable(items: seq<Json>)
    ensures var v := JsonToLua(Arr(items));
            && v.Table? && !v.others
            && (forall k :: k in v.fields <==> k.IntKey? && Present(items, k.i))
            && (forall k | k in v.fields :: v.fields[k] == JsonToLua(items[k.i - 1]))
  {
  }

  lemma RecordTable(members: map<string, Json>)
    ensures var v := JsonToLua(Obj(members));
            && v.Table? && !v.others
            && (forall k :: k in v.fields <==> k.StrKey? && k.s in members && members[k.s] != Null)
            && (forall k | k in v.fields :: v.fields[k] == JsonToLua(members[k.s]))
  {
  }

  // ----- The normal form -----

  /** The length of an array without its trailing nulls. */
  function Trimmed(items: seq<Json>): (n: nat)
    ensures n <= |items|
    ensures n > 0 ==> items[n - 1] != Null
    ensures forall i | n <= i < |items| :: items[i] == Null
  {
    if items == [] then 0
    else if items[|items| - 1] != Null then |items|
    else Trimmed(items[..|items| - 1])
  }

  function Normalize(j: Json): Json {
    match j
    case Num(BigUnsigned(u)) => Num(Float(NearestFloat(u)))
    case Arr(items) =>
      var n := Trimmed(items);
      if n == 0 then Obj(map[]) else Arr(seq(n, i requires 0 <= i < n => Normalize(items[i])))
    case Obj(members) => Obj(map k | k in members && members[k] != Null :: Normalize(members[k]))
    case _ => j
  }

  /** No null members, no empty array or trailing null, no number outside i64 and float. */
  predicate IsNormal(j: Json) {
    match j
    case Num(n) => !n.BigUnsigned?
    case Arr(items) => items != [] && items[|items| - 1] != Null && forall i | 0 <= i < |items| :: IsNormal(items[i])
    case Obj(members) => forall k | k in members :: members[k] != Null && IsNormal(members[k])
    case _ => true
  }

  /** Arrays are indexed by signed 64-bit integers. */
  ghost predicate Fits(j: Json) {
    match j
    case Arr(items) => |items| <= I64_MAX && forall i | 0 <= i < |items| :: Fits(items[i])
    case Obj(members) => forall k | k in members :: Fits(members[k])
    case _ => true
  }

  // ----- Through Lua and back -----

  ghost function Normals(items: seq<Json>, n: nat): seq<Json>
    requires n <= |items|
  {
    seq(n, i requires 0 <= i < n => Normalize(items[i]))
  }

  /** The only thing that the value becomes. */
  ghost predicate Only(v: Lua, x: Json) { Becomes(v, x) && forall y | Becomes(v, y) :: y == x }

  lemma ArrayMax(items: seq<Json>)
    requires |items| <= I64_MAX
    ensures var v := JsonToLua(Arr(items));
            && v.Table? && (Trimmed(items) == 0 ==> v == Table(map[], false))
            && (Trimmed(items) > 0 ==> ArrayLike(v) && MaxIndex(v) == Trimmed(items))
  {
    var v := JsonToLua(Arr(items));
    var n: I64 := Trimmed(items);
    if n == 0 {
      assert forall k: I64 :: !Present(items, k);
      assert v.fields == map[];
    } else {
      assert Present(items, n) && IntKey(n) in v.fields;
      assert forall k | k in v.fields :: Present(items, k.i) && k.i <= n;
    }
  }

  lemma OfNull()
    ensures JsonToLua(Null) == Nil && Normalize(Null) == Null
  {
  }

  lemma NormalList(items: seq<Json>)
    ensures Normalize(Arr(items)) == var n := Trimmed(items); if n == 0 then Obj(map[]) else Arr(Normals(items, n))
  {
  }

  lemma NormalRecord(members: map<string, Json>)
    ensures var x := Normalize(Obj(members));
            && x.Obj? && (forall k :: k in x.members <==> k in members && members[k] != Null)
            && (forall k | k in x.members :: x.members[k] == Normalize(members[k]))
  {
  }

  lemma ListConvertible(items: seq<Json>)
    requires forall i | 0 <= i < |items| :: Convertible(JsonToLua(items[i]))
    ensures Convertible(JsonToLua(Arr(items)))
  {
    hide JsonToLua, Convertible, Becomes;
    ListTable(items);
    TableBecomes(JsonToLua(Arr(items)), Null);
  }

  lemma ItemGivesNormal(items: seq<Json>, i: I64, v: Lua)
    requires 1 <= i <= |items| <= I64_MAX && v == JsonToLua(Arr(items)) && v.Table?
    requires Only(JsonToLua(items[i - 1]), Normalize(items[i - 1]))
    ensures if IntKey(i) in v.fields then Becomes(v.fields[IntKey(i)], Normalize(items[i - 1]))
            else Normalize(items[i - 1]) == Null
  {
    hide JsonToLua, Becomes, Normalize;
    OfNull();
    ListTable(items);
    assert IntKey(i) in v.fields <==> Present(items, i);
  }

  lemma ListGivesNormal(items: seq<Json>, n: nat, v: Lua)
    requires n <= |items| <= I64_MAX && v == JsonToLua(Arr(items)) && v.Table? && ArrayLike(v) && MaxIndex(v) == n
    requires forall i | 0 <= i < |items| :: Convertible(JsonToLua(items[i]))
    requires forall i | 0 <= i < |items| :: Only(JsonToLua(items[i]), Normalize(items[i]))
    ensures Convertible(v) && Becomes(v, Arr(Normals(items, n)))
  {
    hide JsonToLua, Becomes, Convertible, Normalize, ArrayLike, Only;
    var x := Arr(Normals(items, n));
    ListConvertible(items);
    forall i: I64 | 1 <= i <= n
      ensures if IntKey(i) in v.fields then Becomes(v.fields[IntKey(i)], x.items[i - 1]) else x.items[i - 1] == Null
    {
      ItemGivesNormal(items, i, v);
    }
    TableBecomes(v, x);
  }

  lemma ListOnly(items: seq<Json>, n: nat, v: Lua, y: Json)
    requires n <= |items| <= I64_MAX && v == JsonToLua(Arr(items)) && v.Table? && ArrayLike(v) && MaxIndex(v) == n
    requires forall i | 0 <= i < |items| :: Only(JsonToLua(items[i]), Normalize(items[i]))
    requires Becomes(v, y)
    ensures y == Arr(Normals(items, n))
  {
    hide JsonToLua, Becomes, Convertible, Normalize, ArrayLike;
    OfNull();
    ListTable(items);
    TableBecomes(v, y);
    forall j | 0 <= j < n ensures y.items[j] == Normals(items, n)[j] {
      var i: I64 := j + 1;
      assert IntKey(i) in v.fields <==> Present(items, i);
    }
    assert y.items == Normals(items, n);
  }

  lemma EmptyTable()
    ensures Convertible(Table(map[], false)) && Only(Table(map[], false), Obj(map[]))
  {
    var v := Table(map[], false);
    assert Becomes(v, Obj(map[]));
    forall y | Becomes(v, y) ensures y == Obj(map[]) {
      assert forall t :: t !in y.members;
    }
  }

  lemma ArrayRoundTrip(items: seq<Json>)
    requires |items| <= I64_MAX
    requires forall i | 0 <= i < |items| :: Convertible(JsonToLua(items[i]))
    requires forall i | 0 <= i < |items| :: Only(JsonToLua(items[i]), Normalize(items[i]))
    ensures Convertible(JsonToLua(Arr(items))) && Only(JsonToLua(Arr(items)), Normalize(Arr(items)))
  {
    hide JsonToLua, Becomes, Convertible, Normalize, ArrayLike;
    var v, n := JsonToLua(Arr(items)), Trimmed(items);
    ArrayMax(items);
    NormalList(items);
    if n == 0 {
      EmptyTable();
    } else {
      ListGivesNormal(items, n, v);
      forall y | Becomes(v, y) ensures y == Arr(Normals(items, n)) { ListOnly(items, n, v, y); }
    }
  }

  lemma MemberOnly(members: map<string, Json>, v: Lua, t: string, z: Json)
    requires forall k | k in members :: Only(JsonToLua(members[k]), Normalize(members[k]))
    requires v == JsonToLua(Obj(members)) && v.Table? && MemberOutcome(v.fields, t, z)
    ensures t in members && members[t] != Null && z == Normalize(members[t])
  {
    hide IntToString, JsonToLua, Becomes, Convertible, Normalize;
    RecordTable(members);
    var k :| k in v.fields && KeyText(k) == t && Becomes(v.fields[k], z);
    assert k == StrKey(t) && Only(JsonToLua(members[t]), Normalize(members[t]));
  }

  lemma MembersOf(v: Lua, y: Json)
    requires v.Table? && !ArrayLike(v) && Becomes(v, y)
    ensures y.Obj? && forall t | t in y.members :: MemberOutcome(v.fields, t, y.members[t])
    ensures forall s | StrKey(s) in v.fields :: s in y.members
  {
    hide IntToString, JsonToLua, Becomes, Convertible, MemberOutcome;
    TableBecomes(v, y);
    forall s | StrKey(s) in v.fields ensures s in y.members { assert KeyText(StrKey(s)) == s; }
  }

  lemma RecordOnly(members: map<string, Json>, v: Lua, x: Json, y: Json)
    requires forall k | k in members :: Only(JsonToLua(members[k]), Normalize(members[k]))
    requires v == JsonToLua(Obj(members)) && v.Table? && !ArrayLike(v) && Becomes(v, y) && x == Normalize(Obj(members))
    ensures y == x
  {
    hide IntToString, JsonToLua, Becomes, Convertible, Normalize, MemberOutcome, Only, ArrayLike;
    NormalRecord(members);
    RecordTable(members);
    MembersOf(v, y);
    forall t | t in y.members ensures t in x.members && y.members[t] == x.members[t] {
      MemberOnly(members, v, t, y.members[t]);
    }
    forall t | t in x.members ensures t in y.members { assert StrKey(t) in v.fields; }
    assert y.members == x.members;
  }

  lemma ObjectRoundTrip(members: map<string, Json>)
    requires forall k | k in members :: Convertible(JsonToLua(members[k]))
    requires forall k | k in members :: Only(JsonToLua(members[k]), Normalize(members[k]))
    ensures Convertible(JsonToLua(Obj(members))) && Only(JsonToLua(Obj(members)), Normalize(Obj(members)))
  {
    hide IntToString, JsonToLua, Becomes, Convertible, Normalize;
    var v, x := JsonToLua(Obj(members)), Normalize(Obj(members));
    NormalRecord(members);
    RecordTable(members);
    TableBecomes(v, x);
    forall t | t in x.members ensures MemberOutcome(v.fields, t, x.members[t]) {
      assert StrKey(t) in v.fields && KeyText(StrKey(t)) == t;
    }
    assert Becomes(v, x);
    forall y | Becomes(v, y) ensures y == x { RecordOnly(members, v, x, y); }
  }

  /** For every tree the way to Lua and back succeeds, and gives the normal form and nothing else. */
  lemma {:induction false} RoundTrip(j: Json)
    requires Fits(j)
    ensures Convertible(JsonToLua(j)) && Only(JsonToLua(j), Normalize(j))
  {
    match j
    case Arr(items) =>
      forall i | 0 <= i < |items|
        ensures Convertible(JsonToLua(items[i])) && Only(JsonToLua(items[i]), Normalize(items[i]))
      {
        RoundTrip(items[i]);
      }
      ArrayRoundTrip(items);
    case Obj(members) =>
      forall k | k in members
        ensures Convertible(JsonToLua(members[k])) && Only(JsonToLua(members[k]), Normalize(members[k]))
      {
        RoundTrip(members[k]);
      }
      ObjectRoundTrip(members);
    case _ =>
  }

  /** What the normal form is: a fixed point of normalizing, and all of them are normal. */
  lemma {:induction false} NormalizeIsNormal(j: Json)
    ensures IsNormal(Normalize(j))
    ensures Normalize(j) == Null <==> j == Null
  {
    match j
    case Arr(items) =>
      forall i | 0 <= i < |items|
        ensures IsNormal(Normalize(items[i])) && (Normalize(items[i]) == Null <==> items[i] == Null)
      {
        NormalizeIsNormal(items[i]);
      }
    case Obj(members) =>
      forall k | k in members
        ensures IsNormal(Normalize(members[k])) && (Normalize(members[k]) == Null <==> members[k] == Null)
      {
        NormalizeIsNormal(members[k]);
      }
    case _ =>
  }

  lemma {:induction false} NormalIsFixed(j: Json)
    requires IsNormal(j)
    ensures Normalize(j) == j
  {
    match j
    case Arr(items) =>
      forall i | 0 <= i < |items| ensures Normalize(items[i]) == items[i] { NormalIsFixed(items[i]); }
      assert Trimmed(items) == |items| && Normalize(j).items == items;
    case Obj(members) =>
      forall k | k in members ensures Normalize(members[k]) == members[k] { NormalIsFixed(members[k]); }
      assert Normalize(j).members == members;
    case _ =>
  }

  lemma NormalIff(j: Json)
    ensures Normalize(j) == j <==> IsNormal(j)
  {
    NormalizeIsNormal(j);
    if IsNormal(j) { NormalIsFixed(j); }
  }

  lemma NormalizeIdempotent(j: Json)
    ensures Normalize(Normalize(j)) == Normalize(j)
  {
    NormalizeIsNormal(j);
    NormalIff(Normalize(j));
  }

  lemma LuaOfMembers(members: map<string, Json>)
    requires forall k | k in members :: JsonToLua(Normalize(members[k])) == JsonToLua(members[k])
    requires forall k | k in members :: Normalize(members[k]) == Null <==> members[k] == Null
    ensures JsonToLua(Normalize(Obj(members))) == JsonToLua(Obj(members))
  {
    hide JsonToLua, Normalize;
    NormalRecord(members);
    var x := Normalize(Obj(members)).members;
    RecordTable(members);
    RecordTable(x);
    assert JsonToLua(Obj(x)).fields == JsonToLua(Obj(members)).fields;
  }

  lemma LuaOfEmpty()
    ensures JsonToLua(Obj(map[])) == Table(map[], false)
  {
  }

  lemma SameTable(short: seq<Json>, items: seq<Json>)
    requires |short| <= |items| <= I64_MAX
    requires forall i | 0 <= i < |short| ::
               JsonToLua(short[i]) == JsonToLua(items[i]) && (short[i] == Null <==> items[i] == Null)
    requires forall i | |short| <= i < |items| :: items[i] == Null
    ensures JsonToLua(Arr(short)) == JsonToLua(Arr(items))
  {
    hide JsonToLua;
    ListTable(short);
    ListTable(items);
    assert forall k: I64 :: Present(short, k) <==> Present(items, k);
    assert JsonToLua(Arr(short)).fields == JsonToLua(Arr(items)).fields;
  }

  lemma LuaOfTrimmed(items: seq<Json>)
    requires |items| <= I64_MAX
    requires forall i | 0 <= i < |items| :: JsonToLua(Normalize(items[i])) == JsonToLua(items[i])
    requires forall i | 0 <= i < |items| :: Normalize(items[i]) == Null <==> items[i] == Null
    ensures JsonToLua(Normalize(Arr(items))) == JsonToLua(Arr(items))
  {
    hide JsonToLua, Normalize, MaxIndex;
    ArrayMax(items);
    NormalList(items);
    var n := Trimmed(items);
    if n > 0 { SameTable(Normals(items, n), items); } else { LuaOfEmpty(); }
  }

  /** Lua cannot tell a value from its normal form. */
  lemma {:induction false} LuaOfNormal(j: Json)
    requires Fits(j)
    ensures JsonToLua(Normalize(j)) == JsonToLua(j)
  {
    match j
    case Arr(items) =>
      forall i | 0 <= i < |items| ensures JsonToLua(Normalize(items[i])) == JsonToLua(items[i])
        ensures Normalize(items[i]) == Null <==> items[i] == Null
      {
        LuaOfNormal(items[i]);
        NormalizeIsNormal(items[i]);
      }
      LuaOfTrimmed(items);
    case Obj(members) =>
      forall k | k in members ensures JsonToLua(Normalize(members[k])) == JsonToLua(members[k])
        ensures Normalize(members[k]) == Null <==> members[k] == Null
      {
        LuaOfNormal(members[k]);
        NormalizeIsNormal(members[k]);
      }
      LuaOfMembers(members);
    case _ =>
  }

  /** Two JSON values look the same to Lua exactly when their normal forms are equal. */
  lemma SameInLuaIff(a: Json, b: Json)
    requires Fits(a) && Fits(b)
    ensures JsonToLua(a) == JsonToLua(b) <==> Normalize(a) == Normalize(b)
  {
    RoundTrip(a);
    RoundTrip(b);
    LuaOfNormal(a);
    LuaOfNormal(b);
  }

  // ----- Through JSON and back -----

  /** Lua tables never hold nil. */
  ghost predicate WellFormed(v: Lua) {
    v.Table? ==> forall k | k in v.fields :: v.fields[k] != Nil && WellFormed(v.fields[k])
  }

  predicate AllPositive(v: Lua)
    requires v.Table?
  {
    forall k | k in v.fields :: k.IntKey? && k.i > 0
  }

  predicate AllStrings(v: Lua)
    requires v.Table?
  {
    forall k | k in v.fields :: k.StrKey?
  }

  /** Plain data: each table is either a list with positive keys, holes allowed, or a record. */
  ghost predicate Plain(v: Lua) {
    && !v.Opaque?
    && (v.Table? ==>
          !v.others && (AllPositive(v) || AllStrings(v)) && forall k | k in v.fields :: Plain(v.fields[k]))
  }

  /** Whatever the value becomes turns into the value again. */
  ghost predicate Survives(v: Lua) { Convertible(v) && forall x | Becomes(v, x) :: JsonToLua(x) == v }

  ghost predicate HasOutcome(v: Lua) { exists x :: Becomes(v, x) }

  ghost function Pick(v: Lua): (x: Json)
    requires HasOutcome(v)
    ensures Becomes(v, x)
  {
    var x :| Becomes(v, x);
    x
  }

  ghost function KeyFor(v: Lua, t: string): (k: Key)
    requires v.Table? && exists k :: k in v.fields && KeyText(k) == t
    ensures k in v.fields && KeyText(k) == t
  {
    var k :| k in v.fields && KeyText(k) == t;
    k
  }

  /** One outcome for each place, `y` at the chosen one. */
  ghost function PickItems(v: Lua, n: I64, k: Key, y: Json): (items: seq<Json>)
    requires v.Table? && n >= 0 && forall l | l in v.fields :: HasOutcome(v.fields[l])
    ensures |items| == n
    ensures forall i: I64 | 1 <= i <= n ::
              items[i - 1] == if IntKey(i) == k then y
                              else if IntKey(i) in v.fields then Pick(v.fields[IntKey(i)]) else Null
  {
    seq(n, i requires 0 <= i < n =>
      if IntKey(i + 1) == k then y else if IntKey(i + 1) in v.fields then Pick(v.fields[IntKey(i + 1)]) else Null)
  }

  /** Whatever a value in the list becomes, the list may become with that at its place. */
  lemma ListMay(v: Lua, k: Key, y: Json)
    requires v.Table? && ArrayLike(v) && Convertible(v) && k in v.fields && Becomes(v.fields[k], y)
    requires forall l | l in v.fields :: HasOutcome(v.fields[l])
    ensures exists x :: Becomes(v, x) && x.Arr? && k.i <= |x.items| && x.items[k.i - 1] == y
  {
    hide Becomes, Convertible, HasOutcome;
    var n := MaxIndex(v);
    var x := Arr(PickItems(v, n, k, y));
    TableBecomes(v, x);
    assert k == IntKey(k.i) && x.items[k.i - 1] == y;
    forall i: I64 | 1 <= i <= n
      ensures if IntKey(i) in v.fields then Becomes(v.fields[IntKey(i)], x.items[i - 1]) else x.items[i - 1] == Null
    {
      assert x.items[i - 1] == if IntKey(i) == k then y
                               else if IntKey(i) in v.fields then Pick(v.fields[IntKey(i)]) else Null;
    }
    assert Becomes(v, x);
  }

  /** One outcome for each text, `y` for that of the chosen key. */
  ghost function PickMembers(v: Lua, k: Key, y: Json): (members: map<string, Json>)
    requires v.Table? && forall l | l in v.fields :: HasOutcome(v.fields[l])
    ensures forall l | l in v.fields :: KeyText(l) in members
    ensures forall t | t in members :: exists l :: l in v.fields && KeyText(l) == t
    ensures forall t | t in members :: members[t] == if t == KeyText(k) then y else Pick(v.fields[KeyFor(v, t)])
  {
    var texts := set l | l in v.fields :: KeyText(l);
    map t | t in texts :: if t == KeyText(k) then y else Pick(v.fields[KeyFor(v, t)])
  }

  /** And an object with that under its key, even where other keys print alike. */
  lemma RecordMay(v: Lua, k: Key, y: Json)
    requires v.Table? && !ArrayLike(v) && Convertible(v) && k in v.fields && Becomes(v.fields[k], y)
    requires forall l | l in v.fields :: HasOutcome(v.fields[l])
    ensures exists x :: Becomes(v, x) && x.Obj? && KeyText(k) in x.members && x.members[KeyText(k)] == y
  {
    hide IntToString, Becomes, Convertible, HasOutcome, ArrayLike;
    hide KeyText;
    var members := PickMembers(v, k, y);
    var x := Obj(members);
    forall t | t in members ensures MemberOutcome(v.fields, t, members[t]) {
      var l := if t == KeyText(k) then k else KeyFor(v, t);
      assert l in v.fields && KeyText(l) == t && Becomes(v.fields[l], members[t]);
    }
    TableBecomes(v, x);
  }

  lemma EmptyMay(v: Lua)
    requires v.Table? && Convertible(v) && v.fields == map[]
    ensures Becomes(v, Obj(map[]))
  {
  }

  /** Every table without bad keys has an outcome. */
  lemma {:induction false} SomeOutcome(v: Lua)
    requires Convertible(v)
    ensures HasOutcome(v)
  {
    match v
    case Nil => assert Becomes(v, Null);
    case Boolean(b) => assert Becomes(v, Bool(b));
    case Integer(i) => assert Becomes(v, Num(Int(i)));
    case Floating(f) => assert Becomes(v, Num(Float(f)));
    case String(s) => assert Becomes(v, Str(s));
    case Opaque => assert Becomes(v, Null);
    case Table(fields, others) =>
      forall k | k in fields ensures HasOutcome(fields[k]) { SomeOutcome(fields[k]); }
      if fields == map[] {
        EmptyMay(v);
      } else {
        var k :| k in fields;
        if ArrayLike(v) { ListMay(v, k, Pick(fields[k])); } else { RecordMay(v, k, Pick(fields[k])); }
      }
  }

  /** Where two keys print alike, as 1 and "1" do, the value of either may be the one that is kept. */
  lemma ClashGoesEitherWay(v: Lua, k: Key, l: Key, y: Json, z: Json)
    requires v.Table? && Convertible(v) && k in v.fields && l in v.fields && k != l && KeyText(k) == KeyText(l)
    requires Becomes(v.fields[k], y) && Becomes(v.fields[l], z)
    ensures exists x :: Becomes(v, x) && x.Obj? && KeyText(k) in x.members && x.members[KeyText(k)] == y
    ensures exists x :: Becomes(v, x) && x.Obj? && KeyText(k) in x.members && x.members[KeyText(k)] == z
  {
    if ArrayLike(v) { IntToStringInjective(k.i, l.i); }
    forall m | m in v.fields ensures HasOutcome(v.fields[m]) { SomeOutcome(v.fields[m]); }
    RecordMay(v, k, y);
    RecordMay(v, l, z);
  }

  /** How a key reads as the name of a member: an integer in decimal, a float as Lua prints it, a string as it is. */
  ghost predicate ReadsAs(k: Key, name: string) {
    || (k.IntKey? && name == IntToString(k.i))
    || (k.FloatKey? && name == k.text)
    || (k.StrKey? && name == k.s)
  }

  lemma ReadsAsIsText(k: Key, name: string)
    ensures ReadsAs(k, name) <==> KeyText(k) == name
  {
    hide IntToString;
  }

  /** The member is an outcome of the value of a key that reads as its name. */
  ghost predicate MemberFrom(fields: map<Key, Lua>, name: string, x: Json) {
    exists k :: k in fields && ReadsAs(k, name) && Becomes(fields[k], x)
  }

  lemma NamedAfterKeys(v: Lua, x: Json)
    requires v.Table? && !ArrayLike(v) && Becomes(v, x)
    ensures x.Obj? && forall k, name | k in v.fields && ReadsAs(k, name) :: name in x.members
  {
    hide IntToString, Becomes, Convertible, KeyText, ReadsAs;
    TableBecomes(v, x);
    forall k, name | k in v.fields && ReadsAs(k, name) ensures name in x.members { ReadsAsIsText(k, name); }
  }

  /** A table that is no list becomes an object with a member for every key, under the key's reading, and no others. */
  lemma RecordMembers(v: Lua, x: Json)
    requires v.Table? && !ArrayLike(v) && Becomes(v, x)
    ensures x.Obj?
    ensures forall i: I64 | IntKey(i) in v.fields :: IntToString(i) in x.members
    ensures forall id, text | FloatKey(id, text) in v.fields :: text in x.members
    ensures forall s | StrKey(s) in v.fields :: s in x.members
    ensures forall name | name in x.members :: MemberFrom(v.fields, name, x.members[name])
  {
    hide IntToString, Becomes, Convertible, KeyText, ArrayLike;
    NamedAfterKeys(v, x);
    forall i: I64 | IntKey(i) in v.fields ensures IntToString(i) in x.members {
      assert ReadsAs(IntKey(i), IntToString(i));
    }
    forall id, text | FloatKey(id, text) in v.fields ensures text in x.members {
      assert ReadsAs(FloatKey(id, text), text);
    }
    forall s | StrKey(s) in v.fields ensures s in x.members { assert ReadsAs(StrKey(s), s); }
    TableBecomes(v, x);
    hide ReadsAs;
    forall name | name in x.members ensures MemberFrom(v.fields, name, x.members[name]) {
      assert MemberOutcome(v.fields, name, x.members[name]);
      var k :| k in v.fields && KeyText(k) == name && Becomes(v.fields[k], x.members[name]);
      ReadsAsIsText(k, name);
    }
  }

  /** Where only one key reads so, the member is an outcome of that key's value. */
  lemma LoneKeyMember(v: Lua, x: Json, k: Key, name: string)
    requires v.Table? && !ArrayLike(v) && Becomes(v, x) && k in v.fields && ReadsAs(k, name)
    requires forall l | l in v.fields && ReadsAs(l, name) :: l == k
    ensures x.Obj? && name in x.members && Becomes(v.fields[k], x.members[name])
  {
    hide IntToString, Becomes, Convertible, KeyText, ArrayLike, ReadsAs;
    NamedAfterKeys(v, x);
    RecordMembers(v, x);
    assert MemberFrom(v.fields, name, x.members[name]);
  }

  /** An integer key and the string that prints it, as 1 and "1", clash: one member stands for both, with the value of
      either. */
  lemma IntegerMeetsItsText(v: Lua, i: I64, text: string, y: Json, z: Json)
    requires v.Table? && Convertible(v) && IntKey(i) in v.fields && StrKey(text) in v.fields && text == IntToString(i)
    requires Becomes(v.fields[IntKey(i)], y) && Becomes(v.fields[StrKey(text)], z)
    ensures exists x :: Becomes(v, x) && x.Obj? && text in x.members && x.members[text] == y
    ensures exists x :: Becomes(v, x) && x.Obj? && text in x.members && x.members[text] == z
  {
    hide IntToString, Becomes, Convertible, ArrayLike;
    var k, l := IntKey(i), StrKey(text);
    assert KeyText(k) == text == KeyText(l);
    hide KeyText;
    ClashGoesEitherWay(v, k, l, y, z);
  }

  lemma OneMeetsItsText(fields: map<Key, Lua>, y: Json, z: Json)
    requires Convertible(Table(fields, false)) && IntKey(1) in fields && StrKey("1") in fields
    requires Becomes(fields[IntKey(1)], y) && Becomes(fields[StrKey("1")], z)
    ensures exists x :: Becomes(Table(fields, false), x) && x.Obj? && "1" in x.members && x.members["1"] == y
    ensures exists x :: Becomes(Table(fields, false), x) && x.Obj? && "1" in x.members && x.members["1"] == z
  {
    assert IntToString(1) == "1";
    hide IntToString, Becomes, Convertible;
    IntegerMeetsItsText(Table(fields, false), 1, "1", y, z);
  }

  /** Nil and whatever has no JSON form become null, and nothing else does. */
  lemma BecomesNullIff(v: Lua)
    requires Convertible(v)
    ensures Becomes(v, Null) <==> v.Nil? || v.Opaque?
    ensures v.Nil? || v.Opaque? ==> Only(v, Null)
  {
  }

  lemma SameIntKeys(f: map<Key, Lua>, g: map<Key, Lua>)
    requires forall k | k in f || k in g :: k.IntKey?
    requires forall i: I64 :: IntKey(i) in g <==> IntKey(i) in f
    requires forall i: I64 | IntKey(i) in f :: g[IntKey(i)] == f[IntKey(i)]
    ensures f == g
  {
    forall k | k in f || k in g ensures k in f && k in g && f[k] == g[k] { assert k == IntKey(k.i); }
  }

  lemma ListBack(v: Lua, x: Json)
    requires v.Table? && ArrayLike(v) && Becomes(v, x) && WellFormed(v)
    requires forall k | k in v.fields :: Survives(v.fields[k])
    ensures JsonToLua(x) == v
  {
    hide Becomes, Convertible, JsonToLua;
    OfNull();
    TableBecomes(v, x);
    ListTable(x.items);
    var w := JsonToLua(x);
    forall i: I64 ensures IntKey(i) in w.fields <==> IntKey(i) in v.fields
      ensures IntKey(i) in w.fields ==> w.fields[IntKey(i)] == v.fields[IntKey(i)]
    {
      if IntKey(i) in v.fields {
        assert Becomes(v.fields[IntKey(i)], x.items[i - 1]);
        assert JsonToLua(x.items[i - 1]) == v.fields[IntKey(i)] != Nil;
      }
    }
    SameIntKeys(v.fields, w.fields);
  }

  lemma SameStrKeys(f: map<Key, Lua>, g: map<Key, Lua>)
    requires forall k | k in f || k in g :: k.StrKey?
    requires forall s :: StrKey(s) in g <==> StrKey(s) in f
    requires forall s | StrKey(s) in f :: g[StrKey(s)] == f[StrKey(s)]
    ensures f == g
  {
    forall k | k in f || k in g ensures k in f && k in g && f[k] == g[k] { assert k == StrKey(k.s); }
  }

  lemma AllHaveOutcomes(v: Lua)
    requires v.Table? && Convertible(v)
    ensures forall k | k in v.fields :: Convertible(v.fields[k]) && HasOutcome(v.fields[k])
  {
    forall k | k in v.fields ensures HasOutcome(v.fields[k]) { SomeOutcome(v.fields[k]); }
  }

  /** A list comes back unchanged exactly when its elements do. */
  lemma ListSurvivesIff(v: Lua)
    requires v.Table? && ArrayLike(v) && WellFormed(v)
    ensures Survives(v) <==> forall k | k in v.fields :: Survives(v.fields[k])
  {
    hide Becomes, Convertible, JsonToLua, WellFormed, HasOutcome;
    TableBecomes(v, Null);
    if forall k | k in v.fields :: Survives(v.fields[k]) {
      forall x | Becomes(v, x) ensures JsonToLua(x) == v { ListBack(v, x); }
    }
    if Survives(v) {
      AllHaveOutcomes(v);
      forall k, y | k in v.fields && Becomes(v.fields[k], y) ensures JsonToLua(y) == v.fields[k] {
        ListMay(v, k, y);
        var x :| Becomes(v, x) && x.Arr? && k.i <= |x.items| && x.items[k.i - 1] == y;
        ListTable(x.items);
        assert JsonToLua(x) == v && Present(x.items, k.i);
      }
    }
  }

  lemma RecordBack(v: Lua, x: Json)
    requires v.Table? && AllStrings(v) && Becomes(v, x) && WellFormed(v)
    requires forall k | k in v.fields :: Survives(v.fields[k])
    ensures JsonToLua(x) == v
  {
    hide IntToString, Becomes, Convertible, JsonToLua;
    OfNull();
    TableBecomes(v, x);
    assert !ArrayLike(v);
    RecordTable(x.members);
    var w := JsonToLua(x);
    forall s ensures StrKey(s) in w.fields <==> StrKey(s) in v.fields
      ensures StrKey(s) in w.fields ==> w.fields[StrKey(s)] == v.fields[StrKey(s)]
    {
      assert KeyText(StrKey(s)) == s;
      if s in x.members {
        assert MemberOutcome(v.fields, s, x.members[s]);
        var k :| k in v.fields && KeyText(k) == s && Becomes(v.fields[k], x.members[s]);
        assert k == StrKey(s) && JsonToLua(x.members[s]) == v.fields[k] != Nil;
      }
    }
    SameStrKeys(v.fields, w.fields);
  }

  lemma RecordKeysOfSurvivor(v: Lua)
    requires v.Table? && !ArrayLike(v) && Survives(v)
    ensures AllStrings(v)
  {
    hide IntToString, Becomes, Convertible, JsonToLua, HasOutcome;
    SomeOutcome(v);
    var x := Pick(v);
    TableBecomes(v, x);
    RecordTable(x.members);
    assert x == Obj(x.members) && JsonToLua(x) == v;
  }

  /** Any other table does exactly when its keys are strings and its members do. */
  lemma RecordSurvivesIff(v: Lua)
    requires v.Table? && !ArrayLike(v) && WellFormed(v)
    ensures Survives(v) <==> !v.others && AllStrings(v) && forall k | k in v.fields :: Survives(v.fields[k])
  {
    hide IntToString, Becomes, Convertible, JsonToLua, WellFormed, HasOutcome;
    TableBecomes(v, Null);
    if !v.others && AllStrings(v) && forall k | k in v.fields :: Survives(v.fields[k]) {
      forall x | Becomes(v, x) ensures JsonToLua(x) == v { RecordBack(v, x); }
    }
    if Survives(v) {
      AllHaveOutcomes(v);
      RecordKeysOfSurvivor(v);
      forall k, y | k in v.fields && Becomes(v.fields[k], y) ensures JsonToLua(y) == v.fields[k] {
        RecordMay(v, k, y);
        var z :| Becomes(v, z) && z.Obj? && KeyText(k) in z.members && z.members[KeyText(k)] == y;
        RecordTable(z.members);
        assert JsonToLua(z) == v && k == StrKey(KeyText(k));
      }
    }
  }

  /** Exactly the plain values come back from JSON as they were. */
  lemma {:induction false} SurvivesIff(v: Lua)
    requires WellFormed(v)
    ensures Survives(v) <==> Plain(v)
  {
    if v.Table? {
      forall k | k in v.fields ensures Survives(v.fields[k]) <==> Plain(v.fields[k]) { SurvivesIff(v.fields[k]); }
      if ArrayLike(v) {
        ListSurvivesIff(v);
      } else {
        RecordSurvivesIff(v);
        assert AllPositive(v) && !v.others ==> v.fields == map[];
      }
    } else {
      SomeOutcome(v);
    }
  }

  // ----- The converters as they run: tables, arrays and maps filled in loops -----

  method ConvertToLua(j: Json) returns (v: Lua)
    requires Fits(j)
    ensures v == JsonToLua(j)
    decreases j, 1
  {
    match j
    case Null =>
      v := Nil;
    case Bool(b) =>
      v := Boolean(b);
    case Num(n) =>
      match n {
        case Int(i) => v := Integer(i);
        case BigUnsigned(u) => v := Floating(NearestFloat(u));
        case Float(f) => v := Floating(f);
      }
    case Str(s) =>
      v := String(s);
    case Arr(items) =>
      v := ConvertArray(j);
    case Obj(members) =>
      v := ConvertObject(j);
  }

  lemma NilIff(j: Json)
    ensures JsonToLua(j) == Nil <==> j == Null
  {
  }

  method ConvertArray(j: Json) returns (v: Lua)
    requires j.Arr? && Fits(j)
    ensures v == JsonToLua(j)
    decreases j, 0
  {
    hide JsonToLua;
    var items := j.items;
    ListTable(items);
    var table: map<Key, Lua> := map[];
    for i := 0 to |items|
      invariant forall k :: k in table <==> k.IntKey? && k.i <= i && Present(items, k.i)
      invariant forall k | k in table :: table[k] == JsonToLua(items[k.i - 1])
    {
      var item := ConvertToLua(items[i]);
      NilIff(items[i]);
      if item != Nil {
        table := table[IntKey(i + 1) := item];
      }
    }
    assert j == Arr(items) && table == JsonToLua(j).fields;
    v := Table(table, false);
  }

  method ConvertObject(j: Json) returns (v: Lua)
    requires j.Obj? && Fits(j)
    ensures v == JsonToLua(j)
    decreases j, 0
  {
    hide JsonToLua;
    var members := j.members;
    RecordTable(members);
    var table: map<Key, Lua> := map[];
    var left := members.Keys;
    while left != {}
      invariant left <= members.Keys
      invariant forall k :: k in table <==> k.StrKey? && k.s in members && k.s !in left && members[k.s] != Null
      invariant forall k | k in table :: table[k] == JsonToLua(members[k.s])
      decreases left
    {
      var k :| k in left;
      var member := ConvertToLua(members[k]);
      NilIff(members[k]);
      if member != Nil {
        table := table[StrKey(k) := member];
      }
      left := left - {k};
    }
    assert j == Obj(members) && table == JsonToLua(j).fields;
    v := Table(table, false);
  }

  /** The first pass over the keys. */
  method Scan(v: Lua) returns (isArray: bool, maxIndex: I64)
    requires v.Table?
    ensures maxIndex >= 0
    ensures isArray && maxIndex > 0 <==> ArrayLike(v)
    ensures ArrayLike(v) ==> maxIndex == MaxIndex(v)
  {
    isArray, maxIndex := !v.others, 0;
    var left := v.fields.Keys;
    while left != {}
      invariant left <= v.fields.Keys && maxIndex >= 0
      invariant isArray <==> !v.others && forall k | k in v.fields && k !in left :: k.IntKey? && k.i > 0
      invariant forall k | k in v.fields && k !in left && k.IntKey? :: k.i <= maxIndex
      invariant maxIndex > 0 ==> IntKey(maxIndex) in v.fields
      decreases left
    {
      var k :| k in left;
      if k.IntKey? {
        if k.i > 0 {
          maxIndex := if maxIndex < k.i then k.i else maxIndex;
        } else {
          isArray := false;
        }
      } else {
        isArray := false;
      }
      left := left - {k};
    }
  }

  method ConvertToJson(v: Lua) returns (result: Result<Json, ConversionError>)
    ensures result.Ok? <==> Convertible(v)
    ensures result.Ok? ==> Becomes(v, result.value)
    decreases v, 1
  {
    match v
    case Nil =>
      result := Ok(Null);
    case Boolean(b) =>
      result := Ok(Bool(b));
    case Integer(i) =>
      result := Ok(Num(Int(i)));
    case Floating(f) =>
      result := Ok(Num(Float(f)));
    case String(s) =>
      result := Ok(Str(s));
    case Opaque =>
      result := Ok(Null);
    case Table(fields, others) =>
      var isArray, maxIndex := Scan(v);
      if isArray && maxIndex > 0 {
        result := ConvertItems(v);
      } else {
        result := ConvertMembers(v);
      }
  }

  method ConvertItems(v: Lua) returns (result: Result<Json, ConversionError>)
    requires v.Table? && ArrayLike(v)
    ensures result.Ok? <==> Convertible(v)
    ensures result.Ok? ==> Becomes(v, result.value)
    decreases v, 0
  {
    var maxIndex := MaxIndex(v);
    var items := [];
    for i := 0 to maxIndex
      invariant |items| == i
      invariant forall j: I64 | 1 <= j <= i ::
        if IntKey(j) in v.fields
        then Convertible(v.fields[IntKey(j)]) && Becomes(v.fields[IntKey(j)], items[j - 1])
        else items[j - 1] == Null
    {
      var item := Ok(Null);
      if IntKey(i + 1) in v.fields {
        item := ConvertToJson(v.fields[IntKey(i + 1)]);
      }
      if item.Err? {
        return Err(item.error);
      }
      items := items + [item.value];
    }
    assert forall k | k in v.fields :: k == IntKey(k.i) && Convertible(v.fields[k]);
    result := Ok(Arr(items));
  }

  /** The second pass, in any order: a key that prints like an earlier one takes its place. */
  method ConvertMembers(v: Lua) returns (result: Result<Json, ConversionError>)
    requires v.Table? && !ArrayLike(v)
    ensures result.Ok? <==> Convertible(v)
    ensures result.Ok? ==> Becomes(v, result.value)
    decreases v, 0
  {
    if v.others {
      return Err(BadKey);
    }
    var members: map<string, Json> := map[];
    var left := v.fields.Keys;
    while left != {}
      invariant left <= v.fields.Keys
      invariant forall k | k in v.fields && k !in left :: Convertible(v.fields[k]) && KeyText(k) in members
      invariant forall t | t in members ::
        exists k :: k in v.fields && KeyText(k) == t && Becomes(v.fields[k], members[t])
      decreases left
    {
      var k :| k in left;
      var member := ConvertToJson(v.fields[k]);
      if member.Err? {
        return Err(BadKey);
      }
      members := members[KeyText(k) := member.value];
      left := left - {k};
    }
    result := Ok(Obj(members));
  }
}
