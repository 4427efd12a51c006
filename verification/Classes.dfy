/** Class inheritance (mudd/src/objects/class.rs:95-246): chains of parents, and what a class inherits. */
module Classes {
  import opened Wrappers

  /** Default values are JSON text. */
  datatype ClassDef = ClassDef(name: string, parent: Option<string>, properties: map<string, string>,
                               handlers: seq<string>)

  type Registry = map<string, ClassDef>

  /** A class is stored under its own name, whatever was there before. */
  function Register(r: Registry, c: ClassDef): Registry { r[c.name := c] }

  ghost predicate Named(r: Registry) {
    forall n | n in r :: r[n].name == n
  }

  /** Every named parent is registered. */
  ghost predicate Closed(r: Registry) {
    forall n | n in r && r[n].parent.Some? :: r[n].parent.value in r
  }

  // ----- Walking up -----

  predicate HasNext(r: Registry, n: string) { n in r && r[n].parent.Some? }

  /** The walk up from `n` stops within `k` rounds. */
  predicate Stops(r: Registry, n: string, k: nat)
    decreases k
  {
    !HasNext(r, n) || (k > 0 && Stops(r, r[n].parent.value, k - 1))
  }

  ghost predicate Terminates(r: Registry, n: string) {
    exists k: nat :: Stops(r, n, k)
  }

  ghost predicate WellFounded(r: Registry) {
    forall n :: Terminates(r, n)
  }

  function NamesWithin(r: Registry, n: string, k: nat): seq<string>
    requires Stops(r, n, k)
    decreases k
  {
    if HasNext(r, n) then [n] + NamesWithin(r, r[n].parent.value, k - 1) else [n]
  }

  /** Every name that the walk up from `n` looks up; the last one may be unregistered. */
  ghost function Names(r: Registry, n: string): seq<string>
    requires Terminates(r, n)
  {
    var k: nat :| Stops(r, n, k);
    NamesWithin(r, n, k)
  }

  lemma {:induction false} NamesIgnoreBound(r: Registry, n: string, k: nat, k': nat)
    requires Stops(r, n, k) && Stops(r, n, k')
    ensures NamesWithin(r, n, k) == NamesWithin(r, n, k')
    decreases k
  {
    if HasNext(r, n) { NamesIgnoreBound(r, r[n].parent.value, k - 1, k' - 1); }
  }

  lemma NamesAt(r: Registry, n: string, k: nat)
    requires Stops(r, n, k)
    ensures Terminates(r, n) && Names(r, n) == NamesWithin(r, n, k)
  {
    var other: nat :| Stops(r, n, other) && Names(r, n) == NamesWithin(r, n, other);
    NamesIgnoreBound(r, n, k, other);
  }

  lemma NamesUnfold(r: Registry, n: string)
    requires Terminates(r, n)
    ensures HasNext(r, n) ==>
              Terminates(r, r[n].parent.value) && Names(r, n) == [n] + Names(r, r[n].parent.value)
    ensures !HasNext(r, n) ==> Names(r, n) == [n]
  {
    var k: nat :| Stops(r, n, k);
    NamesAt(r, n, k);
    if HasNext(r, n) { NamesAt(r, r[n].parent.value, k - 1); }
  }

  /** A walk that stops from the parent stops from the child. */
  lemma TerminatesFromParent(r: Registry, n: string)
    requires HasNext(r, n) ==> Terminates(r, r[n].parent.value)
    ensures Terminates(r, n)
  {
    if HasNext(r, n) {
      var k: nat :| Stops(r, r[n].parent.value, k);
      assert Stops(r, n, k + 1);
    } else {
      assert Stops(r, n, 0);
    }
  }

  // ----- Cycles -----

  /** The name `k` links above `n`. */
  function Above(r: Registry, n: string, k: nat): Option<string>
    decreases k
  {
    if k == 0 then Some(n)
    else if HasNext(r, n) then Above(r, r[n].parent.value, k - 1)
    else None
  }

  ghost predicate Reaches(r: Registry, a: string, b: string) {
    exists k: nat :: k > 0 && Above(r, a, k) == Some(b)
  }

  /** Some class is its own proper ancestor. */
  ghost predicate HasCycle(r: Registry) {
    exists n :: Reaches(r, n, n)
  }

  lemma {:induction false} AboveNext(r: Registry, n: string, k: nat)
    ensures Above(r, n, k + 1) == match Above(r, n, k)
                                  case None => None
                                  case Some(m) => if HasNext(r, m) then r[m].parent else None
    decreases k
  {
    if k > 0 && HasNext(r, n) { AboveNext(r, r[n].parent.value, k - 1); }
  }

  lemma {:induction false} AboveIsShorter(r: Registry, a: string, b: string, k: nat)
    requires Terminates(r, a) && Above(r, a, k) == Some(b)
    ensures Terminates(r, b) && |Names(r, b)| + k == |Names(r, a)|
    decreases k
  {
    NamesUnfold(r, a);
    if k > 0 { AboveIsShorter(r, r[a].parent.value, b, k - 1); }
  }

  /** Every step of the walk uses up a registered name. */
  lemma {:induction false} NoCycleStops(r: Registry, n: string, seen: set<string>)
    requires !HasCycle(r)
    requires forall m | m in seen :: m in r && Reaches(r, m, n)
    ensures Terminates(r, n)
    decreases |r.Keys - seen|
  {
    if HasNext(r, n) {
      assert !Reaches(r, n, n);
      var p := r[n].parent.value;
      forall m | m in seen + {n} ensures m in r && Reaches(r, m, p) {
        if m == n {
          assert Above(r, n, 1) == Some(p);
        } else {
          var k: nat :| k > 0 && Above(r, m, k) == Some(n);
          AboveNext(r, m, k);
        }
      }
      assert n in r.Keys - seen;
      assert r.Keys - (seen + {n}) == (r.Keys - seen) - {n};
      NoCycleStops(r, p, seen + {n});
    }
    TerminatesFromParent(r, n);
  }

  /** `get_chain` returns for every name exactly when no class is its own proper ancestor. */
  lemma TerminatesIffNoCycle(r: Registry)
    ensures WellFounded(r) <==> !HasCycle(r)
  {
    if HasCycle(r) {
      var n :| Reaches(r, n, n);
      var k: nat :| k > 0 && Above(r, n, k) == Some(n);
      if Terminates(r, n) { AboveIsShorter(r, n, n, k); }
    } else {
      forall n ensures Terminates(r, n) { NoCycleStops(r, n, {}); }
    }
  }

  // ----- Registering -----

  /** The names above an untouched walk are looked up as before. */
  lemma {:induction false} WalkUnchanged(r: Registry, c: ClassDef, n: string)
    requires Terminates(r, n) && c.name !in Names(r, n)
    ensures Terminates(Register(r, c), n) && Names(Register(r, c), n) == Names(r, n)
    decreases |Names(r, n)|
  {
    NamesUnfold(r, n);
    assert n in Names(r, n);
    if HasNext(r, n) {
      var p := r[n].parent.value;
      assert forall m | m in Names(r, p) :: m in Names(r, n);
      WalkUnchanged(r, c, p);
    }
    TerminatesFromParent(Register(r, c), n);
    NamesUnfold(Register(r, c), n);
  }

  lemma {:induction false} StillTerminates(r: Registry, c: ClassDef, n: string)
    requires Terminates(r, n) && Terminates(Register(r, c), c.name)
    ensures Terminates(Register(r, c), n)
    decreases |Names(r, n)|
  {
    if n != c.name {
      NamesUnfold(r, n);
      if HasNext(r, n) { StillTerminates(r, c, r[n].parent.value); }
      TerminatesFromParent(Register(r, c), n);
    }
  }

  /** Walking from `n` to `c` costs at least as many names as starting at `c`. */
  lemma {:induction false} WalkPassesClass(r: Registry, c: ClassDef, n: string)
    requires Terminates(r, n) && c.name in Names(r, n)
    requires Terminates(Register(r, c), n)
    ensures Terminates(Register(r, c), c.name)
    ensures |Names(Register(r, c), c.name)| <= |Names(Register(r, c), n)|
    decreases |Names(r, n)|
  {
    if n != c.name {
      NamesUnfold(r, n);
      NamesUnfold(Register(r, c), n);
      WalkPassesClass(r, c, r[n].parent.value);
    }
  }

  /** Registering keeps every walk finite exactly when the walk from the new parent does not look the class up.
      The looked-up names count, not only the registered ones: a class can close a cycle that an unregistered
      parent left open. */
  lemma RegisterKeepsWellFoundedIff(r: Registry, c: ClassDef)
    requires WellFounded(r)
    ensures WellFounded(Register(r, c)) <==> c.parent.None? || c.name !in Names(r, c.parent.value)
  {
    var r' := Register(r, c);
    if c.parent.None? || c.name !in Names(r, c.parent.value) {
      if c.parent.Some? { WalkUnchanged(r, c, c.parent.value); }
      TerminatesFromParent(r', c.name);
      forall n ensures Terminates(r', n) { StillTerminates(r, c, n); }
    } else if WellFounded(r') {
      WalkPassesClass(r, c, c.parent.value);
      NamesUnfold(r', c.name);
    }
  }

  // ----- Chains -----

  /** What `get_chain` returns: the registered names of the walk, child first. */
  ghost function Chain(r: Registry, n: string): seq<string>
    requires Terminates(r, n)
  {
    NamesUnfold(r, n);
    var names := Names(r, n);
    if names[|names| - 1] in r then names else names[..|names| - 1]
  }

  lemma ChainUnfolds(r: Registry, n: string)
    requires Terminates(r, n)
    ensures n !in r ==> Chain(r, n) == []
    ensures n in r && !HasNext(r, n) ==> Chain(r, n) == [n]
    ensures HasNext(r, n) ==> Terminates(r, r[n].parent.value) && Chain(r, n) == [n] + Chain(r, r[n].parent.value)
  {
    NamesUnfold(r, n);
    if HasNext(r, n) { NamesUnfold(r, r[n].parent.value); }
  }

  /** The loop of `get_chain` has looked up `chain` and goes on at `current`. */
  ghost predicate Collecting(r: Registry, n: string, chain: seq<string>, current: string) {
    Named(r) && Terminates(r, n) && Terminates(r, current) && Names(r, n) == chain + Names(r, current)
  }

  ghost function RoundsLeft(r: Registry, n: string): nat { if Terminates(r, n) then |Names(r, n)| else 0 }

  /** One round of the loop. */
  lemma CollectOne(r: Registry, n: string, chain: seq<string>, current: string)
    requires Collecting(r, n, chain, current) && HasNext(r, current)
    ensures var p := r[current].parent.value;
            Collecting(r, n, chain + [r[current].name], p) && RoundsLeft(r, p) < RoundsLeft(r, current)
  {
    NamesUnfold(r, current);
    var rest := Names(r, r[current].parent.value);
    assert chain + ([current] + rest) == (chain + [current]) + rest;
  }

  /** The last round. */
  lemma CollectLast(r: Registry, n: string, chain: seq<string>, current: string)
    requires Collecting(r, n, chain, current) && !HasNext(r, current)
    ensures Chain(r, n) == if current in r then chain + [r[current].name] else chain
  {
    NamesUnfold(r, current);
  }

  /** The chain holds registered names only, without repetition. */
  lemma {:induction false} ChainDistinct(r: Registry, n: string)
    requires Terminates(r, n)
    ensures forall m | m in Chain(r, n) :: m in r && Terminates(r, m) && |Chain(r, m)| <= |Chain(r, n)|
    ensures forall i, j | 0 <= i < j < |Chain(r, n)| :: Chain(r, n)[i] != Chain(r, n)[j]
    decreases |Names(r, n)|
  {
    ChainUnfolds(r, n);
    NamesUnfold(r, n);
    if HasNext(r, n) { ChainDistinct(r, r[n].parent.value); }
  }

  lemma {:induction false} ClosedChain(r: Registry, n: string)
    requires Closed(r) && n in r && Terminates(r, n)
    ensures Chain(r, n) == Names(r, n)
    decreases |Names(r, n)|
  {
    ChainUnfolds(r, n);
    NamesUnfold(r, n);
    if HasNext(r, n) { ClosedChain(r, r[n].parent.value); }
  }

  ghost predicate IsA(r: Registry, child: string, ancestor: string)
    requires Terminates(r, child)
  {
    ancestor in Chain(r, child)
  }

  lemma {:induction false} AncestorChain(r: Registry, a: string, b: string)
    requires Terminates(r, a) && IsA(r, a, b)
    ensures Terminates(r, b) && b in r && a in r
    ensures forall m | m in Chain(r, b) :: m in Chain(r, a)
    ensures forall m | m in Chain(r, a) :: m in Chain(r, b) || (Terminates(r, m) && IsA(r, m, b))
    ensures if a == b then |Chain(r, b)| == |Chain(r, a)| else |Chain(r, b)| < |Chain(r, a)|
    decreases |Names(r, a)|
  {
    ChainUnfolds(r, a);
    NamesUnfold(r, a);
    if a != b { AncestorChain(r, r[a].parent.value, b); }
  }

  /** `is_a` is a partial order on the registered classes ... */
  lemma IsAPartialOrder(r: Registry, a: string, b: string, c: string)
    requires WellFounded(r)
    ensures a in r <==> IsA(r, a, a)
    ensures IsA(r, a, b) && IsA(r, b, a) ==> a == b
    ensures IsA(r, a, b) && IsA(r, b, c) ==> IsA(r, a, c)
  {
    ChainUnfolds(r, a);
    ChainDistinct(r, a);
    if IsA(r, a, b) { AncestorChain(r, a, b); }
    if IsA(r, b, a) { AncestorChain(r, b, a); }
  }

  /** ... and the ancestors of one class are in line: inheritance is single. */
  lemma AncestorsInLine(r: Registry, a: string, b: string, c: string)
    requires WellFounded(r) && IsA(r, a, b) && IsA(r, a, c)
    ensures IsA(r, b, c) || IsA(r, c, b)
  {
    AncestorChain(r, a, b);
  }

  // ----- Registries that stay well founded -----

  /** The discipline that `register` leaves to its callers. */
  ghost predicate Admits(r: Registry, c: ClassDef)
    requires WellFounded(r)
  {
    c.parent.None? || (c.parent.value in r && !IsA(r, c.parent.value, c.name))
  }

  /** Under a registered parent, exactly the parent's own ancestors (and the parent) are refused. */
  lemma RegisterUnderRegistered(r: Registry, c: ClassDef)
    requires WellFounded(r) && Closed(r)
    requires c.parent.Some? ==> c.parent.value in r
    ensures WellFounded(Register(r, c)) <==> Admits(r, c)
    ensures Closed(Register(r, c))
  {
    if c.parent.Some? { ClosedChain(r, c.parent.value); }
    RegisterKeepsWellFoundedIff(r, c);
  }

  ghost predicate AdmitsAll(r: Registry, cs: seq<ClassDef>)
    requires WellFounded(r) && Closed(r)
    decreases |cs|
  {
    cs == [] || (Admits(r, cs[0]) && (RegisterUnderRegistered(r, cs[0]); AdmitsAll(Register(r, cs[0]), cs[1..])))
  }

  function RegisterAll(r: Registry, cs: seq<ClassDef>): Registry
    decreases |cs|
  {
    if cs == [] then r else RegisterAll(Register(r, cs[0]), cs[1..])
  }

  lemma {:induction false} RunKeepsWellFounded(r: Registry, cs: seq<ClassDef>)
    requires WellFounded(r) && Closed(r) && AdmitsAll(r, cs)
    ensures WellFounded(RegisterAll(r, cs)) && Closed(RegisterAll(r, cs))
    decreases |cs|
  {
    if cs != [] {
      RegisterUnderRegistered(r, cs[0]);
      RunKeepsWellFounded(Register(r, cs[0]), cs[1..]);
    }
  }

  // ----- What a class inherits -----

  function Own(r: Registry, n: string): map<string, string> { if n in r then r[n].properties else map[] }

  /** The root's properties first, each descendant's laid over them. */
  function Overlay(r: Registry, chain: seq<string>): map<string, string> {
    if chain == [] then map[] else Overlay(r, chain[1..]) + Own(r, chain[0])
  }

  ghost function Inherited(r: Registry, n: string): map<string, string>
    requires Terminates(r, n)
  {
    Overlay(r, Chain(r, n))
  }

  ghost predicate Defines(r: Registry, a: string, k: string) { a in r && k in r[a].properties }

  ghost predicate NearestDefinition(r: Registry, chain: seq<string>, k: string, i: nat) {
    i < |chain| && Defines(r, chain[i], k) && forall j | 0 <= j < i :: !Defines(r, chain[j], k)
  }

  lemma {:induction false} OverlayIsNearest(r: Registry, chain: seq<string>, k: string)
    ensures k in Overlay(r, chain) <==> exists i | 0 <= i < |chain| :: Defines(r, chain[i], k)
    ensures k in Overlay(r, chain) ==>
              exists i: nat :: NearestDefinition(r, chain, k, i) && Overlay(r, chain)[k] == r[chain[i]].properties[k]
  {
    if chain != [] {
      var rest := chain[1..];
      assert forall j | 0 < j < |chain| :: chain[j] == rest[j - 1];
      OverlayIsNearest(r, rest, k);
      if Defines(r, chain[0], k) {
        assert NearestDefinition(r, chain, k, 0);
      } else if k in Overlay(r, rest) {
        var i: nat :| NearestDefinition(r, rest, k, i) && Overlay(r, rest)[k] == r[rest[i]].properties[k];
        assert NearestDefinition(r, chain, k, i + 1);
      }
    }
  }

  /** A class has a property exactly when it or an ancestor defines it, with the nearest definition's value. */
  lemma InheritedIsNearest(r: Registry, n: string, k: string)
    requires Terminates(r, n)
    ensures k in Inherited(r, n) <==> exists a :: IsA(r, n, a) && Defines(r, a, k)
    ensures k in Inherited(r, n) ==>
              exists i: nat ::
                NearestDefinition(r, Chain(r, n), k, i) && Inherited(r, n)[k] == r[Chain(r, n)[i]].properties[k]
  {
    OverlayIsNearest(r, Chain(r, n), k);
    if k in Inherited(r, n) {
      var i :| 0 <= i < |Chain(r, n)| && Defines(r, Chain(r, n)[i], k);
      assert IsA(r, n, Chain(r, n)[i]);
    }
  }

  /** Its own properties over its parent's. */
  lemma InheritedUnfolds(r: Registry, n: string)
    requires Terminates(r, n)
    ensures n !in r ==> Inherited(r, n) == map[]
    ensures n in r && !HasNext(r, n) ==> Inherited(r, n) == r[n].properties
    ensures HasNext(r, n) ==> Terminates(r, r[n].parent.value)
                              && Inherited(r, n) == Inherited(r, r[n].parent.value) + r[n].properties
  {
    ChainUnfolds(r, n);
    if HasNext(r, n) {
      assert Chain(r, n)[1..] == Chain(r, r[n].parent.value);
    } else if n in r {
      assert [n][1..] == [] && Overlay(r, []) == map[];
      assert map[] + r[n].properties == r[n].properties;
    }
  }

  function OwnHandlers(r: Registry, n: string): seq<string> { if n in r then r[n].handlers else [] }

  function AllHandlers(r: Registry, chain: seq<string>): seq<string> {
    if chain == [] then [] else AllHandlers(r, chain[..|chain| - 1]) + OwnHandlers(r, chain[|chain| - 1])
  }

  /** First occurrences only. */
  function Distinct(s: seq<string>): (d: seq<string>) {
    if s == [] then []
    else
      var d := Distinct(s[..|s| - 1]);
      if s[|s| - 1] in d then d else d + [s[|s| - 1]]
  }

  function FirstIndex(s: seq<string>, x: string): (i: nat)
    requires x in s
    ensures i < |s| && s[i] == x && forall j | 0 <= j < i :: s[j] != x
  {
    if s[0] == x then 0 else 1 + FirstIndex(s[1..], x)
  }

  lemma FirstIndexOfPrefix(s: seq<string>, t: seq<string>, x: string)
    requires x in s
    ensures FirstIndex(s + t, x) == FirstIndex(s, x)
  {
    assert (s + t)[FirstIndex(s, x)] == x;
    assert forall j | 0 <= j < |s| :: (s + t)[j] == s[j];
  }

  /** The same elements, each once, in order of first occurrence. */
  lemma {:induction false} DistinctIsUnion(s: seq<string>)
    ensures forall x :: x in Distinct(s) <==> x in s
    ensures forall i, j | 0 <= i < j < |Distinct(s)| :: FirstIndex(s, Distinct(s)[i]) < FirstIndex(s, Distinct(s)[j])
  {
    if s != [] {
      var front, last := s[..|s| - 1], s[|s| - 1];
      DistinctIsUnion(front);
      assert s == front + [last];
      forall x | x in front ensures FirstIndex(s, x) == FirstIndex(front, x) { FirstIndexOfPrefix(front, [last], x); }
    }
  }

  ghost function InheritedHandlers(r: Registry, n: string): seq<string>
    requires Terminates(r, n)
  {
    Distinct(AllHandlers(r, Chain(r, n)))
  }

  lemma {:induction false} AllHandlersOf(r: Registry, chain: seq<string>, h: string)
    ensures h in AllHandlers(r, chain) <==> exists i | 0 <= i < |chain| :: h in OwnHandlers(r, chain[i])
  {
    if chain != [] {
      var front := chain[..|chain| - 1];
      AllHandlersOf(r, front, h);
      assert forall i | 0 <= i < |front| :: front[i] == chain[i];
      assert AllHandlers(r, chain) == AllHandlers(r, front) + OwnHandlers(r, chain[|chain| - 1]);
    }
  }

  /** Every handler of the class and its ancestors, once. */
  lemma HandlersAreUnion(r: Registry, n: string, h: string)
    requires Terminates(r, n)
    ensures h in InheritedHandlers(r, n) <==> exists a :: IsA(r, n, a) && a in r && h in r[a].handlers
    ensures forall i, j | 0 <= i < j < |InheritedHandlers(r, n)| ::
              InheritedHandlers(r, n)[i] != InheritedHandlers(r, n)[j]
  {
    var chain := Chain(r, n);
    DistinctIsUnion(AllHandlers(r, chain));
    AllHandlersOf(r, chain, h);
    if h in InheritedHandlers(r, n) {
      var i :| 0 <= i < |chain| && h in OwnHandlers(r, chain[i]);
      assert IsA(r, n, chain[i]);
    }
    if a :| IsA(r, n, a) && a in r && h in r[a].handlers {
      var i :| 0 <= i < |chain| && chain[i] == a;
      assert h in OwnHandlers(r, chain[i]);
    }
  }

  /** The list without the seen ones. */
  function Unseen(s: seq<string>, seen: seq<string>): seq<string> {
    if s == [] then []
    else Unseen(s[..|s| - 1], seen) + if s[|s| - 1] in seen then [] else [s[|s| - 1]]
  }

  lemma {:induction false} DistinctConcat(a: seq<string>, b: seq<string>)
    ensures Distinct(a + b) == Distinct(a) + Unseen(Distinct(b), a)
    decreases |b|
  {
    if b == [] {
      assert a + b == a;
    } else {
      var front, last := b[..|b| - 1], b[|b| - 1];
      assert (a + b)[..|a + b| - 1] == a + front;
      DistinctConcat(a, front);
      DistinctIsUnion(a + front);
      DistinctIsUnion(front);
      var d := Distinct(front);
      if last !in d { assert (d + [last])[..|d|] == d; }
    }
  }

  lemma {:induction false} AllHandlersConcat(r: Registry, a: seq<string>, b: seq<string>)
    ensures AllHandlers(r, a + b) == AllHandlers(r, a) + AllHandlers(r, b)
    decreases |b|
  {
    if b == [] {
      assert a + b == a;
    } else {
      assert (a + b)[..|a + b| - 1] == a + b[..|b| - 1];
      AllHandlersConcat(r, a, b[..|b| - 1]);
    }
  }

  /** A class's own handlers come first, in their order; behind them, in its order, what its parent has besides. */
  lemma OwnHandlersFirst(r: Registry, n: string)
    requires Terminates(r, n)
    ensures n !in r ==> InheritedHandlers(r, n) == []
    ensures n in r && !HasNext(r, n) ==> InheritedHandlers(r, n) == Distinct(r[n].handlers)
    ensures HasNext(r, n) ==>
              && Terminates(r, r[n].parent.value)
              && InheritedHandlers(r, n)
                 == Distinct(r[n].handlers) + Unseen(InheritedHandlers(r, r[n].parent.value), r[n].handlers)
  {
    assert Distinct([]) == [];
    hide Distinct, Unseen;
    ChainUnfolds(r, n);
    assert [n][..0] == [] && AllHandlers(r, [n]) == OwnHandlers(r, n);
    if HasNext(r, n) {
      var above := Chain(r, r[n].parent.value);
      AllHandlersConcat(r, [n], above);
      DistinctConcat(OwnHandlers(r, n), AllHandlers(r, above));
    }
  }

  lemma {:induction false} SameOverlay(r: Registry, r': Registry, chain: seq<string>)
    requires forall m | m in chain :: Own(r, m) == Own(r', m) && OwnHandlers(r, m) == OwnHandlers(r', m)
    ensures Overlay(r, chain) == Overlay(r', chain) && AllHandlers(r, chain) == AllHandlers(r', chain)
  {
    if chain != [] {
      assert chain[0] in chain && chain[|chain| - 1] in chain;
      SameOverlay(r, r', chain[1..]);
      SameOverlay(r, r', chain[..|chain| - 1]);
    }
  }

  /** Registering a class that the walk from `n` does not look up changes nothing for `n`. */
  lemma RegisterElsewhere(r: Registry, c: ClassDef, n: string)
    requires Terminates(r, n) && c.name !in Names(r, n)
    ensures var r' := Register(r, c);
            && Terminates(r', n) && Chain(r', n) == Chain(r, n)
            && Inherited(r', n) == Inherited(r, n) && InheritedHandlers(r', n) == InheritedHandlers(r, n)
  {
    WalkUnchanged(r, c, n);
    var r' := Register(r, c);
    NamesUnfold(r, n);
    var chain := Chain(r, n);
    assert forall m | m in chain :: m in Names(r, n);
    SameOverlay(r, r', chain);
  }

  // ----- The base classes -----

  predicate HasName(cs: seq<ClassDef>, n: string) {
    exists i | 0 <= i < |cs| :: cs[i].name == n
  }

  /** Each class is new and its parent came earlier. */
  predicate InOrder(cs: seq<ClassDef>) {
    forall i | 0 <= i < |cs| ::
      && !HasName(cs[..i], cs[i].name)
      && (cs[i].parent.Some? ==> HasName(cs[..i], cs[i].parent.value))
  }

  lemma {:induction false} RegisterAllSplits(r: Registry, cs: seq<ClassDef>, last: ClassDef)
    ensures RegisterAll(r, cs + [last]) == Register(RegisterAll(r, cs), last)
    decreases |cs|
  {
    if cs != [] {
      assert (cs + [last])[1..] == cs[1..] + [last];
      RegisterAllSplits(Register(r, cs[0]), cs[1..], last);
    }
  }

  lemma {:induction false} RegisteredNames(cs: seq<ClassDef>, n: string)
    ensures n in RegisterAll(map[], cs) <==> HasName(cs, n)
    decreases |cs|
  {
    if cs != [] {
      var front, last := cs[..|cs| - 1], cs[|cs| - 1];
      RegisteredNames(front, n);
      assert cs == front + [last];
      RegisterAllSplits(map[], front, last);
      assert forall i | 0 <= i < |front| :: front[i] == cs[i];
    }
  }

  lemma NewClassIsSafe(r: Registry, cs: seq<ClassDef>, c: ClassDef)
    requires r == RegisterAll(map[], cs) && WellFounded(r) && Closed(r)
    requires !HasName(cs, c.name) && (c.parent.Some? ==> HasName(cs, c.parent.value))
    ensures WellFounded(Register(r, c)) && Closed(Register(r, c))
  {
    RegisteredNames(cs, c.name);
    if c.parent.Some? {
      RegisteredNames(cs, c.parent.value);
      ChainDistinct(r, c.parent.value);
    }
    RegisterUnderRegistered(r, c);
  }

  /** Registering new classes parents first is always safe. */
  lemma {:induction false} InOrderIsWellFounded(cs: seq<ClassDef>)
    requires InOrder(cs)
    ensures WellFounded(RegisterAll(map[], cs)) && Closed(RegisterAll(map[], cs))
    decreases |cs|
  {
    if cs == [] {
      forall n ensures Terminates(map[], n) { TerminatesFromParent(map[], n); }
    } else {
      var front, last := cs[..|cs| - 1], cs[|cs| - 1];
      assert InOrder(front) by {
        assert forall i | 0 <= i < |front| :: front[i] == cs[i] && front[..i] == cs[..i];
      }
      InOrderIsWellFounded(front);
      assert cs == front + [last];
      RegisterAllSplits(map[], front, last);
      NewClassIsSafe(RegisterAll(map[], front), front, last);
    }
  }

  const BASE_COUNT: nat := 10

  function BaseName(i: nat): string
    requires i < BASE_COUNT
  {
    match i
    case 0 => "thing"
    case 1 => "item"
    case 2 => "living"
    case 3 => "room"
    case 4 => "region"
    case 5 => "weapon"
    case 6 => "armor"
    case 7 => "container"
    case 8 => "player"
    case _ => "npc"
  }

  /** Things; then items and the living. */
  function BaseParent(i: nat): Option<nat>
    requires i < BASE_COUNT
  {
    if i == 0 then None else if i <= 4 then Some(0) else if i <= 7 then Some(1) else Some(2)
  }

  function BaseProperties(i: nat): map<string, string>
    requires i < BASE_COUNT
  {
    match i
    case 0 => map["name" := "\"\"", "description" := "\"\""]
    case 1 => map["weight" := "0", "value" := "0", "fixed" := "false"]
    case 2 => map["hp" := "100", "max_hp" := "100", "attack_bonus" := "0", "armor_class" := "10",
                  "in_combat" := "false"]
    case 3 => map["exits" := "{}", "lighting" := "\"normal\"", "region_id" := "null"]
    case 4 => map["environment_type" := "\"dungeon\"", "danger_level" := "1", "ambient_sounds" := "[]"]
    case 5 => map["damage_dice" := "\"1d6\"", "damage_bonus" := "0", "damage_type" := "\"physical\""]
    case 6 => map["armor_value" := "0", "slot" := "\"body\""]
    case 7 => map["capacity" := "10", "locked" := "false"]
    case 8 => map["wallet_address" := "null", "access_level" := "\"player\""]
    case _ => map["aggro" := "false", "respawn_time" := "null"]
  }

  function BaseHandlers(i: nat): seq<string>
    requires i < BASE_COUNT
  {
    match i
    case 0 => ["on_create", "on_destroy", "on_init"]
    case 1 => ["on_move", "on_use"]
    case 2 => ["heart_beat", "on_damage", "on_death"]
    case 3 => ["on_enter", "on_leave"]
    case 9 => ["ai_idle_tick", "ai_combat_tick"]
    case _ => []
  }

  function BaseClass(i: nat): ClassDef
    requires i < BASE_COUNT
  {
    var parent := match BaseParent(i) case None => None case Some(p) => Some(BaseName(p));
    ClassDef(BaseName(i), parent, BaseProperties(i), BaseHandlers(i))
  }

  function BaseClasses(n: nat): seq<ClassDef>
    requires n <= BASE_COUNT
  {
    seq(n, i requires 0 <= i < n => BaseClass(i))
  }

  /** The registry that a server starts from. */
  function BaseRegistry(): Registry { RegisterAll(map[], BaseClasses(BASE_COUNT)) }

  lemma BaseNamesDiffer(i: nat, j: nat)
    requires j < i < BASE_COUNT
    ensures BaseName(j) != BaseName(i)
  {
    assert BaseName(i)[0] == "tilrrwacpn"[i] && BaseName(j)[0] == "tilrrwacpn"[j];
    assert |BaseName(3)| == 4 && |BaseName(4)| == 6;
  }

  /** The server starts from a registry on which every chain ends. */
  lemma BaseIsWellFounded()
    ensures WellFounded(BaseRegistry()) && Closed(BaseRegistry())
  {
    var cs := BaseClasses(BASE_COUNT);
    forall i | 0 <= i < |cs|
      ensures !HasName(cs[..i], cs[i].name)
      ensures cs[i].parent.Some? ==> HasName(cs[..i], cs[i].parent.value)
    {
      forall j | 0 <= j < i ensures cs[..i][j].name != cs[i].name { BaseNamesDiffer(i, j); }
      if i > 0 { assert cs[..i][BaseParent(i).value].name == cs[i].parent.value; }
    }
    InOrderIsWellFounded(cs);
  }

  lemma {:induction false} RegisteredLast(cs: seq<ClassDef>, i: nat)
    requires i < |cs| && forall j | i < j < |cs| :: cs[j].name != cs[i].name
    ensures cs[i].name in RegisterAll(map[], cs) && RegisterAll(map[], cs)[cs[i].name] == cs[i]
    decreases |cs|
  {
    var front, last := cs[..|cs| - 1], cs[|cs| - 1];
    assert cs == front + [last];
    RegisterAllSplits(map[], front, last);
    if i < |front| {
      assert forall j | 0 <= j < |front| :: front[j] == cs[j];
      RegisteredLast(front, i);
    }
  }

  lemma BaseRegistered(i: nat)
    requires i < BASE_COUNT
    ensures BaseName(i) in BaseRegistry() && BaseRegistry()[BaseName(i)] == BaseClass(i)
  {
    hide BaseName;
    var cs := BaseClasses(BASE_COUNT);
    forall j | i < j < |cs| ensures cs[j].name != cs[i].name { BaseNamesDiffer(j, i); }
    RegisteredLast(cs, i);
  }

  ghost function BaseAncestry(n: string): seq<string> {
    if Terminates(BaseRegistry(), n) then Chain(BaseRegistry(), n) else []
  }

  lemma BaseChain(i: nat)
    requires i < BASE_COUNT && WellFounded(BaseRegistry())
    ensures BaseAncestry(BaseName(i)) == match BaseParent(i)
                                         case None => [BaseName(i)]
                                         case Some(p) => [BaseName(i)] + BaseAncestry(BaseName(p))
  {
    hide BaseName, BaseProperties, BaseHandlers, BaseRegistry;
    BaseRegistered(i);
    ChainUnfolds(BaseRegistry(), BaseName(i));
  }

  /** What the base classes inherit from: rooms and regions are things, weapons, armor and containers are items, players
      and npcs are living. */
  lemma BaseChains()
    ensures WellFounded(BaseRegistry())
    ensures BaseAncestry("thing") == ["thing"]
    ensures BaseAncestry("item") == ["item", "thing"]
    ensures BaseAncestry("living") == ["living", "thing"]
    ensures BaseAncestry("room") == ["room", "thing"]
    ensures BaseAncestry("region") == ["region", "thing"]
    ensures BaseAncestry("weapon") == ["weapon", "item", "thing"]
    ensures BaseAncestry("armor") == ["armor", "item", "thing"]
    ensures BaseAncestry("container") == ["container", "item", "thing"]
    ensures BaseAncestry("player") == ["player", "living", "thing"]
    ensures BaseAncestry("npc") == ["npc", "living", "thing"]
  {
    hide BaseRegistry, Chain, WellFounded, BaseAncestry;
    BaseIsWellFounded();
    BaseChain(0);
    BaseChain(1);
    BaseChain(2);
    BaseChain(3);
    BaseChain(4);
    BaseChain(5);
    BaseChain(6);
    BaseChain(7);
    BaseChain(8);
    BaseChain(9);
  }

  ghost function BaseAnswers(n: string): seq<string> {
    if Terminates(BaseRegistry(), n) then InheritedHandlers(BaseRegistry(), n) else []
  }

  lemma {:induction false} DistinctKeeps(s: seq<string>)
    requires forall i, j | 0 <= i < j < |s| :: s[i] != s[j]
    ensures Distinct(s) == s
  {
    if s != [] {
      var front := s[..|s| - 1];
      DistinctKeeps(front);
      assert s == front + [s[|s| - 1]];
    }
  }

  lemma {:induction false} UnseenKeeps(s: seq<string>, seen: seq<string>)
    requires forall h | h in seen :: h !in s
    ensures Unseen(s, seen) == s
  {
    if s != [] {
      var front := s[..|s| - 1];
      assert s == front + [s[|s| - 1]];
      UnseenKeeps(front, seen);
    }
  }

  lemma NewHandlers(own: seq<string>, above: seq<string>)
    requires forall i, j | 0 <= i < j < |own| :: own[i] != own[j]
    requires forall h | h in own :: h !in above
    ensures Distinct(own) == own && Unseen(above, own) == above
  {
    DistinctKeeps(own);
    UnseenKeeps(above, own);
  }

  lemma BaseAnswersOne(i: nat)
    requires i < BASE_COUNT && WellFounded(BaseRegistry())
    ensures BaseAnswers(BaseName(i))
         == Distinct(BaseHandlers(i)) + match BaseParent(i)
                                        case None => []
                                        case Some(p) => Unseen(BaseAnswers(BaseName(p)), BaseHandlers(i))
  {
    hide BaseName, BaseProperties, BaseHandlers, BaseRegistry, Distinct, Unseen;
    BaseRegistered(i);
    OwnHandlersFirst(BaseRegistry(), BaseName(i));
  }

  /** Which handlers the base classes answer to. */
  lemma BaseHandlerLists()
    ensures BaseAnswers("thing") == ["on_create", "on_destroy", "on_init"]
    ensures BaseAnswers("item") == ["on_move", "on_use"] + BaseAnswers("thing")
    ensures BaseAnswers("living") == ["heart_beat", "on_damage", "on_death"] + BaseAnswers("thing")
    ensures BaseAnswers("room") == ["on_enter", "on_leave"] + BaseAnswers("thing")
    ensures BaseAnswers("region") == BaseAnswers("thing")
    ensures BaseAnswers("weapon") == BaseAnswers("item")
    ensures BaseAnswers("armor") == BaseAnswers("item")
    ensures BaseAnswers("container") == BaseAnswers("item")
    ensures BaseAnswers("player") == BaseAnswers("living")
    ensures BaseAnswers("npc") == ["ai_idle_tick", "ai_combat_tick"] + BaseAnswers("living")
  {
    hide BaseRegistry, WellFounded, BaseAnswers, Distinct, Unseen;
    BaseIsWellFounded();
    BaseAnswersOne(0);
    NewHandlers(BaseHandlers(0), []);
    BaseAnswersOne(1);
    NewHandlers(BaseHandlers(1), BaseHandlers(0));
    BaseAnswersOne(2);
    NewHandlers(BaseHandlers(2), BaseHandlers(0));
    BaseAnswersOne(3);
    NewHandlers(BaseHandlers(3), BaseHandlers(0));
    BaseAnswersOne(4);
    NewHandlers([], BaseHandlers(0));
    BaseAnswersOne(5);
    BaseAnswersOne(6);
    BaseAnswersOne(7);
    NewHandlers([], BaseHandlers(1) + BaseHandlers(0));
    BaseAnswersOne(8);
    NewHandlers([], BaseHandlers(2) + BaseHandlers(0));
    BaseAnswersOne(9);
    NewHandlers(BaseHandlers(9), BaseHandlers(2) + BaseHandlers(0));
  }

  ghost function BaseDefaults(n: string): map<string, string> {
    if Terminates(BaseRegistry(), n) then Inherited(BaseRegistry(), n) else map[]
  }

  lemma BaseDefaultsOne(i: nat)
    requires i < BASE_COUNT && WellFounded(BaseRegistry())
    ensures BaseDefaults(BaseName(i))
         == (match BaseParent(i) case None => map[] case Some(p) => BaseDefaults(BaseName(p))) + BaseProperties(i)
  {
    hide BaseName, BaseProperties, BaseHandlers, BaseRegistry;
    BaseRegistered(i);
    InheritedUnfolds(BaseRegistry(), BaseName(i));
  }

  /** The default values of the base classes. */
  lemma BaseDefaultValues()
    ensures BaseDefaults("thing") == map["name" := "\"\"", "description" := "\"\""]
    ensures BaseDefaults("item") == BaseDefaults("thing") + map["weight" := "0", "value" := "0", "fixed" := "false"]
    ensures BaseDefaults("living") == BaseDefaults("thing") + map["hp" := "100", "max_hp" := "100",
                                                                 "attack_bonus" := "0", "armor_class" := "10",
                                                                 "in_combat" := "false"]
    ensures BaseDefaults("room") == BaseDefaults("thing") + map["exits" := "{}", "lighting" := "\"normal\"",
                                                               "region_id" := "null"]
    ensures BaseDefaults("region") == BaseDefaults("thing") + map["environment_type" := "\"dungeon\"",
                                                                 "danger_level" := "1", "ambient_sounds" := "[]"]
    ensures BaseDefaults("weapon") == BaseDefaults("item") + map["damage_dice" := "\"1d6\"", "damage_bonus" := "0",
                                                                "damage_type" := "\"physical\""]
    ensures BaseDefaults("armor") == BaseDefaults("item") + map["armor_value" := "0", "slot" := "\"body\""]
    ensures BaseDefaults("container") == BaseDefaults("item") + map["capacity" := "10", "locked" := "false"]
    ensures BaseDefaults("player") == BaseDefaults("living") + map["wallet_address" := "null",
                                                                  "access_level" := "\"player\""]
    ensures BaseDefaults("npc") == BaseDefaults("living") + map["aggro" := "false", "respawn_time" := "null"]
  {
    hide BaseRegistry, WellFounded, BaseDefaults;
    BaseIsWellFounded();
    BaseDefaultsOne(0);
    BaseDefaultsOne(1);
    BaseDefaultsOne(2);
    BaseDefaultsOne(3);
    BaseDefaultsOne(4);
    BaseDefaultsOne(5);
    BaseDefaultsOne(6);
    BaseDefaultsOne(7);
    BaseDefaultsOne(8);
    BaseDefaultsOne(9);
  }
}
