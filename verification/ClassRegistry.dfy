/** The class registry as the server holds it (mudd/src/objects/class.rs:57-246). */
module ClassRegistryClass {
  import opened Wrappers
  import C = Classes

  class ClassRegistry {
    var classes: map<string, C.ClassDef>

    ghost predicate Valid() reads this {
      C.Named(classes)
    }

    constructor ()
      ensures Valid() && C.WellFounded(classes) && C.Closed(classes)
      ensures classes == C.RegisterAll(map[], C.BaseClasses(C.BASE_COUNT))
    {
      classes := map[];
      new;
      var i := 0;
      while i < C.BASE_COUNT
        invariant 0 <= i <= C.BASE_COUNT && Valid()
        invariant classes == C.RegisterAll(map[], C.BaseClasses(i))
      {
        assert C.BaseClasses(i + 1) == C.BaseClasses(i) + [C.BaseClass(i)];
        C.RegisterAllSplits(map[], C.BaseClasses(i), C.BaseClass(i));
        Register(C.BaseClass(i));
        i := i + 1;
      }
      C.BaseIsWellFounded();
    }

    method Register(c: C.ClassDef)
      requires Valid()
      modifies this
      ensures Valid() && classes == C.Register(old(classes), c)
    {
      classes := classes[c.name := c];
    }

    method GetChain(name: string) returns (chain: seq<string>)
      requires Valid() && C.Terminates(classes, name)
      ensures chain == C.Chain(classes, name)
    {
      chain := [];
      var current := name;
      while current in classes
        invariant C.Collecting(classes, name, chain, current)
        decreases C.RoundsLeft(classes, current)
      {
        var classDef := classes[current];
        if classDef.parent.Some? {
          C.CollectOne(classes, name, chain, current);
        } else {
          C.CollectLast(classes, name, chain, current);
        }
        chain := chain + [classDef.name];
        match classDef.parent
        case Some(parent) =>
          current := parent;
        case None =>
          return;
      }
      C.CollectLast(classes, name, chain, current);
    }

    method IsA(child: string, ancestor: string) returns (yes: bool)
      requires Valid() && C.Terminates(classes, child)
      ensures yes == C.IsA(classes, child, ancestor)
    {
      var chain := GetChain(child);
      yes := ancestor in chain;
    }

    /** Root first, so that a child's value replaces its ancestors'; a class's own properties come in any order. */
    method ResolveProperties(name: string) returns (props: map<string, string>)
      requires Valid() && C.Terminates(classes, name)
      ensures props == C.Inherited(classes, name)
    {
      var chain := GetChain(name);
      props := map[];
      var i := |chain|;
      while i > 0
        invariant 0 <= i <= |chain|
        invariant props == C.Overlay(classes, chain[i..])
      {
        i := i - 1;
        assert chain[i..][1..] == chain[i + 1..];
        if chain[i] in classes {
          props := Insert(props, classes[chain[i]].properties);
        }
      }
    }

    method Insert(base: map<string, string>, own: map<string, string>) returns (props: map<string, string>)
      ensures props == base + own
    {
      props := base;
      var todo := own.Keys;
      while todo != {}
        invariant todo <= own.Keys
        invariant props.Keys == base.Keys + (own.Keys - todo)
        invariant forall k | k in props :: props[k] == if k in own && k !in todo then own[k] else base[k]
      {
        var k :| k in todo;
        props := props[k := own[k]];
        todo := todo - {k};
      }
    }

    method ResolveHandlers(name: string) returns (handlers: seq<string>)
      requires Valid() && C.Terminates(classes, name)
      ensures handlers == C.InheritedHandlers(classes, name)
    {
      var chain := GetChain(name);
      handlers := [];
      var i := 0;
      while i < |chain|
        invariant 0 <= i <= |chain|
        invariant handlers == C.Distinct(C.AllHandlers(classes, chain[..i]))
      {
        assert chain[..i + 1][..i] == chain[..i];
        handlers := AddNew(handlers, C.AllHandlers(classes, chain[..i]), C.OwnHandlers(classes, chain[i]));
        i := i + 1;
      }
      assert chain[..i] == chain;
    }

    method AddNew(handlers: seq<string>, ghost before: seq<string>, own: seq<string>) returns (all: seq<string>)
      requires handlers == C.Distinct(before)
      ensures all == C.Distinct(before + own)
    {
      all := handlers;
      assert before + own[..0] == before;
      var j := 0;
      while j < |own|
        invariant 0 <= j <= |own|
        invariant all == C.Distinct(before + own[..j])
      {
        assert (before + own[..j + 1])[..|before| + j] == before + own[..j];
        if own[j] !in all {
          all := all + [own[j]];
        }
        j := j + 1;
      }
      assert own[..j] == own;
    }
  }
}
