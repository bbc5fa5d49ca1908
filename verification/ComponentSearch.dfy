/** `sinkCycles`: the cyclic components of the remaining packages that depend on nothing else remaining. */
module ComponentSearch {
  import opened Digraphs
  import opened ComponentInvariants
  import opened PackageMaps

  /** The closure variables of one `sinkCycles` call. */
  class Search {
    const remaining: Graph
    var nextIndex: nat
    var indices: Numbering
    var lowLinks: Numbering
    var stack: seq<Package>
    var stacked: set<string>
    var components: seq<Component>

    constructor (remaining: Graph)
      ensures this.remaining == remaining
      ensures Now() == Snapshot(0, map[], map[], [], {}, [])
    {
      this.remaining := remaining;
      nextIndex, indices, lowLinks, stack, stacked, components := 0, map[], map[], [], {}, [];
    }

    ghost function Now(): Snapshot
      reads this
    {
      Snapshot(nextIndex, indices, lowLinks, stack, stacked, components)
    }

    /**
     The recursive visit. `active` are the packages whose visit is still running; all of them reach `pkg`.
     Its throws are the `assert false` branches: no run gets there.
     */
    method Visit(pkg: Package, ghost active: set<string>)
      requires Inv(remaining, Now(), active)
      requires pkg.short in remaining && remaining[pkg.short] == pkg && pkg.short !in indices
      requires forall a :: a in active ==> Reach(remaining, a, pkg.short)
      modifies this
      ensures Inv(remaining, Now(), active) && Extends(old(Now()), Now())
      ensures CallResult(remaining, old(Now()), Now(), pkg.short)
      decreases remaining.Keys - indices.Keys
    {
      hide Inv, Scanned, Reach, Extends, CallResult, StackOrdered, ShortNames;
      var index := nextIndex;
      nextIndex := nextIndex + 1;
      indices := indices[pkg.short := index];
      lowLinks := lowLinks[pkg.short := index];
      stack := stack + [pkg];
      stacked := stacked + {pkg.short};
      ghost var entry := old(Now());
      assert Now() == Pushed(entry, pkg);
      StartScan(remaining, entry, pkg, active);
      var n := 0;
      while n < |pkg.deps|
        invariant 0 <= n <= |pkg.deps|
        invariant Inv(remaining, Now(), active + {pkg.short})
        invariant Scanned(remaining, entry, Now(), pkg, n)
        invariant old(indices).Keys <= indices.Keys && pkg.short in indices
      {
        var dependency := pkg.deps[n];
        ghost var before := Now();
        if dependency in remaining {
          InRemaining(remaining, before, active + {pkg.short}, dependency);
          var target := remaining[dependency];
          if target.short !in indices {
            BeforeVisit(remaining, entry, before, pkg, active, n);
            Visit(target, active + {pkg.short});
            AfterVisit(remaining, entry, before, Now(), pkg, active, n);
            lowLinks :=
              lowLinks[pkg.short := Min(RequiredValue(lowLinks, pkg.short), RequiredValue(lowLinks, target.short))];
          } else {
            AtVisited(remaining, entry, before, pkg, active, n);
            if target.short in stacked {
              lowLinks :=
                lowLinks[pkg.short := Min(RequiredValue(lowLinks, pkg.short), RequiredValue(indices, target.short))];
            }
          }
        } else {
          AtVisited(remaining, entry, before, pkg, active, n);
        }
        n := n + 1;
      }
      AtEnd(remaining, entry, Now(), pkg, active);
      if lowLinks[pkg.short] != indices[pkg.short] {
        EndStacked(remaining, entry, Now(), pkg, active);
        return;
      }
      ghost var whole := Now();
      PopComponent(pkg, entry);
      EndPopped(remaining, entry, whole, pkg, active);
    }

    /** The end of a visit whose package heads its component: pop down to it and record the component. */
    method PopComponent(pkg: Package, ghost entry: Snapshot)
      requires entry.stack + [pkg] <= stack && StackOrdered(remaining, indices, stack)
      requires stacked == ShortNames(stack) && entry.stacked == ShortNames(entry.stack)
      modifies this`stack, this`stacked, this`components
      ensures Now() == Popped(entry, old(Now()))
    {
      hide StackOrdered, ShortNames;
      ghost var whole := stack;
      if |stack| == 0 {
        assert false;
      }
      var first := stack[|stack| - 1];
      PopName(remaining, indices, whole, stack);
      stack := stack[..|stack| - 1];
      stacked := stacked - {first.short};
      var component: Component := [first];
      var member := first;
      while member != pkg
        invariant |entry.stack| <= |stack| < |whole| && stack == whole[..|stack|] && member == whole[|stack|]
        invariant component == Reversed(whole[|stack|..])
        invariant stacked == ShortNames(stack) && components == old(components)
        decreases |stack|
      {
        if |stack| == 0 {
          assert false;
        }
        var next := stack[|stack| - 1];
        PopName(remaining, indices, whole, stack);
        assert whole[|stack| - 1..] == [next] + whole[|stack|..];
        stack := stack[..|stack| - 1];
        stacked := stacked - {next.short};
        component := component + [next];
        member := next;
      }
      PoppedSegment(remaining, entry, old(Now()), pkg, |stack|);
      components := components + [component];
    }
  }

  /** The source throws where the key is absent; every call here is proved to have it. */
  function RequiredValue(values: Numbering, key: string): nat
    requires key in values
  {
    values[key]
  }

  function Min(a: nat, b: nat): nat {
    if a <= b then a else b
  }

  /** `sinkCycles`: every visit, then the filter. */
  method SinkCycles(remaining: PackageMap) returns (cycles: seq<Component>)
    requires remaining.Valid()
    ensures AreSinkCycles(remaining.at, cycles)
    ensures remaining.at != map[] && (forall v :: v in remaining.at ==> DependsOnRemaining(remaining.at, v))
            ==> cycles != []
  {
    hide Inv, Extends, CallResult, Reach, IsSinkCycle, Partitions, DependsOnRemaining, ShortNames, AreSinkCycles;
    var g := remaining.at;
    var search := new Search(g);
    StartsEmpty(g, search.Now());
    var values := remaining.Values();
    for i := 0 to |values|
      invariant Inv(g, search.Now(), {}) && search.remaining == g
      invariant forall p :: p in values[..i] ==> p.short in search.indices
    {
      var pkg := values[i];
      assert values[..i + 1] == values[..i] + [pkg];
      ghost var before := search.Now();
      if pkg.short !in search.indices {
        search.Visit(pkg, {});
        KeepsVisited(g, before, search.Now(), pkg.short);
      }
    }
    AllVisited(g, search.Now(), values);
    FilterIsExact(g, search.components);
    cycles := KeepSinkCycles(g, search.components);
    if g != map[] && forall v :: v in g ==> DependsOnRemaining(g, v) {
      var c := SomeSinkCycle(g, search.components);
    }
  }

  ghost predicate IsSinkCycle(g: Graph, c: Component) {
    IsComponent(g, c) && IsCyclic(c) && IsSink(g, c)
  }

  ghost predicate Listed(cycles: seq<Component>, names: set<string>) {
    exists b :: b in cycles && ShortNames(b) == names
  }

  /** The list is exactly the sink cycles of `g`, each once. */
  ghost predicate AreSinkCycles(g: Graph, cycles: seq<Component>) {
    && (forall c :: c in cycles ==> IsSinkCycle(g, c))
    && (forall c: Component :: IsSinkCycle(g, c) ==> Listed(cycles, ShortNames(c)))
    && Apart(cycles)
  }

  lemma StartsEmpty(g: Graph, s: Snapshot)
    requires Keyed(g) && s == Snapshot(0, map[], map[], [], {}, [])
    ensures Inv(g, s, {})
  {
  }

  lemma KeepsVisited(g: Graph, s: Snapshot, t: Snapshot, x: string)
    requires Extends(s, t) && CallResult(g, s, t, x)
    ensures x in t.idx && forall k :: k in s.idx ==> k in t.idx
  {
  }

  /** With no call active the stack is empty, so the components hold every remaining package. */
  lemma AllVisited(g: Graph, s: Snapshot, values: seq<Package>)
    requires Inv(g, s, {}) && (forall p :: p in values ==> p.short in s.idx)
    requires forall p :: p in values <==> p.short in g && g[p.short] == p
    ensures Partitions(g, s.comps, g.Keys)
  {
    hide Reach, Partitions, Closed, EndedExplored;
    assert s.stacked == {};
    assert forall k :: k in g ==> g[k] in values;
    assert Done(s) == g.Keys;
  }

  /** The callback of the final `filter`. */
  predicate KeepsComponent(g: Graph, c: Component)
  {
    var names := set p | p in c :: p.short;
    var first := c[0];
    var cyclic := |c| > 1 || first.short in first.deps;
    cyclic && forall p :: p in c ==> forall d :: d in p.deps ==> d !in g || d in names
  }

  function KeepSinkCycles(g: Graph, comps: seq<Component>): (kept: seq<Component>)
    ensures forall c :: c in kept <==> c in comps && KeepsComponent(g, c)
  {
    if comps == [] then []
    else (if KeepsComponent(g, comps[0]) then [comps[0]] else []) + KeepSinkCycles(g, comps[1..])
  }

  lemma KeptApart(g: Graph, comps: seq<Component>)
    requires Apart(comps)
    ensures Apart(KeepSinkCycles(g, comps))
  {
    hide ShortNames, KeepsComponent;
    if comps != [] {
      var kept := KeepSinkCycles(g, comps[1..]);
      KeptApart(g, comps[1..]);
      forall b | b in kept ensures ShortNames(comps[0]) !! ShortNames(b) {
        var j :| 0 <= j < |comps[1..]| && comps[1..][j] == b;
        assert b == comps[j + 1];
      }
    }
  }

  /** The callback decides exactly: cyclic, and no edge leaving. */
  lemma FilterDecides(g: Graph, c: Component)
    requires IsComponent(g, c)
    ensures KeepsComponent(g, c) <==> IsCyclic(c) && IsSink(g, c)
  {
    hide Reach, Mutual;
    assert c[0] in c;
    forall v, w | KeepsComponent(g, c) && v in ShortNames(c) && Edge(g, v, w) ensures w in ShortNames(c) {
    }
    forall p, d | IsSink(g, c) && p in c && d in p.deps && d in g ensures d in ShortNames(c) {
      assert Edge(g, p.short, d);
    }
  }

  lemma FilterIsExact(g: Graph, comps: seq<Component>)
    requires Partitions(g, comps, g.Keys)
    ensures forall c :: c in comps ==> (c in KeepSinkCycles(g, comps) <==> IsSinkCycle(g, c))
    ensures AreSinkCycles(g, KeepSinkCycles(g, comps))
  {
    hide IsComponent;
    forall c | c in comps ensures KeepsComponent(g, c) <==> IsSinkCycle(g, c) {
      FilterDecides(g, c);
    }
    forall c: Component | IsSinkCycle(g, c) ensures Listed(KeepSinkCycles(g, comps), ShortNames(c)) {
      var b := TwinComponent(g, comps, c);
      TwinSinkCycle(g, b, c);
    }
    KeptApart(g, comps);
  }

  /** The list holds every component, up to the order of its members. */
  lemma TwinComponent(g: Graph, comps: seq<Component>, c: Component) returns (b: Component)
    requires Partitions(g, comps, g.Keys) && IsComponent(g, c)
    ensures b in comps && IsComponent(g, b) && ShortNames(b) == ShortNames(c)
  {
    var p := c[0];
    assert p in c;
    b :| b in comps && p.short in ShortNames(b);
    SameComponent(g, b, c, p.short);
  }

  lemma SameComponent(g: Graph, b: Component, c: Component, k: string)
    requires IsComponent(g, b) && IsComponent(g, c) && k in ShortNames(b) && k in ShortNames(c)
    ensures ShortNames(b) == ShortNames(c)
  {
    hide Reach;
  }

  lemma TwinSinkCycle(g: Graph, b: Component, c: Component)
    requires IsComponent(g, b) && IsSinkCycle(g, c) && ShortNames(b) == ShortNames(c)
    ensures IsSinkCycle(g, b)
  {
    hide Reach;
    if |c| > 1 {
      assert c[0] in c && c[1] in c;
      assert c[0].short in ShortNames(b) && c[1].short in ShortNames(b);
    } else {
      var p :| p in c && p.short in p.deps;
      assert p.short in ShortNames(b);
    }
  }

  ghost predicate DependsOnRemaining(g: Graph, v: string) {
    exists w :: Edge(g, v, w)
  }

  /**
   If every remaining package has a remaining dependency, then some component in a list of all of them is
   a sink cycle: the case the caller treats as "could not order" does not arise.
   */
  lemma SomeSinkCycle(g: Graph, comps: seq<Component>) returns (c: Component)
    requires Keyed(g) && g != map[] && Partitions(g, comps, g.Keys)
    requires forall v :: v in g ==> DependsOnRemaining(g, v)
    ensures c in comps && IsSinkCycle(g, c)
  {
    hide Reach, ShortNames, IsComponent, DependsOnRemaining, IsSinkCycle;
    var v :| v in g;
    var u := SinkBelow(g, v, ReachableFrom(g, v));
    c :| c in comps && u in ShortNames(c);
    CycleBelow(g, c, u);
  }

  lemma CycleBelow(g: Graph, c: Component, u: string)
    requires IsComponent(g, c) && u in ShortNames(c)
    requires forall w :: Reach(g, u, w) ==> Reach(g, w, u)
    requires DependsOnRemaining(g, u)
    ensures IsSinkCycle(g, c)
  {
    hide Reach;
    var q :| q in c && q.short == u;
    forall v, w | v in ShortNames(c) && Edge(g, v, w) ensures w in ShortNames(c) {
      var p :| p in c && p.short == v;
      ReachEdge(g, v, w);
      ReachTransitive(g, u, v, w);
      assert Mutual(g, u, w);
    }
    var w :| Edge(g, u, w);
    assert w in ShortNames(c);
    var p :| p in c && p.short == w;
  }
}
