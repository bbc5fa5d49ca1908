/** `topoSort`: packages in dependency order, layer by layer, with whole cycles where a layer is blocked. */
module PackageGraph {
  import opened Digraphs
  import opened PackageMaps
  import opened Sorting
  import opened ComponentSearch
  import opened Layering

  datatype Outcome =
    | Ordered(out: seq<Package>)
    | MissingPeer(package: string, dependency: string)

  /** `new Map(packages.map(pkg => [pkg.short, pkg]))`: the last package of a name wins. */
  function ByName(packages: seq<Package>): (m: PackageMap)
    ensures m.Valid()
    ensures m.at.Keys == ShortNames(packages)
    ensures forall k :: k in m.at ==> m.at[k] in packages
  {
    if packages == [] then PackageMap([], map[])
    else
      var n := |packages| - 1;
      assert packages == packages[..n] + [packages[n]];
      ByName(packages[..n]).With(packages[n])
  }

  /** Dependency `j` of package `i` is the first, in input order, that names no package. */
  ghost predicate FirstMissing(packages: seq<Package>, at: Graph, i: int, j: int) {
    && 0 <= i < |packages| && 0 <= j < |packages[i].deps| && packages[i].deps[j] !in at
    && (forall k :: 0 <= k < i ==> forall d :: d in packages[k].deps ==> d in at)
    && (forall d :: d in packages[i].deps[..j] ==> d in at)
  }

  method TopoSort(packages: seq<Package>, ranking: Ranking) returns (result: Outcome)
    requires IsCollation(ranking.locale)
    ensures result.Ordered? <==> forall p :: p in packages ==> forall d :: d in p.deps ==> d in ShortNames(packages)
    ensures result.Ordered? ==> IsLayered(ByName(packages).at, result.out, ranking)
    ensures result.MissingPeer? ==>
              exists i, j :: FirstMissing(packages, ByName(packages).at, i, j)
                             && result == MissingPeer(packages[i].name, packages[i].deps[j])
  {
    hide ByName, IsLayered, IsCollation, ShortNames;
    var byName := ByName(packages);
    for i := 0 to |packages|
      invariant forall k :: 0 <= k < i ==> forall d :: d in packages[k].deps ==> d in byName.at
    {
      var pkg := packages[i];
      for j := 0 to |pkg.deps|
        invariant forall d :: d in pkg.deps[..j] ==> d in byName.at
      {
        if pkg.deps[j] !in byName.at {
          assert FirstMissing(packages, byName.at, i, j);
          return MissingPeer(pkg.name, pkg.deps[j]);
        }
        assert pkg.deps[..j + 1] == pkg.deps[..j] + [pkg.deps[j]];
      }
      assert pkg.deps[..|pkg.deps|] == pkg.deps;
    }
    assert PeersExist(byName.at);
    var out := OrderAll(byName, ranking);
    result := Ordered(out);
  }

  predicate Ready(placed: set<string>, p: Package) {
    forall d :: d in p.deps ==> d in placed
  }

  function ReadyOf(values: seq<Package>, placed: set<string>): (ready: seq<Package>)
    ensures forall p :: p in ready <==> p in values && Ready(placed, p)
  {
    if values == [] then []
    else (if Ready(placed, values[0]) then [values[0]] else []) + ReadyOf(values[1..], placed)
  }

  lemma ReadyOfOnce(values: seq<Package>, placed: set<string>)
    ensures multiset(ReadyOf(values, placed)) <= multiset(values)
  {
    if values != [] {
      ReadyOfOnce(values[1..], placed);
      assert values == [values[0]] + values[1..];
    }
  }

  lemma ValuesOnce(m: PackageMap)
    requires m.Valid()
    ensures Once(m.Values())
  {
    forall i, j | 0 <= i < j < |m.Values()| ensures m.Values()[i] != m.Values()[j] {
      assert m.Values()[i].short == m.order[i] && m.Values()[j].short == m.order[j];
    }
    DistinctOnce(m.Values());
  }

  /** The layer lists each ready package once, under its own name. */
  lemma ReadyListed(at: Graph, placed: set<string>, remaining: PackageMap)
    requires remaining.Valid() && remaining.at == Rest(at, placed)
    ensures var ready := ReadyOf(remaining.Values(), placed);
            Once(ready) && forall p :: p in ready <==> IsReady(at, placed, p)
    ensures forall a, b :: IsReady(at, placed, a) && IsReady(at, placed, b) && a.short == b.short ==> a == b
  {
    ReadyOfOnce(remaining.Values(), placed);
    ValuesOnce(remaining);
  }

  /** A non-empty layer is the round the placed packages determine. */
  lemma LayerIsRound(at: Graph, placed: set<string>, remaining: PackageMap, ranking: Ranking)
    requires IsCollation(ranking.locale)
    requires remaining.Valid() && remaining.at == Rest(at, placed)
    requires ReadyOf(remaining.Values(), placed) != []
    ensures IsReadyRound(at, placed, SortBy(ReadyOf(remaining.Values(), placed), PackageOrder(ranking)), ranking)
  {
    hide IsCollation, Consistent, Sorted, SortBy, ComparePackages, ReadyOf, IsReady, Once, StrictlySorted, Rest;
    hide InOrder;
    ComparePackagesOrders(ranking);
    ReadyListed(at, placed, remaining);
    SortByStrict(ReadyOf(remaining.Values(), placed), PackageOrder(ranking));
    InOrderIs(SortBy(ReadyOf(remaining.Values(), placed), PackageOrder(ranking)), ranking);
  }

  /** With no layer ready, every remaining package depends on a remaining one. */
  lemma BlockedDepends(at: Graph, placed: set<string>, remaining: PackageMap)
    requires PeersExist(at) && remaining.Valid() && remaining.at == Rest(at, placed)
    requires ReadyOf(remaining.Values(), placed) == []
    ensures forall v :: v in remaining.at ==> DependsOnRemaining(remaining.at, v)
    ensures forall p :: !IsReady(at, placed, p)
  {
    forall v | v in remaining.at ensures DependsOnRemaining(remaining.at, v) {
      var p := remaining.at[v];
      assert p in remaining.Values() && p !in ReadyOf(remaining.Values(), placed);
      var d :| d in p.deps && d !in placed;
      assert Edge(remaining.at, v, d);
    }
    forall p ensures !IsReady(at, placed, p) {
      assert p in ReadyOf(remaining.Values(), placed) <==> p in remaining.Values() && Ready(placed, p);
    }
  }

  /** `map(component => component.sort(...))`. */
  function SortEach(cycles: seq<Component>, ranking: Ranking): (sorted: seq<Component>)
    ensures |sorted| == |cycles|
    ensures forall i :: 0 <= i < |cycles| ==> sorted[i] == SortBy(cycles[i], PackageOrder(ranking))
  {
    seq(|cycles|, i requires 0 <= i < |cycles| => SortBy(cycles[i], PackageOrder(ranking)))
  }

  /** `.map(component => component.sort(...)).sort(...)`. */
  function SortedCycles(cycles: seq<Component>, ranking: Ranking): (sorted: seq<Component>)
    ensures |sorted| == |cycles|
  {
    SortBy(SortEach(cycles, ranking), ComponentOrder(ranking))
  }

  /** Reordering the members of a sink cycle leaves it one. */
  lemma ReorderedCycle(g: Graph, c: Component, s: Component)
    requires IsSinkCycle(g, c) && |s| == |c| && (forall p :: p in s <==> p in c)
    requires forall i, j :: 0 <= i < j < |s| ==> s[i] != s[j]
    ensures IsSinkCycle(g, s) && ShortNames(s) == ShortNames(c)
  {
    hide Reach, Mutual;
    assert ShortNames(s) == ShortNames(c);
    hide ShortNames;
    forall i, j | 0 <= i < j < |s| ensures s[i].short != s[j].short {
      assert s[i] in c && s[j] in c && s[i] != s[j];
    }
  }

  /** Sorting the members of a component only reorders it. */
  lemma SortedMembers(g: Graph, c: Component, ranking: Ranking)
    requires IsCollation(ranking.locale) && IsSinkCycle(g, c)
    ensures var s: Component := SortBy(c, PackageOrder(ranking));
            IsSinkCycle(g, s) && StrictlySorted(s, PackageOrder(ranking))
            && (forall p :: p in s <==> p in c) && ShortNames(s) == ShortNames(c)
  {
    ComparePackagesOrders(ranking);
    assert forall p :: p in c ==> g[p.short] == p;
    assert forall i, j :: 0 <= i < j < |c| ==> c[i] != c[j];
    hide IsCollation, Consistent, SortBy, ComparePackages, IsSinkCycle, ShortNames;
    DistinctOnce(c);
    SortByStrict(c, PackageOrder(ranking));
    var s: Component := SortBy(c, PackageOrder(ranking));
    SortBySorts(c, PackageOrder(ranking));
    forall i, j | 0 <= i < j < |s| ensures s[i] != s[j] {
      OnceDistinct(s, i, j);
    }
    ReorderedCycle(g, c, s);
  }

  /** The first of the sorted sink cycles is the round the placed packages determine. */
  lemma FirstCycleIsRound(at: Graph, placed: set<string>, cycles: seq<Component>, ranking: Ranking)
    requires IsCollation(ranking.locale) && cycles != [] && forall p :: !IsReady(at, placed, p)
    requires AreSinkCycles(Rest(at, placed), cycles)
    ensures IsCycleRound(at, placed, SortedCycles(cycles, ranking)[0], ranking)
  {
    assert forall c :: c in cycles ==> IsSinkCycle(Rest(at, placed), c);
    hide *;
    CyclesSorted(cycles, ranking);
    var first := SortedCycles(cycles, ranking)[0];
    var k :| 0 <= k < |cycles| && first == SortBy(cycles[k], PackageOrder(ranking));
    assert cycles[k] in cycles;
    SortedMembers(Rest(at, placed), cycles[k], ranking);
    FirstIsLeastOfAll(Rest(at, placed), cycles, ranking);
    CycleRoundFrom(at, placed, first, ranking);
  }

  lemma FirstIsLeastOfAll(rest: Graph, cycles: seq<Component>, ranking: Ranking)
    requires IsCollation(ranking.locale) && cycles != []
    requires AreSinkCycles(rest, cycles)
    ensures forall c: Component, q :: IsSinkCycle(rest, c) && q in c ==>
              ComparePackages(SortedCycles(cycles, ranking)[0][0], q, ranking) <= 0
  {
    hide IsCollation, IsSinkCycle, SortedCycles, ShortNames, ComparePackages;
    forall c: Component, q | IsSinkCycle(rest, c) && q in c
      ensures ComparePackages(SortedCycles(cycles, ranking)[0][0], q, ranking) <= 0
    {
      var b :| b in cycles && ShortNames(b) == ShortNames(c);
      assert IsSinkCycle(rest, b);
      SamePackages(rest, b, c);
      FirstIsLeast(rest, cycles, b, q, ranking);
    }
  }

  lemma CycleRoundFrom(at: Graph, placed: set<string>, round: Component, ranking: Ranking)
    requires IsCollation(ranking.locale)
    requires (forall p :: !IsReady(at, placed, p)) && StrictlySorted(round, PackageOrder(ranking))
    requires IsSinkCycle(Rest(at, placed), round)
    requires forall c: Component, q :: IsSinkCycle(Rest(at, placed), c) && q in c ==>
       ComparePackages(round[0], q, ranking) <= 0
    ensures IsCycleRound(at, placed, round, ranking)
  {
    InOrderIs(round, ranking);
    hide IsCollation, ComparePackages, ComesBefore, InOrder, IsSinkCycle, IsReady, StrictlySorted;
    forall c: Component, q | IsSinkCycle(Rest(at, placed), c) && q in c ensures !ComesBefore(q, round[0], ranking) {
      CompareIs(round[0], q, ranking);
    }
  }

  /** The sorted list holds the given components, members sorted, in comparator order. */
  lemma CyclesSorted(cycles: seq<Component>, ranking: Ranking)
    requires IsCollation(ranking.locale) && cycles != []
    ensures Sorted(SortedCycles(cycles, ranking), ComponentOrder(ranking))
    ensures exists k ::
              0 <= k < |cycles| && SortedCycles(cycles, ranking)[0] == SortBy(cycles[k], PackageOrder(ranking))
    ensures forall c :: c in cycles ==> SortBy(c, PackageOrder(ranking)) in SortedCycles(cycles, ranking)
  {
    ComparePackagesOrders(ranking);
    hide IsCollation, Consistent, SortBy, ComparePackages;
    var each := SortEach(cycles, ranking);
    SortBySorts(each, ComponentOrder(ranking));
    var first := SortedCycles(cycles, ranking)[0];
    assert first in each;
    var k :| 0 <= k < |each| && each[k] == first;
    assert first == SortBy(cycles[k], PackageOrder(ranking));
    forall c | c in cycles ensures SortBy(c, PackageOrder(ranking)) in each {
      var i :| 0 <= i < |cycles| && cycles[i] == c;
      assert each[i] == SortBy(c, PackageOrder(ranking));
    }
  }

  lemma FirstIsLeast(rest: Graph, cycles: seq<Component>, b: Component, q: Package, ranking: Ranking)
    requires IsCollation(ranking.locale) && b in cycles && IsSinkCycle(rest, b) && q in b
    ensures ComparePackages(SortedCycles(cycles, ranking)[0][0], q, ranking) <= 0
  {
    ComparePackagesOrders(ranking);
    CyclesSorted(cycles, ranking);
    SortedMembers(rest, b, ranking);
    hide *;
    LeastOfAll(SortedCycles(cycles, ranking), SortBy(b, PackageOrder(ranking)), q, ranking);
  }

  lemma SamePackages(g: Graph, b: Component, c: Component)
    requires IsSinkCycle(g, b) && IsSinkCycle(g, c) && ShortNames(b) == ShortNames(c)
    ensures forall p :: p in b <==> p in c
  {
    hide Reach, Mutual;
    forall p ensures p in b <==> p in c {
      assert p in b ==> p.short in ShortNames(c);
      assert p in c ==> p.short in ShortNames(b);
    }
  }

  lemma LeastOfAll(all: seq<Component>, s: Component, q: Package, ranking: Ranking)
    requires Consistent(PackageOrder(ranking)) && Sorted(all, ComponentOrder(ranking)) && s in all
    requires StrictlySorted(s, PackageOrder(ranking)) && q in s
    ensures ComparePackages(all[0][0], q, ranking) <= 0
  {
    var compare := PackageOrder(ranking);
    CompareTotal(compare, q, q);
    var i :| 0 <= i < |all| && all[i] == s;
    CompareTotal(compare, s[0], s[0]);
    assert ComparePackages(all[0][0], s[0], ranking) <= 0;
    assert compare(s[0], q) <= 0;
    CompareTransitive(compare, all[0][0], s[0], q);
  }

  /**
   What one round emits: the ready packages, or the first sink cycle when none is ready. The throw for
   "could not order" is the `assert false` branch: no run gets there.
   */
  method NextRound(remaining: PackageMap, placed: set<string>, ranking: Ranking, ghost at: Graph)
    returns (round: Component)
    requires IsCollation(ranking.locale) && PeersExist(at)
    requires remaining.Valid() && remaining.at == Rest(at, placed) && remaining.at != map[]
    ensures IsRound(at, placed, round, ranking)
  {
    hide IsCollation, SortBy, IsReadyRound, IsCycleRound, IsSinkCycle, IsReady, DependsOnRemaining,
      PeersExist, AreSinkCycles,
      SortedCycles, ReadyOf, ShortNames, PackageMap.Valid;
    var ready := SortBy(ReadyOf(remaining.Values(), placed), PackageOrder(ranking));
    if |ready| == 0 {
      BlockedDepends(at, placed, remaining);
      var cycles := SinkCycles(remaining);
      var sorted := SortedCycles(cycles, ranking);
      if |sorted| == 0 {
        assert false;
      }
      FirstCycleIsRound(at, placed, cycles, ranking);
      round := sorted[0];
    } else {
      LayerIsRound(at, placed, remaining, ranking);
      round := ready;
    }
  }

  /** The round loop over a complete package map. */
  method OrderAll(byName: PackageMap, ranking: Ranking) returns (out: seq<Package>)
    requires IsCollation(ranking.locale) && byName.Valid() && PeersExist(byName.at)
    ensures IsLayered(byName.at, out, ranking)
  {
    assert ShortNames([]) == {};
    hide IsCollation, IsRound, PeersExist, ShortNames, PackageMap.Valid;
    var at := byName.at;
    var remaining := byName;
    var placed: set<string> := {};
    ghost var rounds: seq<Component> := [];
    out := [];
    while remaining.at != map[]
      invariant remaining.Valid() && remaining.at == Rest(at, placed) && placed <= at.Keys
      invariant AreRounds(at, rounds, ranking) && Flatten(rounds) == out && placed == ShortNames(out)
      decreases remaining.at.Keys
    {
      var round := NextRound(remaining, placed, ranking, at);
      RoundBringsNew(at, placed, round, ranking);
      ghost var before := rounds;
      rounds := rounds + [round];
      assert rounds[..|rounds| - 1] == before;
      out, placed, remaining := Place(round, out, placed, remaining, at);
    }
    AllPlaced(at, placed);
    assert IsLayered(at, out, ranking);
  }

  lemma AllPlaced(at: Graph, placed: set<string>)
    requires Rest(at, placed) == map[] && placed <= at.Keys
    ensures placed == at.Keys
  {
    assert forall k :: k in at && k !in placed ==> k in Rest(at, placed);
  }

  /** The inner loop of a round: every package of it is emitted, placed and no longer remaining. */
  method Place(ready: seq<Package>, out: seq<Package>, placed: set<string>, remaining: PackageMap, ghost at: Graph)
    returns (out': seq<Package>, placed': set<string>, remaining': PackageMap)
    requires remaining.Valid() && remaining.at == Rest(at, placed) && placed == ShortNames(out)
    ensures out' == out + ready && placed' == placed + ShortNames(ready) == ShortNames(out')
    ensures remaining'.Valid() && remaining'.at == Rest(at, placed')
  {
    out', placed', remaining' := out, placed, remaining;
    for i := 0 to |ready|
      invariant out' == out + ready[..i] && placed' == placed + ShortNames(ready[..i])
      invariant remaining'.Valid() && remaining'.at == Rest(at, placed')
    {
      var pkg := ready[i];
      out' := out' + [pkg];
      placed' := placed' + {pkg.short};
      remaining' := remaining'.Without(pkg.short);
      assert ready[..i + 1] == ready[..i] + [pkg];
      NamesAppend(ready[..i], [pkg]);
      assert ShortNames([pkg]) == {pkg.short};
    }
    assert ready[..|ready|] == ready;
    NamesAppend(out, ready);
  }

  // ----- what the order promises, from the input's point of view -----

  ghost predicate UniqueNames(packages: seq<Package>) {
    forall i, j :: 0 <= i < j < |packages| ==> packages[i].short != packages[j].short
  }

  lemma ByNameHolds(packages: seq<Package>)
    requires UniqueNames(packages)
    ensures forall p :: p in packages <==> p.short in ByName(packages).at && ByName(packages).at[p.short] == p
  {
    if packages != [] {
      var n := |packages| - 1;
      ByNameHolds(packages[..n]);
      assert packages == packages[..n] + [packages[n]];
      forall p | p in packages[..n] ensures p.short != packages[n].short {
        var i :| 0 <= i < n && packages[i] == p;
      }
    }
  }

  /**
   Of packages with unique names that all exist, `topoSort` emits each exactly once, dependencies first and
   every cycle in one piece.
   */
  lemma TopoSortPromises(packages: seq<Package>, out: seq<Package>, ranking: Ranking)
    requires UniqueNames(packages) && PeersExist(ByName(packages).at)
    requires IsLayered(ByName(packages).at, out, ranking)
    ensures multiset(out) == multiset(packages)
    ensures forall i, d :: 0 <= i < |out| && d in out[i].deps ==>
              (exists j :: 0 <= j < i && out[j].short == d) || Mutual(ByName(packages).at, out[i].short, d)
    ensures CyclesTogether(ByName(packages).at, out)
  {
    var at := ByName(packages).at;
    LayeredKeepsPromises(at, out, ranking);
    ByNameHolds(packages);
    hide Reach, IsLayered, ByName, Mutual, CyclesTogether, PeersExist;
    forall p ensures p in out <==> p in packages {
      if p in packages {
        assert p.short in ShortNames(out);
      }
    }
    DistinctOnce(out);
    DistinctOnce(packages);
    SameMultiset(out, packages);
    forall i, d | 0 <= i < |out| && d in out[i].deps
      ensures (exists j :: 0 <= j < i && out[j].short == d) || Mutual(at, out[i].short, d)
    {
      if d in ShortNames(out[..i]) {
        var p :| p in out[..i] && p.short == d;
      }
    }
  }

  lemma SameMultiset(s: seq<Package>, t: seq<Package>)
    requires Once(s) && Once(t) && forall p :: p in s <==> p in t
    ensures multiset(s) == multiset(t)
  {
    forall p ensures multiset(s)[p] == multiset(t)[p] {
      assert p in multiset(s) <==> p in s;
      assert p in multiset(t) <==> p in t;
    }
  }

  /** The order depends only on the set of packages and the ranking, not on the input order. */
  lemma TopoSortConfluent(packages: seq<Package>, packages': seq<Package>, out: seq<Package>, out': seq<Package>,
                          ranking: Ranking)
    requires IsCollation(ranking.locale) && UniqueNames(packages) && UniqueNames(packages')
    requires forall p :: p in packages <==> p in packages'
    requires IsLayered(ByName(packages).at, out, ranking) && IsLayered(ByName(packages').at, out', ranking)
    ensures out == out'
  {
    hide IsCollation, IsLayered;
    SameByName(packages, packages');
    LayeredUnique(ByName(packages).at, out, out', ranking);
  }

  lemma SameByName(packages: seq<Package>, packages': seq<Package>)
    requires UniqueNames(packages) && UniqueNames(packages')
    requires forall p :: p in packages <==> p in packages'
    ensures ByName(packages).at == ByName(packages').at
  {
    ByNameHolds(packages);
    ByNameHolds(packages');
    hide UniqueNames, ByName;
    var at, at' := ByName(packages).at, ByName(packages').at;
    forall k | k in at ensures k in at' && at[k] == at'[k] {
      assert at[k].short == k && at[k] in packages';
    }
    forall k | k in at' ensures k in at {
      assert at'[k].short == k && at'[k] in packages;
    }
  }
}
