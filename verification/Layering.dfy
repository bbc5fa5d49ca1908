/**
 What `topoSort` emits, said without the loop: a list of rounds, each determined by the set of packages
 already placed. The promises of the ordering are proved about any such list.
 */
module Layering {
  import opened Digraphs
  import opened Sorting
  import opened ComponentSearch

  /** The caller's group order, and the collation of `localeCompare` as a parameter. */
  datatype Ranking = Ranking(groupOrder: Groups, locale: (string, string) -> int)

  /** An array of names; arrays are shorter than 2^32. */
  type Groups = groups: seq<string> | |groups| < 0x1_0000_0000

  const MAX_SAFE_INTEGER := 9007199254740991

  /** `indexOf`. */
  function IndexOf(s: seq<string>, x: string): (i: int)
    ensures if x in s then 0 <= i < |s| && s[i] == x && x !in s[..i] else i == -1
  {
    if s == [] then -1
    else if s[0] == x then 0
    else
      var rest := IndexOf(s[1..], x);
      if rest == -1 then -1
      else assert s[..rest + 1] == [s[0]] + s[1..][..rest]; rest + 1
  }

  function GroupRank(group: string, ranking: Ranking): int {
    var index := IndexOf(ranking.groupOrder, group);
    if index == -1 then MAX_SAFE_INTEGER else index
  }

  function ComparePackages(a: Package, b: Package, ranking: Ranking): int {
    var byRank := GroupRank(a.group, ranking) - GroupRank(b.group, ranking);
    if byRank != 0 then byRank
    else
      var byGroup := ranking.locale(a.group, b.group);
      if byGroup != 0 then byGroup else ranking.locale(a.short, b.short)
  }

  function PackageOrder(ranking: Ranking): (Package, Package) -> int {
    (a, b) => ComparePackages(a, b, ranking)
  }

  function ComponentOrder(ranking: Ranking): (Component, Component) -> int {
    (a: Component, b: Component) => ComparePackages(a[0], b[0], ranking)
  }

  /** The comparator sorts consistently, and ties only packages of one name. */
  lemma ComparePackagesOrders(ranking: Ranking)
    requires IsCollation(ranking.locale)
    ensures Consistent(PackageOrder(ranking)) && Consistent(ComponentOrder(ranking))
    ensures forall a, b :: ComparePackages(a, b, ranking) <= 0 && ComparePackages(b, a, ranking) <= 0
                           ==> a.short == b.short && a.group == b.group
  {
    hide GroupRank;
  }

  // ----- the order, said without the comparator -----

  /** The group is listed, and the other is listed later or not at all. */
  ghost predicate Precedes(groups: seq<string>, group: string, other: string) {
    exists i :: 0 <= i < |groups| && groups[i] == group && other !in groups[..i + 1]
  }

  /**
   Packages of listed groups come in the order of the list and before all others; of unlisted groups, in the order
   of the groups' names; of one group, in the order of their own.
   */
  ghost predicate ComesBefore(a: Package, b: Package, ranking: Ranking) {
    if a.group == b.group then ranking.locale(a.short, b.short) < 0
    else if a.group in ranking.groupOrder || b.group in ranking.groupOrder then
      Precedes(ranking.groupOrder, a.group, b.group)
    else ranking.locale(a.group, b.group) < 0
  }

  ghost predicate InOrder(round: seq<Package>, ranking: Ranking) {
    forall i, j :: 0 <= i < j < |round| ==>
      ComesBefore(round[i], round[j], ranking) && !ComesBefore(round[j], round[i], ranking)
  }

  lemma PrecedesIs(groups: Groups, group: string, other: string)
    requires group != other
    ensures Precedes(groups, group, other) <==>
      group in groups && (other !in groups || IndexOf(groups, group) < IndexOf(groups, other))
  {
    var g, o := IndexOf(groups, group), IndexOf(groups, other);
    if group in groups && (other !in groups || g < o) {
      assert other in groups ==> groups[..g + 1] <= groups[..o];
      assert other !in groups[..g + 1];
    }
    forall k | 0 <= k < g ensures groups[k] != group {
      assert groups[..g][k] == groups[k];
    }
    if Precedes(groups, group, other) {
      var i :| 0 <= i < |groups| && groups[i] == group && other !in groups[..i + 1];
      forall k | 0 <= k <= i ensures groups[k] != other {
        assert groups[..i + 1][k] == groups[k];
      }
    }
  }

  /** The comparator orders just so. */
  lemma CompareIs(a: Package, b: Package, ranking: Ranking)
    requires IsCollation(ranking.locale)
    ensures ComparePackages(a, b, ranking) < 0 <==> ComesBefore(a, b, ranking)
    ensures ComparePackages(a, b, ranking) == 0 <==> a.group == b.group && a.short == b.short
    ensures ComparePackages(a, b, ranking) > 0 <==> ComesBefore(b, a, ranking)
  {
    hide Precedes;
    if a.group != b.group {
      PrecedesIs(ranking.groupOrder, a.group, b.group);
      PrecedesIs(ranking.groupOrder, b.group, a.group);
      DifferentRanks(a.group, b.group, ranking);
    }
  }

  lemma DifferentRanks(group: string, other: string, ranking: Ranking)
    requires group != other
    ensures GroupRank(group, ranking) == GroupRank(other, ranking)
        <==> group !in ranking.groupOrder && other !in ranking.groupOrder
  {
  }

  lemma InOrderIs(round: seq<Package>, ranking: Ranking)
    requires IsCollation(ranking.locale)
    ensures InOrder(round, ranking) <==> StrictlySorted(round, PackageOrder(ranking))
  {
    hide ComesBefore, ComparePackages, IsCollation;
    forall i, j | 0 <= i < |round| && 0 <= j < |round|
      ensures ComesBefore(round[i], round[j], ranking) <==> PackageOrder(ranking)(round[i], round[j]) < 0
      ensures ComesBefore(round[i], round[j], ranking) <==> PackageOrder(ranking)(round[j], round[i]) > 0
    {
      CompareIs(round[i], round[j], ranking);
      CompareIs(round[j], round[i], ranking);
    }
    if StrictlySorted(round, PackageOrder(ranking)) {
      forall i, j | 0 <= i < j < |round|
        ensures ComesBefore(round[i], round[j], ranking) && !ComesBefore(round[j], round[i], ranking)
      {
        assert PackageOrder(ranking)(round[j], round[i]) > 0;
      }
    }
  }

  // ----- the rounds -----

  /** The packages not yet placed. */
  ghost function Rest(at: Graph, placed: set<string>): Graph {
    at - placed
  }

  ghost predicate IsReady(at: Graph, placed: set<string>, p: Package) {
    p.short in Rest(at, placed) && at[p.short] == p && forall d :: d in p.deps ==> d in placed
  }

  /** Every package whose dependencies are all placed, in order. */
  ghost predicate IsReadyRound(at: Graph, placed: set<string>, round: Component, ranking: Ranking) {
    && InOrder(round, ranking)
    && (forall p :: p in round <==> IsReady(at, placed, p))
  }

  /** No package is ready, and the round is the sink cycle with the least first member. */
  ghost predicate IsCycleRound(at: Graph, placed: set<string>, round: Component, ranking: Ranking) {
    && (forall p :: !IsReady(at, placed, p))
    && InOrder(round, ranking)
    && IsSinkCycle(Rest(at, placed), round)
    && (forall c: Component, q :: IsSinkCycle(Rest(at, placed), c) && q in c
                                  ==> !ComesBefore(q, round[0], ranking))
  }

  ghost predicate IsRound(at: Graph, placed: set<string>, round: Component, ranking: Ranking) {
    IsReadyRound(at, placed, round, ranking) || IsCycleRound(at, placed, round, ranking)
  }

  ghost function Flatten(rounds: seq<Component>): seq<Package> {
    if rounds == [] then [] else Flatten(rounds[..|rounds| - 1]) + rounds[|rounds| - 1]
  }

  /** The rounds follow from one another, starting with nothing placed. */
  ghost predicate AreRounds(at: Graph, rounds: seq<Component>, ranking: Ranking) {
    rounds == [] ||
    (var before := rounds[..|rounds| - 1];
     AreRounds(at, before, ranking) && IsRound(at, ShortNames(Flatten(before)), rounds[|rounds| - 1], ranking))
  }

  /** `out` is the concatenation of rounds that place every package. */
  ghost predicate IsLayered(at: Graph, out: seq<Package>, ranking: Ranking) {
    exists rounds :: AreRounds(at, rounds, ranking) && Flatten(rounds) == out && ShortNames(out) == at.Keys
  }

  ghost predicate PeersExist(at: Graph) {
    forall k, d :: k in at && d in at[k].deps ==> d in at
  }

  /** Emitted packages are packages of the graph, each once. */
  ghost predicate EmittedOnce(at: Graph, out: seq<Package>) {
    && (forall p :: p in out ==> p.short in at && at[p.short] == p)
    && (forall i, j :: 0 <= i < j < |out| ==> out[i].short != out[j].short)
  }

  /** Every dependency is emitted earlier or lies in the same dependency cycle. */
  ghost predicate DependenciesFirst(at: Graph, out: seq<Package>) {
    forall i, d :: 0 <= i < |out| && d in out[i].deps ==> d in ShortNames(out[..i]) || Mutual(at, out[i].short, d)
  }

  /** Nothing is emitted between two packages of one cycle except packages of that cycle. */
  ghost predicate CyclesTogether(at: Graph, out: seq<Package>) {
    forall i, j, k :: 0 <= i <= j <= k < |out| && Mutual(at, out[i].short, out[k].short)
                      ==> Mutual(at, out[i].short, out[j].short)
  }

  /** What one round adds to a set of placed packages that already holds its own dependencies. */
  ghost predicate RoundFits(at: Graph, placed: set<string>, round: Component) {
    && EmittedOnce(at, round)
    && ShortNames(round) !! placed
    && Closed(at, placed + ShortNames(round))
    && (forall p, d :: p in round && d in p.deps ==> d in placed || Mutual(at, p.short, d))
    && (forall p, k :: p in round && Mutual(at, p.short, k) ==> k in ShortNames(round))
    && (forall p, q, r :: p in round && q in round && r in round && Mutual(at, p.short, q.short) && p != q
                          ==> Mutual(at, p.short, r.short))
  }

  /** A package whose dependencies are all placed is in no cycle. */
  lemma ReadyStandsAlone(at: Graph, placed: set<string>, p: Package, k: string)
    requires Closed(at, placed) && IsReady(at, placed, p) && Mutual(at, p.short, k)
    ensures k == p.short
  {
    assert Closed(at, placed + {p.short});
    hide Reach, Closed;
    ClosedHoldsReach(at, placed + {p.short}, p.short, k);
    if k in placed {
      ClosedHoldsReach(at, placed, k, p.short);
    }
  }

  lemma ReadyRoundFits(at: Graph, placed: set<string>, round: Component, ranking: Ranking)
    requires Keyed(at) && PeersExist(at) && Closed(at, placed)
    requires IsReadyRound(at, placed, round, ranking)
    ensures RoundFits(at, placed, round)
  {
    hide Reach, Mutual;
    assert forall p :: p in round ==> IsReady(at, placed, p);
    forall p, k | p in round && Mutual(at, p.short, k) ensures k == p.short {
      ReadyStandsAlone(at, placed, p, k);
    }
    ReadyRoundOnce(at, placed, round, ranking);
  }

  lemma ReadyRoundOnce(at: Graph, placed: set<string>, round: Component, ranking: Ranking)
    requires IsReadyRound(at, placed, round, ranking)
    ensures EmittedOnce(at, round)
  {
    forall i, j | 0 <= i < j < |round| ensures round[i].short != round[j].short {
      assert IsReady(at, placed, round[i]) && IsReady(at, placed, round[j]);
      assert round[i] != round[j];
    }
  }

  lemma CycleRoundFits(at: Graph, placed: set<string>, round: Component, ranking: Ranking)
    requires Keyed(at) && PeersExist(at) && Closed(at, placed)
    requires IsCycleRound(at, placed, round, ranking)
    ensures RoundFits(at, placed, round)
  {
    var rest := Rest(at, placed);
    assert forall p, q :: p in round && q in round ==> Reach(rest, p.short, q.short);
    hide Reach;
    forall p, q | p in round && q in round ensures Mutual(at, p.short, q.short) {
      ReachMonotone(rest, at, p.short, q.short);
      ReachMonotone(rest, at, q.short, p.short);
    }
    CycleRoundClosed(at, placed, round);
    hide Mutual, ComparePackages, PackageOrder, IsReady;
    forall p, k | p in round && Mutual(at, p.short, k) ensures k in ShortNames(round) {
      assert p.short in ShortNames(round);
      CycleRoundWhole(at, placed, ShortNames(round), p.short, k);
    }
    forall p, d | p in round && d in p.deps ensures d in placed || Mutual(at, p.short, d) {
      if d !in placed {
        assert Edge(at, p.short, d);
        assert p.short in ShortNames(round);
        assert d in ShortNames(round);
      }
    }
  }

  lemma CycleRoundClosed(at: Graph, placed: set<string>, round: Component)
    requires Closed(at, placed) && IsSink(Rest(at, placed), round)
    requires ShortNames(round) <= Rest(at, placed).Keys
    ensures Closed(at, placed + ShortNames(round))
  {
    forall v, w | v in placed + ShortNames(round) && Edge(at, v, w) ensures w in placed + ShortNames(round) {
      if v !in placed && w !in placed {
        assert Edge(Rest(at, placed), v, w);
      }
    }
  }

  lemma CycleRoundWhole(at: Graph, placed: set<string>, names: set<string>, v: string, k: string)
    requires Closed(at, placed) && Closed(at, placed + names) && names !! placed
    requires v in names && Mutual(at, v, k)
    ensures k in names
  {
    hide Reach, Closed;
    ClosedHoldsReach(at, placed + names, v, k);
    if k in placed {
      ClosedHoldsReach(at, placed, k, v);
    }
  }

  lemma RoundAlwaysFits(at: Graph, placed: set<string>, round: Component, ranking: Ranking)
    requires Keyed(at) && PeersExist(at) && Closed(at, placed)
    requires IsRound(at, placed, round, ranking)
    ensures RoundFits(at, placed, round)
  {
    hide RoundFits, IsReadyRound, IsCycleRound, Closed;
    if IsReadyRound(at, placed, round, ranking) {
      ReadyRoundFits(at, placed, round, ranking);
    } else {
      CycleRoundFits(at, placed, round, ranking);
    }
  }

  /** Every promise of the ordering, for what the rounds so far have emitted. */
  lemma {:induction false} RoundsKeepPromises(at: Graph, rounds: seq<Component>, ranking: Ranking)
    requires Keyed(at) && PeersExist(at) && AreRounds(at, rounds, ranking)
    ensures EmittedOnce(at, Flatten(rounds)) && Closed(at, ShortNames(Flatten(rounds)))
    ensures DependenciesFirst(at, Flatten(rounds)) && CyclesTogether(at, Flatten(rounds))
  {
    if rounds != [] {
      hide Reach, IsRound, EmittedOnce, Closed, DependenciesFirst, CyclesTogether, ShortNames, RoundFits;
      var before, round := rounds[..|rounds| - 1], rounds[|rounds| - 1];
      var out := Flatten(before);
      RoundsKeepPromises(at, before, ranking);
      RoundAlwaysFits(at, ShortNames(out), round, ranking);
      AppendOnce(at, out, round);
      AppendFirst(at, out, round);
      AppendTogether(at, out, round);
    }
  }

  lemma NamesAppend(s: seq<Package>, t: seq<Package>)
    ensures ShortNames(s + t) == ShortNames(s) + ShortNames(t)
  {
  }

  lemma AppendOnce(at: Graph, out: seq<Package>, round: Component)
    requires EmittedOnce(at, out) && RoundFits(at, ShortNames(out), round)
    ensures EmittedOnce(at, out + round) && Closed(at, ShortNames(out + round))
  {
    hide Reach, Mutual, Closed;
    NamesAppend(out, round);
    forall i, j | 0 <= i < j < |out + round| ensures (out + round)[i].short != (out + round)[j].short {
      if i < |out| <= j {
        assert out[i].short in ShortNames(out) && round[j - |out|].short in ShortNames(round);
      }
    }
  }

  lemma AppendFirst(at: Graph, out: seq<Package>, round: Component)
    requires DependenciesFirst(at, out) && RoundFits(at, ShortNames(out), round)
    ensures DependenciesFirst(at, out + round)
  {
    hide Reach, Mutual, Closed, EmittedOnce;
    var all := out + round;
    forall i, d | 0 <= i < |all| && d in all[i].deps ensures d in ShortNames(all[..i]) || Mutual(at, all[i].short, d) {
      if i < |out| {
        assert all[..i] == out[..i];
      } else {
        assert all[..i] == out + round[..i - |out|];
        NamesAppend(out, round[..i - |out|]);
        assert all[i] == round[i - |out|];
      }
    }
  }

  lemma AppendTogether(at: Graph, out: seq<Package>, round: Component)
    requires CyclesTogether(at, out) && EmittedOnce(at, out) && RoundFits(at, ShortNames(out), round)
    ensures CyclesTogether(at, out + round)
  {
    hide Reach, Mutual, Closed;
    var all := out + round;
    assert forall i :: 0 <= i < |out| ==> out[i].short in ShortNames(out);
    forall i, j, k | 0 <= i <= j <= k < |all| && Mutual(at, all[i].short, all[k].short)
      ensures Mutual(at, all[i].short, all[j].short)
    {
      if k >= |out| {
        var r := round[k - |out|];
        if i < |out| {
          MutualSymmetric(at, all[i].short, r.short);
          assert false;
        } else if i < k {
          assert all[i] == round[i - |out|] && all[j] == round[j - |out|];
          assert all[i] != r;
        }
      }
    }
  }

  lemma MutualSymmetric(at: Graph, a: string, b: string)
    requires Mutual(at, a, b)
    ensures Mutual(at, b, a)
  {
  }

  // ----- confluence -----

  lemma PrefixRounds(at: Graph, rounds: seq<Component>, ranking: Ranking, n: nat)
    requires AreRounds(at, rounds, ranking) && n <= |rounds|
    ensures AreRounds(at, rounds[..n], ranking)
    ensures n < |rounds| ==> IsRound(at, ShortNames(Flatten(rounds[..n])), rounds[n], ranking)
  {
    hide IsRound;
    if n < |rounds| {
      var before := rounds[..|rounds| - 1];
      PrefixRounds(at, before, ranking, n);
      assert before[..n] == rounds[..n];
      assert n == |rounds| - 1 ==> rounds[..n] == before;
    } else {
      assert rounds[..n] == rounds;
    }
  }

  /** The placed packages determine the next round. */
  lemma RoundUnique(at: Graph, placed: set<string>, a: Component, b: Component, ranking: Ranking)
    requires IsCollation(ranking.locale)
    requires IsRound(at, placed, a, ranking) && IsRound(at, placed, b, ranking)
    ensures a == b
  {
    hide IsCollation, Consistent, StrictlySorted, ComparePackages, ComesBefore, InOrder, IsReady, IsSinkCycle;
    if IsReadyRound(at, placed, a, ranking) {
      assert a[0] in a && IsReady(at, placed, a[0]);
      SameOrder(a, b, ranking);
    } else {
      assert b[0] in b && !IsReady(at, placed, b[0]);
      CycleUnique(at, placed, a, b, ranking);
    }
  }

  lemma CycleUnique(at: Graph, placed: set<string>, a: Component, b: Component, ranking: Ranking)
    requires IsCollation(ranking.locale)
    requires IsCycleRound(at, placed, a, ranking) && IsCycleRound(at, placed, b, ranking)
    ensures a == b
  {
    hide IsCollation, ComesBefore, InOrder, IsReady, ComparePackages;
    assert a[0] in a && b[0] in b;
    CompareIs(a[0], b[0], ranking);
    SameComponentPackages(Rest(at, placed), a, b);
    SameOrder(a, b, ranking);
  }

  lemma SameOrder(a: Component, b: Component, ranking: Ranking)
    requires IsCollation(ranking.locale) && InOrder(a, ranking) && InOrder(b, ranking)
    requires forall p :: p in a <==> p in b
    ensures a == b
  {
    ComparePackagesOrders(ranking);
    InOrderIs(a, ranking);
    InOrderIs(b, ranking);
    hide IsCollation, Consistent, StrictlySorted, ComparePackages, InOrder;
    StrictlySortedUnique(a, b, PackageOrder(ranking));
  }

  /** Components that share their least package are the same component. */
  lemma SameComponentPackages(g: Graph, a: Component, b: Component)
    requires IsComponent(g, a) && IsComponent(g, b) && a[0].short == b[0].short
    ensures forall p :: p in a <==> p in b
  {
    hide Reach, Mutual;
    assert a[0] in a && b[0] in b;
    SameComponent(g, a, b, a[0].short);
    forall p ensures p in a <==> p in b {
      assert p in a ==> p.short in ShortNames(b);
      assert p in b ==> p.short in ShortNames(a);
    }
  }

  lemma {:induction false} RoundsUnique(at: Graph, a: seq<Component>, b: seq<Component>, ranking: Ranking, n: nat)
    requires IsCollation(ranking.locale)
    requires AreRounds(at, a, ranking) && AreRounds(at, b, ranking) && n <= |a| && n <= |b|
    ensures a[..n] == b[..n]
  {
    hide IsCollation, IsRound, AreRounds;
    if n > 0 {
      RoundsUnique(at, a, b, ranking, n - 1);
      PrefixRounds(at, a, ranking, n - 1);
      PrefixRounds(at, b, ranking, n - 1);
      RoundUnique(at, ShortNames(Flatten(a[..n - 1])), a[n - 1], b[n - 1], ranking);
      assert a[..n] == a[..n - 1] + [a[n - 1]] && b[..n] == b[..n - 1] + [b[n - 1]];
    }
  }

  lemma RoundBringsNew(at: Graph, placed: set<string>, round: Component, ranking: Ranking)
    requires IsRound(at, placed, round, ranking)
    ensures round[0].short in ShortNames(round) && round[0].short in at && round[0].short !in placed
    ensures ShortNames(round) <= at.Keys
  {
    hide Reach, Mutual;
    assert round[0] in round;
    assert IsReadyRound(at, placed, round, ranking) ==> forall p :: p in round ==> IsReady(at, placed, p);
  }

  /** Once everything is placed there is no further round. */
  lemma NoRoundLeft(at: Graph, rounds: seq<Component>, ranking: Ranking, n: nat)
    requires AreRounds(at, rounds, ranking) && n <= |rounds| && ShortNames(Flatten(rounds[..n])) == at.Keys
    ensures n == |rounds|
  {
    if n < |rounds| {
      PrefixRounds(at, rounds, ranking, n);
      RoundBringsNew(at, at.Keys, rounds[n], ranking);
      assert false;
    }
  }

  /** The packages and the ranking determine the whole order. */
  lemma LayeredUnique(at: Graph, out: seq<Package>, out': seq<Package>, ranking: Ranking)
    requires IsCollation(ranking.locale)
    requires IsLayered(at, out, ranking) && IsLayered(at, out', ranking)
    ensures out == out'
  {
    hide IsCollation, AreRounds;
    var a :| AreRounds(at, a, ranking) && Flatten(a) == out && ShortNames(out) == at.Keys;
    var b :| AreRounds(at, b, ranking) && Flatten(b) == out' && ShortNames(out') == at.Keys;
    var n := if |a| <= |b| then |a| else |b|;
    RoundsUnique(at, a, b, ranking, n);
    assert a[..|a|] == a && b[..|b|] == b;
    if |a| <= |b| {
      NoRoundLeft(at, b, ranking, n);
    } else {
      NoRoundLeft(at, a, ranking, n);
    }
  }

  /** Nothing of the order is lost or repeated, and it keeps the promises. */
  lemma LayeredKeepsPromises(at: Graph, out: seq<Package>, ranking: Ranking)
    requires Keyed(at) && PeersExist(at) && IsLayered(at, out, ranking)
    ensures EmittedOnce(at, out) && ShortNames(out) == at.Keys
    ensures DependenciesFirst(at, out) && CyclesTogether(at, out)
  {
    var rounds :| AreRounds(at, rounds, ranking) && Flatten(rounds) == out && ShortNames(out) == at.Keys;
    RoundsKeepPromises(at, rounds, ranking);
  }
}
