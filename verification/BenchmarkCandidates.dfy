/** `discoverBenchmarkCandidates`: the packages an install of the target reaches, filtered to the candidates. */
module BenchmarkCandidates {
  import opened Digraphs
  import opened Sorting

  const TARGET_PACKAGE := "@deepseek-ai/dsh"
  const CORDIS := "@deepseek-ai/cordis"

  /** The names a published manifest lists, in order, and which of its peers are optional. */
  datatype Manifest = Manifest(
    dependencies: seq<string>,
    optionalDependencies: seq<string>,
    peerDependencies: seq<string>,
    optionalPeers: set<string>)

  datatype Registry = Registry(
    index: map<string, map<string, Manifest>>,
    workspaceVersions: map<string, string>)
  {
    predicate Resolves(name: string) {
      name in workspaceVersions && name in index && workspaceVersions[name] in index[name]
    }

    function ManifestOf(name: string): Manifest
      requires Resolves(name)
    {
      index[name][workspaceVersions[name]]
    }
  }

  function RequiredPeers(peers: seq<string>, optional: set<string>): (names: seq<string>)
    ensures forall n :: n in names <==> n in peers && n !in optional
  {
    if peers == [] then []
    else (if peers[0] in optional then [] else [peers[0]]) + RequiredPeers(peers[1..], optional)
  }

  /** The keys of one object: each name once. */
  function Keys(names: seq<string>): (keys: seq<string>)
    ensures forall n :: n in keys <==> n in names
  {
    if names == [] then []
    else
      var n := |names| - 1;
      assert names == names[..n] + [names[n]];
      Keys(names[..n]) + (if names[n] in names[..n] then [] else [names[n]])
  }

  /** What installing a manifest brings in: dependencies, optional dependencies and non-optional peers. */
  function Installed(m: Manifest): seq<string> {
    Keys(m.dependencies + m.optionalDependencies + RequiredPeers(m.peerDependencies, m.optionalPeers))
  }

  /** The resolvable packages and what each brings in. */
  ghost function Dependencies(r: Registry): Graph {
    map n | n in r.workspaceVersions && r.Resolves(n) :: Package(n, n, "", "", Installed(r.ManifestOf(n)))
  }

  /** A package is a candidate by its own facts: outside the policy, released, and with a peer other than cordis. */
  predicate IsCandidate(r: Registry, release: set<string>, policy: set<string>, name: string) {
    && name !in policy && name in release
    && r.Resolves(name) && exists peer :: peer in r.ManifestOf(name).peerDependencies && peer != CORDIS
  }

  function Candidates(r: Registry, release: set<string>, policy: set<string>, names: seq<string>): (kept: seq<string>)
    ensures forall n :: n in kept <==> n in names && IsCandidate(r, release, policy, n)
  {
    if names == [] then []
    else (if IsCandidate(r, release, policy, names[0]) then [names[0]] else [])
         + Candidates(r, release, policy, names[1..])
  }

  /** The target, or a dependency of a reached package. */
  ghost predicate IsWanted(r: Registry, reached: seq<string>, name: string) {
    name == TARGET_PACKAGE || exists n :: n in reached && BringsIn(r, n, name)
  }

  ghost predicate BringsIn(r: Registry, n: string, name: string) {
    r.Resolves(n) && name in Installed(r.ManifestOf(n))
  }

  /** Everything reached so far is reachable, and what it needs is reached, still queued or cannot be resolved. */
  ghost predicate Explored(r: Registry, reached: seq<string>, pending: set<string>) {
    && (forall n :: n in reached ==> r.Resolves(n) && Reach(Dependencies(r), TARGET_PACKAGE, n))
    && (forall n :: n in pending ==> IsWanted(r, reached, n))
    && (forall n :: IsWanted(r, reached, n) && r.Resolves(n) ==> n in reached || n in pending)
  }

  ghost function Pending(queue: seq<string>, cursor: nat): set<string>
    requires cursor <= |queue|
  {
    set n | n in queue[cursor..]
  }

  lemma PendingNext(queue: seq<string>, cursor: nat)
    requires cursor < |queue|
    ensures queue[cursor] in Pending(queue, cursor)
    ensures Pending(queue, cursor) == Pending(queue, cursor + 1) + {queue[cursor]}
  {
    assert queue[cursor..] == [queue[cursor]] + queue[cursor + 1..];
  }

  lemma PendingPush(queue: seq<string>, cursor: nat, name: string)
    requires cursor <= |queue|
    ensures Pending(queue + [name], cursor) == Pending(queue, cursor) + {name}
  {
    assert (queue + [name])[cursor..] == queue[cursor..] + [name];
  }

  lemma StartsExplored(r: Registry)
    ensures Explored(r, [], Pending([TARGET_PACKAGE], 0))
  {
    assert [TARGET_PACKAGE][0..] == [TARGET_PACKAGE];
  }

  /** A name already reached, or one that cannot be resolved, needs no turn. */
  lemma SkipKeeps(r: Registry, reached: seq<string>, pending: set<string>, pending': set<string>, name: string)
    requires Explored(r, reached, pending) && pending == pending' + {name}
    requires name in reached || !r.Resolves(name)
    ensures Explored(r, reached, pending')
  {
  }

  lemma WantedReaches(r: Registry, reached: seq<string>, pending: set<string>, name: string)
    requires Explored(r, reached, pending) && name in pending && r.Resolves(name)
    ensures Reach(Dependencies(r), TARGET_PACKAGE, name)
  {
    var g := Dependencies(r);
    if name == TARGET_PACKAGE {
      ReachSelf(g, name);
    } else {
      var n :| n in reached && BringsIn(r, n, name);
      assert Edge(g, n, name);
      ReachEdge(g, n, name);
      ReachTransitive(g, TARGET_PACKAGE, n, name);
    }
  }

  lemma ReachKeeps(r: Registry, reached: seq<string>, pending: set<string>, pending': set<string>, name: string)
    requires Explored(r, reached, pending) && r.Resolves(name) && name in pending
    requires forall n :: n in pending ==> n == name || n in pending'
    requires forall n :: n in pending' ==> n in pending || BringsIn(r, name, n)
    requires forall n :: BringsIn(r, name, n) ==> n == name || n in reached || n in pending'
    ensures Explored(r, reached + [name], pending')
  {
    WantedReaches(r, reached, pending, name);
    hide Reach, Dependencies, BringsIn, Registry.Resolves;
    var all := reached + [name];
    assert name in all;
    forall n | n in pending' ensures IsWanted(r, all, n) {
      if n in pending && n != TARGET_PACKAGE {
        var m :| m in reached && BringsIn(r, m, n);
        assert m in all;
      }
    }
    forall n | IsWanted(r, all, n) && r.Resolves(n) ensures n in all || n in pending' {
      if n != TARGET_PACKAGE {
        var m :| m in all && BringsIn(r, m, n);
        assert m in reached ==> IsWanted(r, reached, n);
      } else {
        assert IsWanted(r, reached, n);
      }
    }
  }

  /** With nothing pending, exactly the reachable packages are reached. */
  lemma AllReached(r: Registry, reached: seq<string>)
    requires Explored(r, reached, {})
    ensures forall n :: n in reached <==> Reach(Dependencies(r), TARGET_PACKAGE, n)
  {
    var g := Dependencies(r);
    var d := set n | n in reached;
    forall v, w | v in d && Edge(g, v, w) ensures w in d {
      assert BringsIn(r, v, w);
      assert IsWanted(r, reached, w);
    }
    forall n | Reach(g, TARGET_PACKAGE, n) ensures n in reached {
      ReachInGraph(g, TARGET_PACKAGE, n);
      assert IsWanted(r, reached, TARGET_PACKAGE);
      ClosedHoldsReach(g, d, TARGET_PACKAGE, n);
    }
  }

  lemma OnceMore(s: seq<string>, name: string)
    requires Once(s) && name !in s
    ensures Once(s + [name])
  {
    forall x ensures multiset(s + [name])[x] <= 1 {
      assert multiset(s)[x] <= 1 && (x == name ==> x !in multiset(s));
    }
  }

  lemma CandidatesOnce(r: Registry, release: set<string>, policy: set<string>, names: seq<string>)
    ensures multiset(Candidates(r, release, policy, names)) <= multiset(names)
  {
    if names != [] {
      CandidatesOnce(r, release, policy, names[1..]);
      assert names == [names[0]] + names[1..];
    }
  }

  /** The worklist: its queue may name a package many times, and each is taken up once. */
  method ReachAll(r: Registry, order: (string, string) -> int) returns (reached: seq<string>)
    requires IsCollation(order)
    ensures Once(reached)
    ensures forall n :: n in reached <==> IsNeeded(r, n)
  {
    hide IsNeeded, Explored, Once, IsCollation, Reach, Dependencies, Pending, BringsIn, Installed;
    reached := [];
    var queue, cursor := [TARGET_PACKAGE], 0;
    StartsExplored(r);
    OnceNone();
    while cursor < |queue|
      invariant cursor <= |queue|
      invariant Explored(r, reached, Pending(queue, cursor)) && Once(reached)
      decreases r.workspaceVersions.Keys - (set n | n in reached), |queue| - cursor
    {
      var name := queue[cursor];
      ghost var pending := Pending(queue, cursor);
      PendingNext(queue, cursor);
      cursor := cursor + 1;
      if name in reached || !r.Resolves(name) {
        SkipKeeps(r, reached, pending, Pending(queue, cursor), name);
      } else {
        ghost var before := reached;
        reached := reached + [name];
        OnceMore(before, name);
        queue := Enqueue(queue, cursor, reached, Installed(r.ManifestOf(name)), order);
        NextPending(r, before, name, pending, Pending(queue, cursor));
        assert name in r.workspaceVersions.Keys - (set n | n in before);
        assert name !in r.workspaceVersions.Keys - (set n | n in reached);
      }
    }
    NonePending(queue);
    AllReached(r, reached);
    forall n ensures n in reached <==> IsNeeded(r, n) {
      NeededIff(r, n);
    }
  }

  lemma OnceNone()
    ensures Once<string>([])
  {
  }

  lemma NonePending(queue: seq<string>)
    ensures Pending(queue, |queue|) == {}
  {
  }

  lemma NextPending(r: Registry, reached: seq<string>, name: string, pending: set<string>, pending': set<string>)
    requires Explored(r, reached, pending) && r.Resolves(name) && name in pending
    requires pending <= pending' + {name}
    requires forall n :: n in pending' ==> n in pending || n in Installed(r.ManifestOf(name))
    requires forall n :: n in Installed(r.ManifestOf(name)) ==> n in reached + [name] || n in pending'
    ensures Explored(r, reached + [name], pending')
  {
    ReachKeeps(r, reached, pending, pending', name);
  }

  /** The inner loop: dependencies not yet reached join the queue, in sorted order. */
  method Enqueue(queue: seq<string>, ghost cursor: nat, reached: seq<string>, names: seq<string>,
    order: (string, string) -> int)
    returns (queue': seq<string>)
    requires cursor <= |queue| && IsCollation(order)
    ensures queue <= queue'
    ensures Pending(queue, cursor) <= Pending(queue', cursor)
    ensures forall n :: n in Pending(queue', cursor) ==> n in Pending(queue, cursor) || n in names
    ensures forall n :: n in names ==> n in reached || n in Pending(queue', cursor)
  {
    hide Pending;
    var sorted := SortBy(names, order);
    CollationSorts(order);
    SortBySorts(names, order);
    queue' := queue;
    for i := 0 to |sorted|
      invariant queue <= queue' && cursor <= |queue'|
      invariant Pending(queue, cursor) <= Pending(queue', cursor)
      invariant forall n :: n in Pending(queue', cursor) ==> n in Pending(queue, cursor) || n in sorted
      invariant forall n :: n in sorted[..i] ==> n in reached || n in Pending(queue', cursor)
    {
      assert sorted[..i + 1] == sorted[..i] + [sorted[i]];
      if sorted[i] !in reached {
        PendingPush(queue', cursor, sorted[i]);
        queue' := queue' + [sorted[i]];
      }
    }
    assert sorted[..|sorted|] == sorted;
  }

  lemma CollationSorts(order: (string, string) -> int)
    requires IsCollation(order)
    ensures Consistent(order)
  {
  }

  // ----- what is needed, over the manifests -----

  ghost predicate IsPublished(r: Registry, name: string) {
    && name in r.workspaceVersions && name in r.index
    && r.workspaceVersions[name] in r.index[name]
  }

  ghost function Published(r: Registry, name: string): Manifest
    requires IsPublished(r, name)
  {
    r.index[name][r.workspaceVersions[name]]
  }

  /** A dependency, an optional dependency, or a peer that is not optional. */
  ghost predicate Needs(r: Registry, name: string, other: string) {
    && IsPublished(r, name) && IsPublished(r, other)
    && (var m := Published(r, name);
        || other in m.dependencies
        || other in m.optionalDependencies
        || (other in m.peerDependencies && other !in m.optionalPeers))
  }

  /** A chain of needs from the target to the package. */
  ghost predicate IsChain(r: Registry, chain: seq<string>, name: string) {
    && chain != [] && chain[0] == "@deepseek-ai/dsh" && chain[|chain| - 1] == name
    && (forall i :: 0 <= i < |chain| ==> IsPublished(r, chain[i]))
    && (forall i :: 0 <= i < |chain| - 1 ==> Needs(r, chain[i], chain[i + 1]))
  }

  ghost predicate IsNeeded(r: Registry, name: string) {
    exists chain :: IsChain(r, chain, name)
  }

  /** The edges that the search follows are the needs of the manifests. */
  lemma EdgeIff(r: Registry, a: string, b: string)
    ensures Edge(Dependencies(r), a, b) <==> Needs(r, a, b)
  {
  }

  lemma NeededIff(r: Registry, name: string)
    ensures Reach(Dependencies(r), TARGET_PACKAGE, name) <==> IsNeeded(r, name)
  {
    var g := Dependencies(r);
    forall chain ensures Connects(g, chain, TARGET_PACKAGE, name) <==> IsChain(r, chain, name) {
      hide Dependencies;
      PublishedIff(r);
      forall i | 0 <= i < |chain| - 1 ensures Edge(g, chain[i], chain[i + 1]) <==> Needs(r, chain[i], chain[i + 1]) {
        EdgeIff(r, chain[i], chain[i + 1]);
      }
    }
  }

  lemma PublishedIff(r: Registry)
    ensures forall n :: n in Dependencies(r) <==> IsPublished(r, n)
  {
  }

  /**
   The candidates are exactly the packages that are reachable from the target through dependencies, optional
   dependencies and required peers, and qualify; each once, in order.
   */
  method Discover(r: Registry, release: set<string>, policy: set<string>, order: (string, string) -> int)
    returns (candidates: seq<string>)
    requires IsCollation(order)
    ensures forall n :: n in candidates <==>
              && IsNeeded(r, n) && n !in policy && n in release
              && IsPublished(r, n)
              && exists peer :: peer in Published(r, n).peerDependencies && peer != "@deepseek-ai/cordis"
    ensures Sorted(candidates, order) && Once(candidates)
  {
    hide Reach, Dependencies, IsCollation, IsNeeded;
    var reached := ReachAll(r, order);
    var kept := Candidates(r, release, policy, reached);
    CandidatesOnce(r, release, policy, reached);
    CollationSorts(order);
    SortBySorts(kept, order);
    candidates := SortBy(kept, order);
  }
}
