/** Packages, the dependency edges among them, and reachability along those edges. */
module Digraphs {

  /** One harness package and its in-repo peer-dependency edges. */
  datatype Package = Package(short: string, name: string, group: string, rel: string, deps: seq<string>)

  /** A non-empty list of packages. */
  type Component = c: seq<Package> | |c| > 0 witness [Package("", "", "", "", [])]

  /** A package map keyed by short name, as `byName` and `remaining` are. */
  type Graph = map<string, Package>

  /** Every package sits under its own short name. */
  ghost predicate Keyed(g: Graph) {
    forall k :: k in g ==> g[k].short == k
  }

  ghost predicate Edge(g: Graph, a: string, b: string) {
    a in g && b in g && b in g[a].deps
  }

  ghost predicate IsPath(g: Graph, p: seq<string>) {
    && |p| > 0
    && (forall i :: 0 <= i < |p| ==> p[i] in g)
    && (forall i :: 0 <= i < |p| - 1 ==> Edge(g, p[i], p[i + 1]))
  }

  ghost predicate Connects(g: Graph, p: seq<string>, a: string, b: string) {
    IsPath(g, p) && p[0] == a && p[|p| - 1] == b
  }

  /** `b` is reachable from `a`; every package of the graph reaches itself. */
  ghost predicate Reach(g: Graph, a: string, b: string) {
    exists p :: Connects(g, p, a, b)
  }

  ghost predicate Mutual(g: Graph, a: string, b: string) {
    Reach(g, a, b) && Reach(g, b, a)
  }

  /** No edge leaves `d`. */
  ghost predicate Closed(g: Graph, d: set<string>) {
    forall v, w :: v in d && Edge(g, v, w) ==> w in d
  }

  lemma ReachSelf(g: Graph, a: string)
    requires a in g
    ensures Reach(g, a, a)
  {
    assert Connects(g, [a], a, a);
  }

  lemma ReachEdge(g: Graph, a: string, b: string)
    requires Edge(g, a, b)
    ensures Reach(g, a, b)
  {
    assert Connects(g, [a, b], a, b);
  }

  lemma ReachTransitive(g: Graph, a: string, b: string, c: string)
    requires Reach(g, a, b) && Reach(g, b, c)
    ensures Reach(g, a, c)
  {
    var p :| Connects(g, p, a, b);
    var q :| Connects(g, q, b, c);
    var r := p + q[1..];
    forall i | 0 <= i < |r| - 1 ensures Edge(g, r[i], r[i + 1]) {
      if i >= |p| - 1 {
        assert r[i] == q[i - |p| + 1] && r[i + 1] == q[i - |p| + 2];
      }
    }
    assert Connects(g, r, a, c);
  }

  /** A set no edge leaves holds everything its members reach. */
  lemma ClosedHoldsReach(g: Graph, d: set<string>, a: string, b: string)
    requires Closed(g, d) && a in d && Reach(g, a, b)
    ensures b in d
  {
    var p :| Connects(g, p, a, b);
    var i := 0;
    while i < |p| - 1
      invariant 0 <= i < |p| && p[i] in d
    {
      assert Edge(g, p[i], p[i + 1]);
      i := i + 1;
    }
  }

  /** Reachability inside a part of the graph is reachability in the whole graph. */
  lemma ReachMonotone(g: Graph, h: Graph, a: string, b: string)
    requires forall k :: k in g ==> k in h && h[k] == g[k]
    requires Reach(g, a, b)
    ensures Reach(h, a, b)
  {
    var p :| Connects(g, p, a, b);
    forall i | 0 <= i < |p| - 1 ensures Edge(h, p[i], p[i + 1]) {
      assert Edge(g, p[i], p[i + 1]);
    }
    assert Connects(h, p, a, b);
  }

  ghost function ShortNames(s: seq<Package>): set<string> {
    set p | p in s :: p.short
  }

  /** `c` lists, once each, the packages of one strongly connected component of `g`. */
  ghost predicate IsComponent(g: Graph, c: Component) {
    && (forall p :: p in c ==> p.short in g && g[p.short] == p)
    && (forall i, j :: 0 <= i < j < |c| ==> c[i].short != c[j].short)
    && (forall p, q :: p in c && q in c ==> Reach(g, p.short, q.short))
    && (forall p, k :: p in c && Mutual(g, p.short, k) ==> k in ShortNames(c))
  }

  /** More than one member, or a member that depends on itself. */
  ghost predicate IsCyclic(c: Component) {
    |c| > 1 || exists p :: p in c && p.short in p.deps
  }

  /** No edge to a package of `g` outside the component. */
  ghost predicate IsSink(g: Graph, c: Component) {
    Closed(g, ShortNames(c))
  }

  /** No package is in two of the lists. */
  ghost predicate Apart(comps: seq<Component>) {
    forall i, j :: 0 <= i < j < |comps| ==> ShortNames(comps[i]) !! ShortNames(comps[j])
  }

  /** Following edges from `v` ends in a component no edge leaves. */
  lemma SinkBelow(g: Graph, v: string, below: set<string>) returns (u: string)
    requires Keyed(g) && v in g && below == ReachableFrom(g, v)
    ensures u in g && Reach(g, v, u)
    ensures forall w :: Reach(g, u, w) ==> Reach(g, w, u)
    decreases below
  {
    hide Reach;
    ReachSelf(g, v);
    if w :| w in below && !Reach(g, w, v) {
      forall k | k in ReachableFrom(g, w) ensures k in below {
        ReachTransitive(g, v, w, k);
      }
      assert v !in ReachableFrom(g, w);
      u := SinkBelow(g, w, ReachableFrom(g, w));
      ReachTransitive(g, v, w, u);
    } else {
      u := v;
      forall w | Reach(g, v, w) ensures Reach(g, w, v) {
        ReachInGraph(g, v, w);
      }
    }
  }

  ghost function ReachableFrom(g: Graph, v: string): set<string> {
    set w | w in g && Reach(g, v, w)
  }

  lemma ReachInGraph(g: Graph, v: string, w: string)
    requires Reach(g, v, w)
    ensures v in g && w in g
  {
  }
}
