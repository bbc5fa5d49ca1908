/**
 The component search inside `sinkCycles`: what one depth-first call keeps true of the index,
 low-link, stack and component state, moment by moment.
 */
module ComponentInvariants {
  import opened Digraphs

  type Numbering = map<string, nat>

  /** The traversal's variables, read at one moment. */
  datatype Snapshot = Snapshot(
    next: nat,
    idx: Numbering,
    low: Numbering,
    stack: seq<Package>,
    stacked: set<string>,
    comps: seq<Component>)

  /** Packages already given to a component. */
  ghost function Done(s: Snapshot): set<string> {
    s.idx.Keys - s.stacked
  }

  /** `p` was visited before `q`. */
  ghost predicate Earlier(idx: Numbering, p: Package, q: Package) {
    p.short in idx && q.short in idx && idx[p.short] < idx[q.short]
  }

  /** The stack holds visited packages in visiting order. */
  ghost predicate StackOrdered(g: Graph, idx: Numbering, stack: seq<Package>) {
    && (forall p :: p in stack ==> p.short in idx && p.short in g && g[p.short] == p)
    && (forall i, j :: 0 <= i < j < |stack| ==> Earlier(idx, stack[i], stack[j]))
  }

  /** Earlier stack entries reach later ones. */
  ghost predicate StackReaches(g: Graph, stack: seq<Package>) {
    forall i, j :: 0 <= i <= j < |stack| ==> Reach(g, stack[i].short, stack[j].short)
  }

  /** `x` was visited no later than `k`, and `k` reaches it. */
  ghost predicate Anchors(g: Graph, idx: Numbering, k: string, x: string) {
    k in idx && x in idx && idx[x] <= idx[k] && Reach(g, k, x)
  }

  /** Every stacked package reaches an active call at or below it. */
  ghost predicate StackAnchored(g: Graph, idx: Numbering, stacked: set<string>, active: set<string>) {
    forall k :: k in stacked ==> exists x :: x in active && Anchors(g, idx, k, x)
  }

  /** A package whose call has ended has no unvisited dependency. */
  ghost predicate EndedExplored(g: Graph, idx: Numbering, active: set<string>) {
    forall v, w :: v in idx && v !in active && Edge(g, v, w) ==> w in idx
  }

  /** The lists are components of `g`, mutually disjoint, and together hold exactly `done`. */
  ghost predicate Partitions(g: Graph, comps: seq<Component>, done: set<string>) {
    && (forall c :: c in comps ==> IsComponent(g, c) && ShortNames(c) <= done)
    && (forall k :: k in done ==> exists c :: c in comps && k in ShortNames(c))
    && Apart(comps)
  }

  ghost predicate Inv(g: Graph, s: Snapshot, active: set<string>) {
    && Keyed(g)
    && s.idx.Keys <= g.Keys
    && s.low.Keys == s.idx.Keys
    && active <= s.stacked <= s.idx.Keys
    && s.stacked == ShortNames(s.stack)
    && (forall k :: k in s.idx ==> s.idx[k] < s.next)
    && StackOrdered(g, s.idx, s.stack)
    && StackReaches(g, s.stack)
    && StackAnchored(g, s.idx, s.stacked, active)
    && EndedExplored(g, s.idx, active)
    && Closed(g, Done(s))
    && Partitions(g, s.comps, Done(s))
  }

  /** What a later moment keeps of an earlier one: old entries, and the stack as a prefix. */
  ghost predicate Extends(s: Snapshot, t: Snapshot) {
    && s.next <= t.next
    && s.stack <= t.stack
    && (forall k :: k in s.idx ==> k in t.idx && t.idx[k] == s.idx[k])
    && (forall k :: k in s.low ==> k in t.low && t.low[k] == s.low[k])
    && (forall k :: k in t.idx && k !in s.idx ==> s.next <= t.idx[k])
  }

  /** No edge from `v` into `base` ends below index `low`. */
  ghost predicate LowBounds(g: Graph, idx: Numbering, low: nat, v: string, base: set<string>) {
    forall w :: w in base && w in idx && Edge(g, v, w) ==> low <= idx[w]
  }

  /** `low` is the index of a stacked package that `x` reaches. */
  ghost predicate LowAttained(g: Graph, idx: Numbering, stacked: set<string>, x: string, low: nat) {
    exists y :: y in stacked && y in idx && idx[y] == low && Reach(g, x, y)
  }

  /** What the call for `x`, entered at `s`, has established when it returns at `t`. */
  ghost predicate CallResult(g: Graph, s: Snapshot, t: Snapshot, x: string) {
    && x in t.idx && x in t.low && s.stack <= t.stack
    && (if t.stack == s.stack then t.low[x] == t.idx[x] else LowAttained(g, s.idx, s.stacked, x, t.low[x]))
    && (forall v :: v in t.stacked - s.stacked ==> LowBounds(g, t.idx, t.low[x], v, s.stacked))
  }

  /** The call for `pkg`, entered at `s0`, has handled its first `n` dependencies. */
  ghost predicate Scanned(g: Graph, s0: Snapshot, s: Snapshot, pkg: Package, n: nat) {
    var x := pkg.short;
    && n <= |pkg.deps|
    && x in g && g[x] == pkg && x !in s0.idx && x !in s0.low && x !in s0.stacked
    && x in s.idx && x in s.low && s.idx[x] == s0.next
    && Extends(s0, s)
    && s0.stacked <= s.stacked
    && s0.stack + [pkg] <= s.stack
    && s.low[x] <= s.idx[x]
    && LowAttained(g, s.idx, s.stacked, x, s.low[x])
    && (forall v :: v in s.stacked - s0.stacked - {x} ==> LowBounds(g, s.idx, s.low[x], v, s0.stacked))
    && (forall d :: d in pkg.deps[..n] && d in g ==> d in s.idx)
    && (forall d :: d in pkg.deps[..n] && d in s0.stacked && d in s.idx ==> s.low[x] <= s.idx[d])
  }

  function Pushed(s: Snapshot, pkg: Package): Snapshot {
    Snapshot(s.next + 1, s.idx[pkg.short := s.next], s.low[pkg.short := s.next],
             s.stack + [pkg], s.stacked + {pkg.short}, s.comps)
  }

  function Lowered(s: Snapshot, x: string, low: nat): Snapshot
    requires x in s.low
  {
    s.(low := s.low[x := if s.low[x] <= low then s.low[x] else low])
  }

  lemma ShortNameOf(s: seq<Package>, p: Package)
    requires p in s
    ensures p.short in ShortNames(s)
  {
  }

  lemma ShortNamesAppend(s: seq<Package>, t: seq<Package>)
    ensures ShortNames(s + t) == ShortNames(s) + ShortNames(t)
  {
  }

  // ----- entering a call -----

  lemma PushStack(g: Graph, s: Snapshot, pkg: Package, active: set<string>)
    requires StackReaches(g, s.stack) && StackAnchored(g, s.idx, s.stacked, active)
    requires s.stacked == ShortNames(s.stack) && s.stacked <= s.idx.Keys
    requires pkg.short in g && pkg.short !in s.idx && forall k :: k in s.idx ==> s.idx[k] < s.next
    requires forall a :: a in active ==> Reach(g, a, pkg.short)
    ensures StackReaches(g, Pushed(s, pkg).stack)
    ensures StackAnchored(g, Pushed(s, pkg).idx, Pushed(s, pkg).stacked, active + {pkg.short})
  {
    var x, t := pkg.short, Pushed(s, pkg);
    ReachSelf(g, x);
    hide Reach;
    forall i, j | 0 <= i <= j < |t.stack| ensures Reach(g, t.stack[i].short, t.stack[j].short) {
      if i < j == |s.stack| {
        assert s.stack[i].short in s.stacked;
        var a :| a in active && Anchors(g, s.idx, s.stack[i].short, a);
        ReachTransitive(g, s.stack[i].short, a, x);
      }
    }
    forall k | k in t.stacked ensures exists a :: a in active + {x} && Anchors(g, t.idx, k, a) {
      if k in s.stacked {
        var a :| a in active && Anchors(g, s.idx, k, a);
        assert Anchors(g, t.idx, k, a);
      } else {
        assert Anchors(g, t.idx, x, x);
      }
    }
  }

  lemma PushScanned(g: Graph, s: Snapshot, pkg: Package, active: set<string>)
    requires Inv(g, s, active) && pkg.short in g && g[pkg.short] == pkg && pkg.short !in s.idx
    ensures Scanned(g, s, Pushed(s, pkg), pkg, 0)
  {
    var x, t := pkg.short, Pushed(s, pkg);
    ReachSelf(g, x);
    hide Reach, StackReaches, StackAnchored, EndedExplored, Closed, Partitions, StackOrdered;
    assert t.stacked - s.stacked - {x} == {};
    assert LowAttained(g, t.idx, t.stacked, x, t.low[x]);
  }

  /** Pushing a package starts its call with the invariant in force. */
  lemma StartScan(g: Graph, s: Snapshot, pkg: Package, active: set<string>)
    requires Inv(g, s, active)
    requires pkg.short in g && g[pkg.short] == pkg && pkg.short !in s.idx
    requires forall a :: a in active ==> Reach(g, a, pkg.short)
    ensures Inv(g, Pushed(s, pkg), active + {pkg.short}) && Scanned(g, s, Pushed(s, pkg), pkg, 0)
  {
    var x, t := pkg.short, Pushed(s, pkg);
    hide StackReaches, StackAnchored, Partitions, Closed, Reach;
    PushStack(g, s, pkg, active);
    PushScanned(g, s, pkg, active);
    hide Scanned;
    ShortNamesAppend(s.stack, [pkg]);
    assert ShortNames([pkg]) == {x};
    assert Done(t) == Done(s);
    assert EndedExplored(g, t.idx, active + {x});
    hide EndedExplored;
  }

  // ----- handling one dependency -----

  /** A dependency outside the remaining packages, or already finished, changes nothing. */
  lemma SkipDependency(g: Graph, s0: Snapshot, s: Snapshot, pkg: Package, n: nat)
    requires Scanned(g, s0, s, pkg, n) && n < |pkg.deps| && s.idx.Keys <= g.Keys
    requires pkg.deps[n] !in g || (pkg.deps[n] in s.idx && pkg.deps[n] !in s.stacked)
    ensures Scanned(g, s0, s, pkg, n + 1)
  {
    hide LowBounds, LowAttained, Extends;
    assert pkg.deps[..n + 1] == pkg.deps[..n] + [pkg.deps[n]];
  }

  /** Lowering the link of the running call keeps the invariant. */
  lemma LowerKeeps(g: Graph, s: Snapshot, active: set<string>, x: string, low: nat)
    requires Inv(g, s, active) && x in s.low
    ensures Inv(g, Lowered(s, x, low), active)
  {
    hide StackOrdered, StackReaches, StackAnchored, EndedExplored, Closed, Partitions;
    assert Done(Lowered(s, x, low)) == Done(s);
  }

  /** A dependency on the stack lowers the link to its index. */
  lemma SeeStacked(g: Graph, s0: Snapshot, s: Snapshot, pkg: Package, n: nat)
    requires Scanned(g, s0, s, pkg, n) && n < |pkg.deps|
    requires pkg.deps[n] in s.stacked && pkg.deps[n] in s.idx && pkg.deps[n] in g
    ensures Scanned(g, s0, Lowered(s, pkg.short, s.idx[pkg.deps[n]]), pkg, n + 1)
  {
    var x, d := pkg.short, pkg.deps[n];
    var t := Lowered(s, x, s.idx[d]);
    assert pkg.deps[..n + 1] == pkg.deps[..n] + [d];
    assert Edge(g, x, d);
    ReachEdge(g, x, d);
    hide Reach;
    assert LowAttained(g, t.idx, t.stacked, x, t.low[x]);
    hide LowAttained;
    assert Extends(s0, t);
  }

  /** The call for an unvisited dependency returns: its link bounds the caller's. */
  lemma ReturnFromVisit(g: Graph, s0: Snapshot, s: Snapshot, t: Snapshot, pkg: Package, n: nat)
    requires Scanned(g, s0, s, pkg, n) && n < |pkg.deps|
    requires pkg.deps[n] in g && pkg.deps[n] !in s.idx && s.stacked <= t.stacked && s0.stacked <= s0.idx.Keys
    requires Extends(s, t) && CallResult(g, s, t, pkg.deps[n])
    ensures Scanned(g, s0, Lowered(t, pkg.short, t.low[pkg.deps[n]]), pkg, n + 1)
  {
    var x, d := pkg.short, pkg.deps[n];
    var u := Lowered(t, x, t.low[d]);
    assert pkg.deps[..n + 1] == pkg.deps[..n] + [d];
    assert Edge(g, x, d);
    ReachEdge(g, x, d);
    hide Reach;
    assert LowAttained(g, u.idx, u.stacked, x, u.low[x]) by {
      if s.low[x] > t.low[d] {
        var y :| y in s.stacked && y in s.idx && s.idx[y] == t.low[d] && Reach(g, d, y);
        ReachTransitive(g, x, d, y);
      }
    }
    hide LowAttained;
    assert Extends(s0, u);
    assert forall w :: w in s0.stacked ==> w in s.idx && u.idx[w] == s.idx[w];
    forall v | v in u.stacked - s0.stacked - {x} ensures LowBounds(g, u.idx, u.low[x], v, s0.stacked) {
      if v in s.stacked {
        assert LowBounds(g, s.idx, s.low[x], v, s0.stacked);
      } else {
        assert LowBounds(g, t.idx, t.low[d], v, s.stacked);
      }
    }
    hide Extends;
  }

  // ----- leaving a call -----

  /** Once every dependency is handled, an edge into the caller's stack ends at the link or above. */
  lemma EdgesBounded(g: Graph, s0: Snapshot, s: Snapshot, pkg: Package, v: string)
    requires Scanned(g, s0, s, pkg, |pkg.deps|) && v in s.stacked - s0.stacked
    ensures LowBounds(g, s.idx, s.low[pkg.short], v, s0.stacked)
  {
    hide LowAttained, Extends, Reach;
    assert pkg.deps[..|pkg.deps|] == pkg.deps;
  }

  /** Every dependency of a package that is about to end its call has been visited. */
  lemma EndsExplored(g: Graph, s0: Snapshot, s: Snapshot, pkg: Package, active: set<string>)
    requires Scanned(g, s0, s, pkg, |pkg.deps|) && EndedExplored(g, s.idx, active + {pkg.short})
    ensures EndedExplored(g, s.idx, active)
  {
    hide LowAttained, Extends, Reach, LowBounds;
    assert pkg.deps[..|pkg.deps|] == pkg.deps;
  }

  /** A link below the own index keeps the package stacked; the caller's calls anchor it. */
  lemma EndStacked(g: Graph, s0: Snapshot, s: Snapshot, pkg: Package, active: set<string>)
    requires Inv(g, s, active + {pkg.short}) && Scanned(g, s0, s, pkg, |pkg.deps|)
    requires active <= s0.stacked == ShortNames(s0.stack) && s.low[pkg.short] != s.idx[pkg.short]
    ensures Inv(g, s, active) && Extends(s0, s) && CallResult(g, s0, s, pkg.short)
  {
    hide StackAnchored, LowAttained, EndedExplored, Extends, Closed, Partitions, StackReaches, StackOrdered;
    hide LowBounds;
    var x := pkg.short;
    forall v | v in s.stacked - s0.stacked ensures LowBounds(g, s.idx, s.low[x], v, s0.stacked) {
      EdgesBounded(g, s0, s, pkg, v);
    }
    EndsExplored(g, s0, s, pkg, active);
    EndAnchored(g, s, x, active);
    EndAttained(g, s0, s, pkg);
  }

  lemma EndAnchored(g: Graph, s: Snapshot, x: string, active: set<string>)
    requires StackAnchored(g, s.idx, s.stacked, active + {x}) && x in s.low && x in s.idx
    requires LowAttained(g, s.idx, s.stacked, x, s.low[x]) && s.low[x] < s.idx[x]
    ensures StackAnchored(g, s.idx, s.stacked, active)
  {
    hide Reach;
    var y :| y in s.stacked && y in s.idx && s.idx[y] == s.low[x] && Reach(g, x, y);
    var z :| z in active + {x} && Anchors(g, s.idx, y, z);
    forall k | k in s.stacked ensures exists a :: a in active && Anchors(g, s.idx, k, a) {
      var a :| a in active + {x} && Anchors(g, s.idx, k, a);
      if a == x {
        ReachTransitive(g, k, x, y);
        ReachTransitive(g, k, y, z);
        assert Anchors(g, s.idx, k, z);
      }
    }
  }

  /** An entry with a smaller index than the package under way was on the stack before it. */
  lemma EndAttained(g: Graph, s0: Snapshot, s: Snapshot, pkg: Package)
    requires Scanned(g, s0, s, pkg, |pkg.deps|) && StackOrdered(g, s.idx, s.stack)
    requires s.stacked == ShortNames(s.stack) && s0.stacked == ShortNames(s0.stack)
    requires s.low[pkg.short] < s.idx[pkg.short]
    ensures LowAttained(g, s0.idx, s0.stacked, pkg.short, s.low[pkg.short])
  {
    hide Reach, LowBounds;
    var x := pkg.short;
    var y :| y in s.stacked && y in s.idx && s.idx[y] == s.low[x] && Reach(g, x, y);
    var p :| p in s.stack && p.short == y;
    var i :| 0 <= i < |s.stack| && s.stack[i] == p;
    var m := |s0.stack|;
    assert s.stack[m] == pkg;
    assert i > m ==> Earlier(s.idx, s.stack[m], s.stack[i]);
    assert i < m && s0.stack[i] == p;
  }

  // ----- popping a component -----

  function Reversed(s: seq<Package>): (r: seq<Package>)
    ensures |r| == |s| && forall i :: 0 <= i < |s| ==> r[i] == s[|s| - 1 - i]
    ensures forall p :: p in r <==> p in s
  {
    var r := seq(|s|, i requires 0 <= i < |s| => s[|s| - 1 - i]);
    assert forall i :: 0 <= i < |s| ==> s[i] == r[|s| - 1 - i];
    r
  }

  /** The stack segment from `pkg` up, popped top first. */
  function Segment(s0: Snapshot, s: Snapshot): seq<Package>
    requires |s0.stack| <= |s.stack|
  {
    s.stack[|s0.stack|..]
  }

  function Popped(s0: Snapshot, s: Snapshot): Snapshot
    requires |s0.stack| < |s.stack|
  {
    s.(stack := s0.stack, stacked := s0.stacked, comps := s.comps + [Reversed(Segment(s0, s))])
  }

  /** The popped packages are those stacked since the call began. */
  lemma SegmentNames(g: Graph, s0: Snapshot, s: Snapshot)
    requires s0.stack <= s.stack && StackOrdered(g, s.idx, s.stack)
    requires s.stacked == ShortNames(s.stack) && s0.stacked == ShortNames(s0.stack)
    ensures ShortNames(Segment(s0, s)) == s.stacked - s0.stacked
    ensures ShortNames(Reversed(Segment(s0, s))) == s.stacked - s0.stacked
  {
    var m, t := |s0.stack|, Segment(s0, s);
    assert s.stack == s0.stack + t;
    ShortNamesAppend(s0.stack, t);
    forall p, q | p in s0.stack && q in t ensures p.short != q.short {
      var i :| 0 <= i < m && s.stack[i] == p;
      var j :| 0 <= j < |t| && t[j] == q;
      assert Earlier(s.idx, s.stack[i], s.stack[m + j]);
    }
  }

  /** No edge leaves the segment except into finished packages. */
  lemma SegmentClosed(g: Graph, s0: Snapshot, s: Snapshot, pkg: Package, active: set<string>)
    requires Scanned(g, s0, s, pkg, |pkg.deps|) && s.low[pkg.short] == s.idx[pkg.short]
    requires EndedExplored(g, s.idx, active + {pkg.short}) && active <= s0.stacked <= s0.idx.Keys
    requires s.stacked <= s.idx.Keys && forall k :: k in s0.idx ==> s0.idx[k] < s0.next
    ensures forall v, w :: v in s.stacked - s0.stacked && Edge(g, v, w) ==>
                             w in Done(s) || w in s.stacked - s0.stacked
  {
    EndsExplored(g, s0, s, pkg, active);
    hide Reach, LowAttained;
    forall v, w | v in s.stacked - s0.stacked && Edge(g, v, w)
      ensures w in Done(s) || w in s.stacked - s0.stacked
    {
      if w in s0.stacked {
        EdgesBounded(g, s0, s, pkg, v);
        assert false;
      }
    }
  }

  /** Every package of the segment reaches `pkg`. */
  lemma SegmentReturns(g: Graph, s0: Snapshot, s: Snapshot, x: string, active: set<string>, k: string)
    requires StackAnchored(g, s.idx, s.stacked, active + {x}) && active <= s0.stacked <= s.stacked
    requires Closed(g, Done(s) + (s.stacked - s0.stacked)) && k in s.stacked - s0.stacked
    ensures Reach(g, k, x)
  {
    hide Reach, Closed;
    var a :| a in active + {x} && Anchors(g, s.idx, k, a);
    ClosedHoldsReach(g, Done(s) + (s.stacked - s0.stacked), k, a);
  }

  /** The segment is a whole strongly connected component. */
  lemma SegmentIsComponent(g: Graph, s0: Snapshot, s: Snapshot, pkg: Package, active: set<string>)
    requires Inv(g, s, active + {pkg.short}) && active <= s0.stacked == ShortNames(s0.stack)
    requires s0.stacked <= s.stacked && s0.stack + [pkg] <= s.stack
    requires Closed(g, Done(s) + (s.stacked - s0.stacked))
    ensures IsComponent(g, Reversed(Segment(s0, s)))
  {
    hide Closed, Partitions, StackReaches, StackAnchored, EndedExplored, Reach, Mutual, StackOrdered,
      Done, ShortNames, Keyed;
    SegmentNames(g, s0, s);
    SegmentDistinct(g, s0, s);
    SegmentMutual(g, s0, s, pkg, active);
    var c := Reversed(Segment(s0, s));
    forall p, k | p in c && Mutual(g, p.short, k) ensures k in ShortNames(c) {
      ShortNameOf(c, p);
      SegmentMaximal(g, s, s.stacked - s0.stacked, p.short, k);
    }
  }

  lemma SegmentMutual(g: Graph, s0: Snapshot, s: Snapshot, pkg: Package, active: set<string>)
    requires StackAnchored(g, s.idx, s.stacked, active + {pkg.short}) && active <= s0.stacked <= s.stacked
    requires Closed(g, Done(s) + (s.stacked - s0.stacked))
    requires s0.stack + [pkg] <= s.stack && ShortNames(Segment(s0, s)) == s.stacked - s0.stacked
    requires StackReaches(g, s.stack)
    ensures forall p, q :: p in Segment(s0, s) && q in Segment(s0, s) ==> Reach(g, p.short, q.short)
  {
    hide Closed, StackReaches, StackAnchored, Reach;
    forall p, q | p in Segment(s0, s) && q in Segment(s0, s) ensures Reach(g, p.short, q.short) {
      assert p.short in ShortNames(Segment(s0, s));
      SegmentReturns(g, s0, s, pkg.short, active, p.short);
      SegmentReached(g, s0, s, pkg, q);
      ReachTransitive(g, p.short, pkg.short, q.short);
    }
  }

  lemma SegmentReached(g: Graph, s0: Snapshot, s: Snapshot, pkg: Package, q: Package)
    requires StackReaches(g, s.stack) && s0.stack + [pkg] <= s.stack && q in Segment(s0, s)
    ensures Reach(g, pkg.short, q.short)
  {
    hide Reach;
    var m, t := |s0.stack|, Segment(s0, s);
    var j :| 0 <= j < |t| && t[j] == q;
    assert Reach(g, s.stack[m].short, s.stack[m + j].short);
  }

  lemma SegmentDistinct(g: Graph, s0: Snapshot, s: Snapshot)
    requires s0.stack <= s.stack && StackOrdered(g, s.idx, s.stack)
    ensures forall p :: p in Segment(s0, s) ==> p.short in g && g[p.short] == p
    ensures forall i, j :: 0 <= i < j < |Segment(s0, s)| ==>
                             Reversed(Segment(s0, s))[i].short != Reversed(Segment(s0, s))[j].short
  {
    var m, t, c := |s0.stack|, Segment(s0, s), Reversed(Segment(s0, s));
    forall i, j | 0 <= i < j < |c| ensures c[i].short != c[j].short {
      assert Earlier(s.idx, s.stack[m + |t| - 1 - j], s.stack[m + |t| - 1 - i]);
    }
  }

  lemma SegmentMaximal(g: Graph, s: Snapshot, segment: set<string>, v: string, k: string)
    requires Closed(g, Done(s)) && Closed(g, Done(s) + segment) && segment <= s.stacked
    requires v in segment && Mutual(g, v, k)
    ensures k in segment
  {
    hide Reach, Closed;
    ClosedHoldsReach(g, Done(s) + segment, v, k);
    if k in Done(s) {
      ClosedHoldsReach(g, Done(s), k, v);
    }
  }

  /** A link equal to the own index pops the segment as a finished component. */
  lemma EndPopped(g: Graph, s0: Snapshot, s: Snapshot, pkg: Package, active: set<string>)
    requires Inv(g, s0, active) && Inv(g, s, active + {pkg.short}) && Scanned(g, s0, s, pkg, |pkg.deps|)
    requires s.low[pkg.short] == s.idx[pkg.short]
    ensures Inv(g, Popped(s0, s), active) && Extends(s0, Popped(s0, s))
    ensures CallResult(g, s0, Popped(s0, s), pkg.short)
  {
    hide Partitions, StackReaches, StackAnchored, EndedExplored, Reach, StackOrdered, ShortNames, Keyed,
      IsComponent, LowAttained, LowBounds, Closed;
    PopClosed(g, s0, s, pkg, active);
    EndsExplored(g, s0, s, pkg, active);
    SegmentIsComponent(g, s0, s, pkg, active);
    SegmentNames(g, s0, s);
    StackPrefix(g, s0, s, active);
    PartitionsGrow(g, s.comps, Done(s), Reversed(Segment(s0, s)));
    PopExtends(s0, s, pkg, g);
    hide Scanned, Extends;
  }

  lemma PopClosed(g: Graph, s0: Snapshot, s: Snapshot, pkg: Package, active: set<string>)
    requires Inv(g, s0, active) && Inv(g, s, active + {pkg.short}) && Scanned(g, s0, s, pkg, |pkg.deps|)
    requires s.low[pkg.short] == s.idx[pkg.short]
    ensures Done(Popped(s0, s)) == Done(s) + (s.stacked - s0.stacked)
    ensures Closed(g, Done(Popped(s0, s))) && Closed(g, Done(s) + (s.stacked - s0.stacked))
  {
    hide Partitions, StackReaches, StackAnchored, EndedExplored, Reach, StackOrdered, ShortNames, Keyed,
      LowAttained, LowBounds;
    assert Done(Popped(s0, s)) == Done(s) + (s.stacked - s0.stacked);
    SegmentClosed(g, s0, s, pkg, active);
  }

  lemma PopExtends(s0: Snapshot, s: Snapshot, pkg: Package, g: Graph)
    requires Scanned(g, s0, s, pkg, |pkg.deps|) && s.low[pkg.short] == s.idx[pkg.short]
    ensures Extends(s0, Popped(s0, s)) && CallResult(g, s0, Popped(s0, s), pkg.short)
  {
    hide LowBounds, LowAttained;
    assert Popped(s0, s).stacked - s0.stacked == {};
  }

  lemma PartitionsGrow(g: Graph, comps: seq<Component>, done: set<string>, c: Component)
    requires Partitions(g, comps, done) && IsComponent(g, c) && ShortNames(c) !! done
    ensures Partitions(g, comps + [c], done + ShortNames(c))
  {
    hide IsComponent, ShortNames;
    var all := comps + [c];
    forall k | k in done + ShortNames(c) ensures exists b :: b in all && k in ShortNames(b) {
      if k in done {
        var b :| b in comps && k in ShortNames(b);
        assert b in all;
      } else {
        assert c in all;
      }
    }
    forall i, j | 0 <= i < j < |all| ensures ShortNames(all[i]) !! ShortNames(all[j]) {
      if j == |comps| {
        assert all[i] in comps;
      }
    }
  }

  /** Back at the caller's stack, its order, reachability and anchors are as before. */
  lemma StackPrefix(g: Graph, s0: Snapshot, s: Snapshot, active: set<string>)
    requires StackOrdered(g, s0.idx, s0.stack) && StackAnchored(g, s0.idx, s0.stacked, active) && Extends(s0, s)
    ensures StackOrdered(g, s.idx, s0.stack) && StackAnchored(g, s.idx, s0.stacked, active)
  {
    hide Reach;
    forall i, j | 0 <= i < j < |s0.stack| ensures Earlier(s.idx, s0.stack[i], s0.stack[j]) {
      assert Earlier(s0.idx, s0.stack[i], s0.stack[j]);
    }
    forall k | k in s0.stacked ensures exists a :: a in active && Anchors(g, s.idx, k, a) {
      var a :| a in active && Anchors(g, s0.idx, k, a);
      assert Anchors(g, s.idx, k, a);
    }
  }

  // ----- the steps of one call, as the search takes them -----

  lemma BeforeVisit(g: Graph, s0: Snapshot, s: Snapshot, pkg: Package, active: set<string>, n: nat)
    requires Scanned(g, s0, s, pkg, n) && n < |pkg.deps| && pkg.deps[n] in g
    requires forall a :: a in active ==> Reach(g, a, pkg.short)
    ensures forall a :: a in active + {pkg.short} ==> Reach(g, a, pkg.deps[n])
  {
    var x, d := pkg.short, pkg.deps[n];
    assert Edge(g, x, d);
    ReachEdge(g, x, d);
    hide Reach, Scanned;
    forall a | a in active ensures Reach(g, a, d) {
      ReachTransitive(g, a, x, d);
    }
  }

  lemma AfterVisit(g: Graph, s0: Snapshot, s: Snapshot, t: Snapshot, pkg: Package, active: set<string>, n: nat)
    requires Inv(g, s0, active) && Inv(g, s, active + {pkg.short}) && Scanned(g, s0, s, pkg, n)
    requires n < |pkg.deps| && pkg.deps[n] in g && pkg.deps[n] !in s.idx
    requires Inv(g, t, active + {pkg.short}) && Extends(s, t) && CallResult(g, s, t, pkg.deps[n])
    ensures pkg.short in t.low && pkg.deps[n] in t.low && s.idx.Keys <= t.idx.Keys
    ensures Inv(g, Lowered(t, pkg.short, t.low[pkg.deps[n]]), active + {pkg.short})
    ensures Scanned(g, s0, Lowered(t, pkg.short, t.low[pkg.deps[n]]), pkg, n + 1)
  {
    hide StackReaches, StackAnchored, EndedExplored, StackOrdered, Closed, Partitions, Reach, LowAttained, LowBounds;
    assert s.stacked <= t.stacked by {
      assert t.stack == s.stack + t.stack[|s.stack|..];
      ShortNamesAppend(s.stack, t.stack[|s.stack|..]);
    }
    hide ShortNames;
    LowerKeeps(g, t, active + {pkg.short}, pkg.short, t.low[pkg.deps[n]]);
    ReturnFromVisit(g, s0, s, t, pkg, n);
  }

  lemma AtVisited(g: Graph, s0: Snapshot, s: Snapshot, pkg: Package, active: set<string>, n: nat)
    requires Inv(g, s, active + {pkg.short}) && Scanned(g, s0, s, pkg, n)
    requires n < |pkg.deps| && (pkg.deps[n] in g ==> pkg.deps[n] in s.idx)
    ensures pkg.short in s.low
    ensures if pkg.deps[n] in s.stacked
            then pkg.deps[n] in s.idx && pkg.deps[n] in g
                 && Inv(g, Lowered(s, pkg.short, s.idx[pkg.deps[n]]), active + {pkg.short})
                 && Scanned(g, s0, Lowered(s, pkg.short, s.idx[pkg.deps[n]]), pkg, n + 1)
            else Scanned(g, s0, s, pkg, n + 1)
  {
    hide StackReaches, StackAnchored, EndedExplored, StackOrdered, Closed, Partitions, Reach, LowAttained, LowBounds,
      ShortNames;
    if pkg.deps[n] in s.stacked {
      LowerKeeps(g, s, active + {pkg.short}, pkg.short, s.idx[pkg.deps[n]]);
      SeeStacked(g, s0, s, pkg, n);
    } else {
      SkipDependency(g, s0, s, pkg, n);
    }
  }

  /** Taking the top entry off a stack takes exactly its name out of the stacked names. */
  lemma PopName(g: Graph, idx: Numbering, whole: seq<Package>, stack: seq<Package>)
    requires StackOrdered(g, idx, whole) && stack <= whole && |stack| > 0
    ensures ShortNames(stack[..|stack| - 1]) == ShortNames(stack) - {stack[|stack| - 1].short}
  {
    var k := |stack| - 1;
    assert stack == stack[..k] + [stack[k]];
    ShortNamesAppend(stack[..k], [stack[k]]);
    forall p | p in stack[..k] ensures p.short != stack[k].short {
      var i :| 0 <= i < k && stack[i] == p;
      assert Earlier(idx, whole[i], whole[k]);
    }
  }

  /** Popping reaches `pkg` exactly when the caller's stack is left. */
  lemma PoppedSegment(g: Graph, s0: Snapshot, s: Snapshot, pkg: Package, k: nat)
    requires |s0.stack| < |s.stack| && s0.stack + [pkg] <= s.stack && StackOrdered(g, s.idx, s.stack)
    requires |s0.stack| <= k < |s.stack| && s.stack[k] == pkg
    ensures k == |s0.stack| && s.stack[..k] == s0.stack
  {
    var m := |s0.stack|;
    assert s.stack[m] == pkg;
    assert k > m ==> Earlier(s.idx, s.stack[m], s.stack[k]);
  }

  lemma InRemaining(g: Graph, s: Snapshot, active: set<string>, d: string)
    requires Inv(g, s, active) && d in g
    ensures g[d].short == d
  {
  }

  /** What the search reads when the dependencies are all handled. */
  lemma AtEnd(g: Graph, s0: Snapshot, s: Snapshot, pkg: Package, active: set<string>)
    requires Inv(g, s0, active) && Inv(g, s, active + {pkg.short}) && Scanned(g, s0, s, pkg, |pkg.deps|)
    ensures pkg.short in s.low && pkg.short in s.idx && s0.stack + [pkg] <= s.stack
    ensures active <= s0.stacked == ShortNames(s0.stack) && s.stacked == ShortNames(s.stack)
    ensures StackOrdered(g, s.idx, s.stack)
  {
  }
}
