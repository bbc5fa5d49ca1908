/**
 What a module exports under a name, by section 16.2.1.6.3 of ECMA-262 (ResolveExport), and when the search of
 `findExportedTypeDecl` finds just that.
 */
module ModuleExports {
  import opened Options
  import opened ExportedDeclarations

  /** What an exported name stands for: something of a file, or something out of reach. */
  datatype Entity = Local(node: Node) | Beyond(file: string, specifier: string)

  /** One step on the way to it. */
  datatype Way = Is(entity: Entity) | To(node: Node)

  /** The readable file a specifier stands for. */
  function SpecifierFile(w: Workspace, file: string, specifier: string): (target: Option<string>)
    ensures target.Some? ==> target.value in w.files
  {
    if IsFollowed(specifier) && w.at(file, specifier) in w.files then Some(w.at(file, specifier))
    else if !IsRelative(specifier) && specifier in w.entries && w.entries[specifier] in w.files then
      Some(w.entries[specifier])
    else None
  }

  function WayTo(w: Workspace, file: string, specifier: string, name: string): Way {
    match SpecifierFile(w, file, specifier)
    case Some(target) => To(Node(target, name))
    case None => Is(Beyond(file, specifier))
  }

  /** A name the file exports itself: what it calls so, or what it imports under that name. */
  function OwnWay(w: Workspace, file: string, local: string): Way
    requires file in w.files
  {
    var f := w.files[file];
    if local in f.declared || local !in f.imports || f.imports[local].imported == "*" then Is(Local(Node(file, local)))
    else WayTo(w, file, f.imports[local].specifier, f.imports[local].imported)
  }

  /** The first re-export that names the name. */
  function ExplicitWay(w: Workspace, node: Node, exports: seq<Export>): Option<Way> {
    if exports == [] then None
    else if exports[0].Named? && InnerName(exports[0].elements, node.name).Some? then
      Some(WayTo(w, node.file, exports[0].specifier, InnerName(exports[0].elements, node.name).value))
    else ExplicitWay(w, node, exports[1..])
  }

  function StarWays(w: Workspace, node: Node, exports: seq<Export>): seq<Way> {
    if exports == [] then []
    else
      (if exports[0].All? then [WayTo(w, node.file, exports[0].specifier, node.name)] else [])
      + StarWays(w, node, exports[1..])
  }

  /** A module's own exports come first, then explicit re-exports, and only then `export *`, never for `default`. */
  function Ways(w: Workspace, node: Node): seq<Way>
    requires node.file in w.files
  {
    var f := w.files[node.file];
    if node.name in f.exported then [OwnWay(w, node.file, f.exported[node.name])]
    else
      match ExplicitWay(w, node, f.exports)
      case Some(way) => [way]
      case None => if node.name == "default" then [] else StarWays(w, node, f.exports)
  }

  // ----- the finitely many names -----

  ghost function Names(w: Workspace): set<string> {
    InnerNames(w) + set f, l | f in w.files && l in w.files[f].imports :: w.files[f].imports[l].imported
  }

  ghost function Modules(w: Workspace, name: string): set<Node> {
    set f, n | f in w.files && n in Names(w) + {name} :: Node(f, n)
  }

  ghost predicate WayIn(w: Workspace, way: Way, all: set<Node>) {
    way.To? ==> way.node.file in w.files && way.node in all
  }

  ghost predicate WaysIn(w: Workspace, ways: seq<Way>, all: set<Node>) {
    forall way :: way in ways ==> WayIn(w, way, all)
  }

  ghost predicate IsClosed(w: Workspace, all: set<Node>) {
    forall a :: a in all ==> a.file in w.files && WaysIn(w, Ways(w, a), all)
  }

  lemma {:induction false} ExplicitIn(w: Workspace, node: Node, exports: seq<Export>, all: set<Node>)
    requires ExplicitWay(w, node, exports).Some?
    requires forall e, n :: e in exports && e.Named? && InnerName(e.elements, node.name) == Some(n) ==>
               forall f :: f in w.files ==> Node(f, n) in all
    ensures WayIn(w, ExplicitWay(w, node, exports).value, all)
  {
    if !(exports[0].Named? && InnerName(exports[0].elements, node.name).Some?) {
      ExplicitIn(w, node, exports[1..], all);
    }
  }

  lemma {:induction false} StarsIn(w: Workspace, node: Node, exports: seq<Export>, all: set<Node>)
    requires forall f :: f in w.files ==> Node(f, node.name) in all
    ensures WaysIn(w, StarWays(w, node, exports), all)
  {
    if exports != [] {
      StarsIn(w, node, exports[1..], all);
    }
  }

  lemma ModulesClosed(w: Workspace, name: string)
    ensures IsClosed(w, Modules(w, name))
  {
    var all := Modules(w, name);
    forall a | a in all ensures WaysIn(w, Ways(w, a), all) {
      var f := w.files[a.file];
      if a.name !in f.exported {
        forall e, n | e in f.exports && e.Named? && InnerName(e.elements, a.name) == Some(n)
          ensures n in InnerNames(w) {
          var i :| 0 <= i < |f.exports| && f.exports[i] == e;
          InnerNameIs(e.elements, a.name);
        }
        if ExplicitWay(w, a, f.exports).Some? {
          ExplicitIn(w, a, f.exports, all);
        }
        StarsIn(w, a, f.exports, all);
      }
    }
  }

  // ----- ResolveExport -----

  datatype Binding = NoBinding | Bound(entity: Entity) | Ambiguous

  /** The result, and the modules and names gone through, each of which is looked at once. */
  ghost function ResolveExport(w: Workspace, node: Node, seen: set<Node>, all: set<Node>): (r: (Binding, set<Node>))
    requires IsClosed(w, all) && node in all && seen <= all
    ensures seen <= r.1 <= all && node in r.1
    decreases |all - seen|, 0, 0
  {
    if node in seen then (NoBinding, seen)
    else
      Fewer(all, seen, node);
      ResolveWays(w, Ways(w, node), NoBinding, seen + {node}, all)
  }

  /** One way after another: different results are ambiguous. */
  ghost function ResolveWays(
    w: Workspace, ways: seq<Way>, best: Binding, seen: set<Node>, all: set<Node>): (r: (Binding, set<Node>))
    requires IsClosed(w, all) && WaysIn(w, ways, all) && seen <= all
    ensures seen <= r.1 <= all
    decreases |all - seen|, 1, |ways|
  {
    if ways == [] then (best, seen)
    else
      assert WayIn(w, ways[0], all);
      var here := if ways[0].Is? then (Bound(ways[0].entity), seen) else ResolveExport(w, ways[0].node, seen, all);
      NoMore(all, seen, here.1);
      if here.0.Ambiguous? then here
      else if here.0.NoBinding? then ResolveWays(w, ways[1..], best, here.1, all)
      else if best.NoBinding? || best == here.0 then ResolveWays(w, ways[1..], here.0, here.1, all)
      else (Ambiguous, here.1)
  }

  lemma NoMore(all: set<Node>, seen: set<Node>, wider: set<Node>)
    requires seen <= wider <= all
    ensures |all - wider| <= |all - seen|
  {
    assert all - seen == (all - wider) + (wider - seen);
  }

  // ----- what it finds -----

  ghost predicate Opens(w: Workspace, a: Node, b: Node) {
    a.file in w.files && To(b) in Ways(w, a)
  }

  ghost predicate OpensIn(w: Workspace, a: Node, b: Node, n: nat)
    decreases n
  {
    if n == 0 then a == b else exists m :: Opens(w, a, m) && OpensIn(w, m, b, n - 1)
  }

  ghost predicate IsAt(w: Workspace, b: Node, e: Entity) {
    b.file in w.files && Is(e) in Ways(w, b)
  }

  /** A chain of exports, none of them hidden by another, leads to the entity. */
  ghost predicate Gives(w: Workspace, a: Node, e: Entity) {
    exists n: nat, b :: OpensIn(w, a, b, n) && IsAt(w, b, e)
  }

  lemma GivesAt(w: Workspace, a: Node, e: Entity)
    requires IsAt(w, a, e)
    ensures Gives(w, a, e)
  {
    assert OpensIn(w, a, a, 0);
  }

  lemma GivesOn(w: Workspace, a: Node, m: Node, e: Entity)
    requires Opens(w, a, m) && Gives(w, m, e)
    ensures Gives(w, a, e)
  {
    hide Opens, IsAt;
    var n: nat, b :| OpensIn(w, m, b, n) && IsAt(w, b, e);
    assert OpensIn(w, a, b, n + 1);
  }

  ghost predicate WayGives(w: Workspace, way: Way, e: Entity) {
    if way.Is? then way.entity == e else Gives(w, way.node, e)
  }

  ghost predicate SomeGives(w: Workspace, ways: seq<Way>, e: Entity) {
    exists way :: way in ways && WayGives(w, way, e)
  }

  /** All that is found at these is the result, and what they open is seen. */
  ghost predicate Covered(w: Workspace, done: set<Node>, r: Binding, seen: set<Node>) {
    forall a :: a in done ==> a.file in w.files && WaysCovered(Ways(w, a), r, seen)
  }

  ghost predicate WaysCovered(ways: seq<Way>, r: Binding, seen: set<Node>) {
    forall way :: way in ways ==> if way.Is? then r == Bound(way.entity) else way.node in seen
  }

  /** The result so far, as part of a later one. */
  ghost predicate Within(r: Binding, later: Binding) {
    r.NoBinding? || r == later
  }

  lemma CoveredMore(
    w: Workspace, done: set<Node>, r: Binding, seen: set<Node>, more: set<Node>, later: Binding, wider: set<Node>)
    requires Covered(w, done, r, seen) && Within(r, later) && seen <= wider && Covered(w, more, later, wider)
    ensures Covered(w, done + more, later, wider)
  {
    hide Ways;
    forall a | a in done ensures WaysCovered(Ways(w, a), later, wider) {
      assert WaysCovered(Ways(w, a), r, seen);
    }
  }

  /** What the result says is given, and two things are if it is ambiguous. */
  ghost predicate IsGiven(w: Workspace, ways: seq<Way>, best: Binding, r: Binding) {
    && (r.Bound? ==> r == best || SomeGives(w, ways, r.entity))
    && (r.Ambiguous? ==> exists e, e' ::
          && e != e' && (best == Bound(e) || SomeGives(w, ways, e)) && (best == Bound(e') || SomeGives(w, ways, e')))
  }

  lemma {:induction false} ResolveExportSettles(w: Workspace, node: Node, seen: set<Node>, all: set<Node>)
    requires IsClosed(w, all) && node in all && seen <= all
    ensures var (r, seen') := ResolveExport(w, node, seen, all);
            && (!r.Ambiguous? ==> Covered(w, seen' - seen, r, seen'))
            && (r.Bound? ==> Gives(w, node, r.entity))
            && (r.Ambiguous? ==> exists e, e' :: e != e' && Gives(w, node, e) && Gives(w, node, e'))
    decreases |all - seen|, 0, 0
  {
    hide Gives, Ways, WaysIn, WaysCovered;
    if node !in seen {
      Fewer(all, seen, node);
      var ways := Ways(w, node);
      ResolveWaysSettles(w, ways, NoBinding, seen + {node}, all);
      var (r, seen') := ResolveWays(w, ways, NoBinding, seen + {node}, all);
      forall e | SomeGives(w, ways, e) ensures Gives(w, node, e) {
        GivenHere(w, node, e);
      }
      if !r.Ambiguous? {
        assert seen' - seen == (seen' - (seen + {node})) + {node};
        assert Covered(w, {node}, r, seen');
        CoveredMore(w, seen' - (seen + {node}), r, seen', {node}, r, seen');
      }
    }
  }

  lemma GivenHere(w: Workspace, node: Node, e: Entity)
    requires node.file in w.files && SomeGives(w, Ways(w, node), e)
    ensures Gives(w, node, e)
  {
    hide Gives, Ways;
    var way :| way in Ways(w, node) && WayGives(w, way, e);
    if way.Is? {
      assert Is(e) in Ways(w, node);
      GivesAt(w, node, e);
    } else {
      assert To(way.node) in Ways(w, node);
      GivesOn(w, node, way.node, e);
    }
  }

  lemma {:induction false} ResolveWaysSettles(
    w: Workspace, ways: seq<Way>, best: Binding, seen: set<Node>, all: set<Node>)
    requires IsClosed(w, all) && WaysIn(w, ways, all) && seen <= all && !best.Ambiguous?
    ensures var (r, seen') := ResolveWays(w, ways, best, seen, all);
            && (!r.Ambiguous? ==> Within(best, r) && Covered(w, seen' - seen, r, seen') && WaysCovered(ways, r, seen'))
            && IsGiven(w, ways, best, r)
    decreases |all - seen|, 1, |ways|
  {
    hide Gives, Ways, IsClosed;
    if ways != [] {
      var way, rest := ways[0], ways[1..];
      assert WayIn(w, way, all) && WaysIn(w, rest, all);
      var here := if way.Is? then (Bound(way.entity), seen) else ResolveExport(w, way.node, seen, all);
      if way.To? {
        ResolveExportSettles(w, way.node, seen, all);
      }
      NoMore(all, seen, here.1);
      if !here.0.Ambiguous? && (here.0.NoBinding? || best.NoBinding? || best == here.0) {
        var next := if here.0.NoBinding? then best else here.0;
        ResolveWaysSettles(w, rest, next, here.1, all);
        var (r, seen') := ResolveWays(w, rest, next, here.1, all);
        if !r.Ambiguous? {
          assert seen' - seen == (here.1 - seen) + (seen' - here.1);
          CoveredMore(w, here.1 - seen, here.0, here.1, seen' - here.1, r, seen');
        }
        GivenMore(w, way, rest, best, here.0, next, r);
      } else {
        if here.0.Ambiguous? {
          var e, e' :| e != e' && Gives(w, way.node, e) && Gives(w, way.node, e');
          assert WayGives(w, way, e) && WayGives(w, way, e');
        }
        GivenFirst(w, way, rest, best, here.0);
      }
      assert ways == [way] + rest;
    }
  }

  lemma GivenMore(w: Workspace, way: Way, rest: seq<Way>, best: Binding, here: Binding, next: Binding, r: Binding)
    requires here.Bound? ==> WayGives(w, way, here.entity)
    requires next == (if here.NoBinding? then best else here) && IsGiven(w, rest, next, r)
    ensures IsGiven(w, [way] + rest, best, r)
  {
    hide WayGives;
    forall e | SomeGives(w, rest, e) || (here.Bound? && here.entity == e) ensures SomeGives(w, [way] + rest, e) {
      if SomeGives(w, rest, e) {
        var other :| other in rest && WayGives(w, other, e);
        assert other in [way] + rest;
      } else {
        assert way in [way] + rest;
      }
    }
  }

  /** The result so far and this way's differ, or this way alone is ambiguous. */
  lemma GivenFirst(w: Workspace, way: Way, rest: seq<Way>, best: Binding, here: Binding)
    requires !best.Ambiguous? && (here.Ambiguous? || (best.Bound? && here.Bound? && best != here))
    requires here.Bound? ==> WayGives(w, way, here.entity)
    requires here.Ambiguous? ==> exists e, e' :: e != e' && WayGives(w, way, e) && WayGives(w, way, e')
    ensures IsGiven(w, [way] + rest, best, Ambiguous)
  {
    hide WayGives;
    assert way in [way] + rest;
    if here.Bound? {
      assert best.entity != here.entity && SomeGives(w, [way] + rest, here.entity);
    } else {
      var e, e' :| e != e' && WayGives(w, way, e) && WayGives(w, way, e');
      assert SomeGives(w, [way] + rest, e) && SomeGives(w, [way] + rest, e');
    }
  }

  lemma {:induction false} CoveredReaches(w: Workspace, seen: set<Node>, r: Binding, a: Node, b: Node, n: nat)
    requires Covered(w, seen, r, seen) && a in seen && OpensIn(w, a, b, n)
    ensures b in seen
    decreases n
  {
    hide Ways;
    if n > 0 {
      var m :| Opens(w, a, m) && OpensIn(w, m, b, n - 1);
      assert To(m) in Ways(w, a) && WaysCovered(Ways(w, a), r, seen);
      CoveredReaches(w, seen, r, m, b, n - 1);
    }
  }

  /** What the module exports under the name. */
  ghost function Exported(w: Workspace, node: Node): Binding
    requires node.file in w.files
  {
    ModulesClosed(w, node.name);
    ResolveExport(w, node, {}, Modules(w, node.name)).0
  }

  /** The name is bound exactly to the one entity open chains lead to, and ambiguous exactly if there are several. */
  lemma ExportedIs(w: Workspace, node: Node)
    requires node.file in w.files
    ensures Exported(w, node).NoBinding? <==> forall e :: !Gives(w, node, e)
    ensures forall e :: Exported(w, node) == Bound(e) <==>
      Gives(w, node, e) && forall e' :: Gives(w, node, e') ==> e' == e
    ensures Exported(w, node).Ambiguous? <==> exists e, e' :: e != e' && Gives(w, node, e) && Gives(w, node, e')
  {
    hide ResolveExport, Modules;
    ModulesClosed(w, node.name);
    var all := Modules(w, node.name);
    assert node in all by { InModules(w, node); }
    ResolveExportSettles(w, node, {}, all);
    var (r, seen) := ResolveExport(w, node, {}, all);
    if !r.Ambiguous? {
      assert seen - {} == seen;
      forall e | Gives(w, node, e) ensures r == Bound(e) {
        var n: nat, b :| OpensIn(w, node, b, n) && IsAt(w, b, e);
        CoveredReaches(w, seen, r, node, b, n);
        assert WaysCovered(Ways(w, b), r, seen);
      }
    }
  }

  lemma InModules(w: Workspace, node: Node)
    requires node.file in w.files
    ensures node in Modules(w, node.name)
  {
  }

  // ----- the search and the module -----

  /** The declaration the search finds is what the module exports under the name. */
  ghost predicate FindsExport(w: Workspace, start: Node, found: Node)
    requires start.file in w.files
  {
    First(w, start) == Some(found) && Declares(w, found) && Exported(w, start) == Bound(Local(found))
  }

  /** A declaration the search finds is the module's export exactly when open chains lead to it and nowhere else. */
  lemma FindsExportIff(w: Workspace, start: Node, found: Node)
    requires start.file in w.files && First(w, start) == Some(found) && Declares(w, found)
    ensures FindsExport(w, start, found)
        <==> Gives(w, start, Local(found)) && forall e :: Gives(w, start, e) ==> e == Local(found)
  {
    ExportedIs(w, start);
  }

  // ----- files in which the search cannot go wrong -----

  /** Where the file declares the name it exports it; where not, it does not export something else under the name. */
  ghost predicate OwnIsTidy(w: Workspace, m: Node)
    requires m.file in w.files
  {
    if Declares(w, m) then Exports(w, m) else m.name !in w.files[m.file].exported
  }

  predicate Carries(w: Workspace, m: Node, e: Export)
    requires m.file in w.files
    ensures Carries(w, m, e) ==> !e.OtherExport?
  {
    e in w.files[m.file].exports && LookFor(e, m.name).Some?
  }

  /** Every re-export that carries the name can be followed to a readable file. */
  ghost predicate CanFollow(w: Workspace, m: Node)
    requires m.file in w.files
  {
    && m.name != "default"
    && forall e :: Carries(w, m, e) ==> IsFollowed(e.specifier) && w.at(m.file, e.specifier) in w.files
  }

  /** A re-export that names the name is the only one to carry it. */
  ghost predicate ExplicitIsAlone(w: Workspace, m: Node)
    requires m.file in w.files
  {
    forall e, other :: Carries(w, m, e) && e.Named? && Carries(w, m, other) ==> e == other
  }

  ghost predicate IsTidy(w: Workspace, m: Node) {
    m.file in w.files && OwnIsTidy(w, m) && (Declares(w, m) || (CanFollow(w, m) && ExplicitIsAlone(w, m)))
  }

  lemma {:induction false} StarWaysAre(w: Workspace, m: Node, exports: seq<Export>, way: Way)
    ensures way in StarWays(w, m, exports) <==>
      exists e :: e in exports && e.All? && way == WayTo(w, m.file, e.specifier, m.name)
  {
    if exports != [] {
      StarWaysAre(w, m, exports[1..], way);
      assert exports == [exports[0]] + exports[1..];
    }
  }

  lemma {:induction false} ExplicitWayIs(w: Workspace, m: Node, exports: seq<Export>)
    ensures ExplicitWay(w, m, exports).Some? ==>
      exists e :: e in exports && e.Named? && InnerName(e.elements, m.name).Some?
        && ExplicitWay(w, m, exports).value == WayTo(w, m.file, e.specifier, InnerName(e.elements, m.name).value)
    ensures ExplicitWay(w, m, exports).None? ==>
      forall e :: e in exports && e.Named? ==> InnerName(e.elements, m.name).None?
  {
    if exports != [] {
      ExplicitWayIs(w, m, exports[1..]);
      assert exports == [exports[0]] + exports[1..];
    }
  }

  /** At a tidy node without a declaration, the ways of the module are the ones the search passes by. */
  lemma TidyWays(w: Workspace, m: Node, way: Way)
    requires IsTidy(w, m) && !Declares(w, m) && way in Ways(w, m)
    ensures way.To? && Leads(w, m, way.node)
  {
    var exports := w.files[m.file].exports;
    ExplicitWayIs(w, m, exports);
    if ExplicitWay(w, m, exports).None? {
      StarWaysAre(w, m, exports, way);
      var e :| e in exports && e.All? && way == WayTo(w, m.file, e.specifier, m.name);
      Carried(w, m, e);
    } else {
      var e :| e in exports && e.Named? && InnerName(e.elements, m.name).Some?
        && way == WayTo(w, m.file, e.specifier, InnerName(e.elements, m.name).value);
      Carried(w, m, e);
    }
  }

  lemma Carried(w: Workspace, m: Node, e: Export)
    requires m.file in w.files && !Declares(w, m) && CanFollow(w, m)
    requires e in w.files[m.file].exports && LookFor(e, m.name).Some?
    ensures Target(w, m, e) == Some(Node(w.at(m.file, e.specifier), LookFor(e, m.name).value))
    ensures Leads(w, m, Target(w, m, e).value)
    ensures WayTo(w, m.file, e.specifier, LookFor(e, m.name).value) == To(Target(w, m, e).value)
  {
    var exports := w.files[m.file].exports;
    var i :| 0 <= i < |exports| && exports[i] == e;
    assert Target(w, m, exports[i]) == Some(Node(w.at(m.file, e.specifier), LookFor(e, m.name).value));
  }

  lemma TidyLeads(w: Workspace, m: Node, n: Node)
    requires IsTidy(w, m) && Leads(w, m, n)
    ensures Opens(w, m, n)
  {
    var exports := w.files[m.file].exports;
    var i :| 0 <= i < |exports| && Target(w, m, exports[i]) == Some(n);
    var e := exports[i];
    assert e in exports && LookFor(e, m.name).Some?;
    Carried(w, m, e);
    ExplicitWayIs(w, m, exports);
    if ExplicitWay(w, m, exports).None? {
      StarWaysAre(w, m, exports, To(n));
    } else {
      var explicit :| explicit in exports && explicit.Named? && InnerName(explicit.elements, m.name).Some?
        && ExplicitWay(w, m, exports).value ==
           WayTo(w, m.file, explicit.specifier, InnerName(explicit.elements, m.name).value);
      assert Carries(w, m, explicit) && Carries(w, m, e);
    }
  }

  ghost predicate AllTidy(w: Workspace, start: Node) {
    forall m :: Reaches(w, start, m) ==> IsTidy(w, m)
  }

  /** What an open chain from a tidy node leads to is a declaration that the search could end at. */
  lemma {:induction false} TidyOpens(w: Workspace, start: Node, m: Node, b: Node, e: Entity, n: nat)
    requires AllTidy(w, start) && Reaches(w, start, m) && OpensIn(w, m, b, n) && IsAt(w, b, e)
    ensures Reaches(w, start, b) && Declares(w, b) && e == Local(b)
    decreases n
  {
    hide Leads, Reaches, Ways, ExplicitIsAlone, CanFollow;
    assert IsTidy(w, m);
    if n == 0 {
      if !Declares(w, m) {
        TidyWays(w, m, Is(e));
      } else {
        DeclaredWays(w, m);
      }
    } else {
      var next :| Opens(w, m, next) && OpensIn(w, next, b, n - 1);
      if Declares(w, m) {
        DeclaredWays(w, m);
      } else {
        TidyWays(w, m, To(next));
        ReachesNext(w, start, m, next);
        TidyOpens(w, start, next, b, e, n - 1);
      }
    }
  }

  lemma DeclaredWays(w: Workspace, m: Node)
    requires m.file in w.files && Declares(w, m) && Exports(w, m)
    ensures Ways(w, m) == [Is(Local(m))]
  {
  }

  lemma ReachesNext(w: Workspace, a: Node, b: Node, c: Node)
    requires Reaches(w, a, b) && Leads(w, b, c)
    ensures Reaches(w, a, c)
  {
    hide Leads;
    ReachesSelf(w, c);
    ReachesBefore(w, b, c, c);
    var n: nat :| LeadsIn(w, a, b, n);
    ReachesOn(w, a, b, c, n);
  }

  lemma {:induction false} TidyGives(w: Workspace, start: Node, m: Node, b: Node, n: nat)
    requires AllTidy(w, start) && Reaches(w, start, m) && LeadsIn(w, m, b, n) && Declares(w, b)
    ensures Gives(w, m, Local(b))
    decreases n
  {
    hide Leads, Reaches, Gives, Ways;
    assert IsTidy(w, m);
    if n == 0 {
      DeclaredWays(w, b);
      GivesAt(w, b, Local(b));
    } else {
      var next :| Leads(w, m, next) && LeadsIn(w, next, b, n - 1);
      ReachesNext(w, start, m, next);
      TidyGives(w, start, next, b, n - 1);
      TidyLeads(w, m, next);
      GivesOn(w, m, next, Local(b));
    }
  }

  /**
   Where all the files on the way are tidy, the search finds the module's export exactly when all chains of re-exports
   that end at a declaration end at one and the same.
   */
  lemma TidyFindsIff(w: Workspace, start: Node, found: Node)
    requires start.file in w.files && AllTidy(w, start) && First(w, start) == Some(found) && Declares(w, found)
    ensures FindsExport(w, start, found) <==> forall b :: Reaches(w, start, b) && Declares(w, b) ==> b == found
  {
    hide Leads, Ways, FirstEnd, Exported;
    FindsExportIff(w, start, found);
    ReachesSelf(w, start);
    forall b | Reaches(w, start, b) && Declares(w, b) ensures Gives(w, start, Local(b)) {
      var n: nat :| LeadsIn(w, start, b, n);
      TidyGives(w, start, start, b, n);
    }
    forall e | Gives(w, start, e) ensures exists b :: e == Local(b) && Reaches(w, start, b) && Declares(w, b) {
      var n: nat, b :| OpensIn(w, start, b, n) && IsAt(w, b, e);
      TidyOpens(w, start, start, b, e, n);
    }
    UniverseIs(w, start.name);
    FirstEndReaches(w, start, {}, Universe(w, start.name));
  }

  // ----- where the search finds something else -----

  const INDEX := Node("index.ts", "X")
  const B := Node("b.ts", "X")
  const C := Node("c.ts", "X")

  /** `index.ts` with these re-exports, and two files that declare and export `X`. */
  function Beside(exports: seq<Export>): Workspace {
    var declaring := SourceFile(map["X" := 0], map["X" := "X"], [], map[]);
    Workspace(
      map["index.ts" := SourceFile(map[], map[], exports, map[]), "b.ts" := declaring, "c.ts" := declaring],
      map[],
      (from, specifier) => if specifier == "./b.ts" then "b.ts" else "c.ts")
  }

  const ALL_B := All("./b.ts")

  /** `export * from './b.ts'` comes first, and the search takes its end. */
  lemma StarIsFirst(exports: seq<Export>)
    requires exports != [] && exports[0] == ALL_B
    ensures First(Beside(exports), INDEX) == Some(B) && Declares(Beside(exports), B)
  {
    var w := Beside(exports);
    var all := Universe(w, "X");
    UniverseIs(w, "X");
    FirstEndIs(w, INDEX, {}, all);
    FromIs(w, INDEX, 0, {INDEX}, all);
    assert Target(w, INDEX, ALL_B) == Some(B);
    assert {} + {INDEX} == {INDEX};
    assert TargetEnd(w, INDEX, 0, {INDEX}, all) == Some(B);
  }

  lemma OnlyEntity(w: Workspace, b: Node, e: Entity)
    requires b.file in w.files && Ways(w, b) == [Is(e)]
    ensures forall e' :: Gives(w, b, e') <==> e' == e
  {
    GivesAt(w, b, e);
    forall e' | Gives(w, b, e') ensures e' == e {
      var n: nat, c :| OpensIn(w, b, c, n) && IsAt(w, c, e');
    }
  }

  lemma OnlyWay(w: Workspace, a: Node, m: Node, e: Entity)
    requires a.file in w.files && Ways(w, a) == [To(m)] && Gives(w, a, e)
    ensures Gives(w, m, e)
  {
    var n: nat, b :| OpensIn(w, a, b, n) && IsAt(w, b, e);
    if n > 0 {
      var next :| Opens(w, a, next) && OpensIn(w, next, b, n - 1);
    }
  }

  /** `export * from './b.ts'; export { X } from './c.ts'`: the module exports the one of `c.ts`. */
  lemma HiddenStarIsFound()
    ensures var w := Beside([ALL_B, Named("./c.ts", [ExportedName("X", None)])]);
            First(w, INDEX) == Some(B) && Exports(w, B) && Exported(w, INDEX) == Bound(Local(C))
  {
    var exports := [ALL_B, Named("./c.ts", [ExportedName("X", None)])];
    var w := Beside(exports);
    StarIsFirst(exports);
    assert exports[1..] == [Named("./c.ts", [ExportedName("X", None)])];
    assert ExplicitWay(w, INDEX, exports) == ExplicitWay(w, INDEX, exports[1..]) == Some(To(C));
    assert Ways(w, INDEX) == [To(C)] && Ways(w, C) == [Is(Local(C))];
    OnlyEntity(w, C, Local(C));
    hide Ways, First;
    ExportedIs(w, INDEX);
    OpensOnly(w, INDEX, C);
    GivesOn(w, INDEX, C, Local(C));
    forall e | Gives(w, INDEX, e) ensures e == Local(C) {
      OnlyWay(w, INDEX, C, e);
    }
  }

  lemma OpensOnly(w: Workspace, a: Node, m: Node)
    requires a.file in w.files && Ways(w, a) == [To(m)]
    ensures Opens(w, a, m)
  {
  }

  /** `export * from './b.ts'; export * from './c.ts'`: the module exports neither. */
  lemma AmbiguousIsFound()
    ensures var w := Beside([ALL_B, All("./c.ts")]);
            First(w, INDEX) == Some(B) && Exports(w, B) && Exported(w, INDEX) == Ambiguous
  {
    var exports := [ALL_B, All("./c.ts")];
    var w := Beside(exports);
    StarIsFirst(exports);
    assert exports[1..] == [All("./c.ts")] && exports[1..][1..] == [];
    assert ExplicitWay(w, INDEX, exports) == ExplicitWay(w, INDEX, exports[1..]) == None;
    assert StarWays(w, INDEX, exports) == [To(B)] + StarWays(w, INDEX, exports[1..]);
    assert StarWays(w, INDEX, exports[1..]) == [To(C)];
    assert To(B) in Ways(w, INDEX) && To(C) in Ways(w, INDEX);
    GivesAt(w, B, Local(B));
    GivesAt(w, C, Local(C));
    GivesOn(w, INDEX, B, Local(B));
    GivesOn(w, INDEX, C, Local(C));
    ExportedIs(w, INDEX);
  }

  /** `interface X {}`, `interface Y {}` and `export { Y as X }`: the module's `X` is `Y`. */
  function Renamed(): Workspace {
    Workspace(
      map["b.ts" := SourceFile(map["X" := 0, "Y" := 1], map["X" := "Y"], [], map[])],
      map[], (from, specifier) => "b.ts")
  }

  lemma RenamedIsFound()
    ensures First(Renamed(), B) == Some(B) && Exported(Renamed(), B) == Bound(Local(Node("b.ts", "Y")))
    ensures Declares(Renamed(), Node("b.ts", "Y"))
  {
    var w := Renamed();
    UniverseIs(w, "X");
    FirstEndIs(w, B, {}, Universe(w, "X"));
    OnlyEntity(w, B, Local(Node("b.ts", "Y")));
    ExportedIs(w, B);
  }
}
