/** `declForTypeName`: finding a type's declaration through imports and chains of re-exports. */
module ExportedDeclarations {
  import opened Options
  import opened TypePaths

  /** `export * from`, `export { a as b } from`, or an export with nothing to follow. */
  datatype Export =
    | All(specifier: string)
    | Named(specifier: string, elements: seq<ExportedName>)
    | OtherExport

  datatype ExportedName = ExportedName(name: string, propertyName: Option<string>) {
    function Inner(): string {
      if propertyName.Some? then propertyName.value else name
    }
  }

  datatype Import = Import(imported: string, specifier: string)

  /**
   What type names a file declares; the names it exports itself and what it calls them, which may be an import or
   something else than a type, such as a class; what it re-exports, in order; and what it imports.
   */
  datatype SourceFile = SourceFile(
    declared: map<string, DeclId>,
    exported: map<string, string>,
    exports: seq<Export>,
    imports: map<string, Import>)

  /** The readable files, each workspace package's entry, and path resolution. */
  datatype Workspace = Workspace(
    files: map<string, SourceFile>,
    entries: map<string, string>,
    at: (string, string) -> string)

  /** A name looked for in a file. */
  datatype Node = Node(file: string, name: string)

  datatype Outcome =
    | Hit(node: Node)
    | Absent
    | Unreadable(node: Node)

  predicate IsRelative(specifier: string) {
    specifier != "" && specifier[0] == '.'
  }

  predicate IsFollowed(specifier: string) {
    && IsRelative(specifier)
    && |specifier| >= 3 && specifier[|specifier| - 3..] == ".ts"
  }

  /** The first element that exports the name, by what it is called inside. */
  function InnerName(elements: seq<ExportedName>, name: string): Option<string> {
    if elements == [] then None
    else if elements[0].name == name then Some(elements[0].Inner())
    else InnerName(elements[1..], name)
  }

  function LookFor(e: Export, name: string): Option<string> {
    match e
    case All(_) => Some(name)
    case Named(_, elements) => InnerName(elements, name)
    case OtherExport => None
  }

  /** Where an export sends the search for a name. */
  function Target(w: Workspace, node: Node, e: Export): Option<Node> {
    if e.OtherExport? || !IsFollowed(e.specifier) || LookFor(e, node.name).None? then None
    else Some(Node(w.at(node.file, e.specifier), LookFor(e, node.name).value))
  }

  /** The specifier is written `./x.ts` or the like. */
  ghost predicate NamesFile(specifier: string) {
    specifier != "" && specifier[0] == '.' && exists stem :: specifier == stem + ".ts"
  }

  lemma FollowedIff(specifier: string)
    ensures IsFollowed(specifier) <==> NamesFile(specifier)
  {
    if IsFollowed(specifier) {
      assert specifier == specifier[..|specifier| - 3] + ".ts";
    }
  }

  /** The first element of the name is listed here. */
  ghost predicate IsFirst(elements: seq<ExportedName>, name: string, j: nat) {
    j < |elements| && elements[j].name == name && forall i :: 0 <= i < j ==> elements[i].name != name
  }

  lemma {:induction false} FirstIsInner(elements: seq<ExportedName>, name: string)
    ensures InnerName(elements, name).Some? <==> exists e :: e in elements && e.name == name
    ensures forall j: nat :: IsFirst(elements, name, j) ==>
      InnerName(elements, name) ==
        if elements[j].propertyName.Some? then elements[j].propertyName else Some(elements[j].name)
  {
    if elements != [] {
      FirstIsInner(elements[1..], name);
      forall j: nat | IsFirst(elements, name, j) && j > 0 ensures IsFirst(elements[1..], name, j - 1) {
        assert forall i :: 0 <= i < j - 1 ==> elements[1..][i] == elements[i + 1];
        assert elements[0].name != name;
      }
    }
  }

  /**
   `export * from './x.ts'` sends the search there with the same name, and a list with what its first element of that
   name is called inside; no other export sends it anywhere.
   */
  lemma TargetIs(w: Workspace, node: Node, e: Export)
    ensures Target(w, node, e).Some? <==>
      match e
      case All(specifier) => NamesFile(specifier)
      case Named(specifier, elements) => NamesFile(specifier) && exists x :: x in elements && x.name == node.name
      case OtherExport => false
    ensures e.All? && NamesFile(e.specifier) ==>
      Target(w, node, e) == Some(Node(w.at(node.file, e.specifier), node.name))
    ensures e.Named? && NamesFile(e.specifier) ==> forall j: nat :: IsFirst(e.elements, node.name, j) ==>
      Target(w, node, e) == Some(Node(w.at(node.file, e.specifier),
        if e.elements[j].propertyName.Some? then e.elements[j].propertyName.value else node.name))
  {
    hide IsFollowed, NamesFile;
    if !e.OtherExport? {
      FollowedIff(e.specifier);
    }
    if e.Named? {
      FirstIsInner(e.elements, node.name);
    }
  }

  predicate Declares(w: Workspace, node: Node) {
    node.file in w.files && node.name in w.files[node.file].declared
  }

  /** The search passes from `a` to `b`: a re-export of a file that does not declare the name itself. */
  ghost predicate Leads(w: Workspace, a: Node, b: Node) {
    && a.file in w.files && !Declares(w, a)
    && exists i :: 0 <= i < |w.files[a.file].exports| && Target(w, a, w.files[a.file].exports[i]) == Some(b)
  }

  ghost predicate LeadsIn(w: Workspace, a: Node, b: Node, n: nat)
    decreases n
  {
    if n == 0 then a == b else exists m :: Leads(w, a, m) && LeadsIn(w, m, b, n - 1)
  }

  ghost predicate Reaches(w: Workspace, a: Node, b: Node) {
    exists n: nat :: LeadsIn(w, a, b, n)
  }

  lemma ReachesSelf(w: Workspace, a: Node)
    ensures Reaches(w, a, a)
  {
    assert LeadsIn(w, a, a, 0);
  }

  lemma ReachesBefore(w: Workspace, a: Node, b: Node, c: Node)
    requires Leads(w, a, b) && Reaches(w, b, c)
    ensures Reaches(w, a, c)
  {
    hide Leads;
    var n: nat :| LeadsIn(w, b, c, n);
    assert LeadsIn(w, a, c, n + 1);
  }

  // ----- the finitely many nodes a search can visit -----

  ghost function InnerNames(w: Workspace): set<string> {
    set f, i, j | f in w.files && 0 <= i < |w.files[f].exports| && w.files[f].exports[i].Named?
      && 0 <= j < |w.files[f].exports[i].elements| :: w.files[f].exports[i].elements[j].Inner()
  }

  ghost function Universe(w: Workspace, name: string): set<Node> {
    set f, n | f in w.files && n in InnerNames(w) + {name} :: Node(f, n)
  }

  ghost predicate IsUniverse(w: Workspace, all: set<Node>) {
    forall a, b :: a in all && Leads(w, a, b) && b.file in w.files ==> b in all
  }

  lemma {:induction false} InnerNameIs(elements: seq<ExportedName>, name: string)
    ensures InnerName(elements, name).Some? ==>
      exists j :: 0 <= j < |elements| && elements[j].name == name
        && elements[j].Inner() == InnerName(elements, name).value
    ensures InnerName(elements, name).None? ==> forall j :: 0 <= j < |elements| ==> elements[j].name != name
  {
    if elements != [] && elements[0].name != name {
      InnerNameIs(elements[1..], name);
    }
  }

  lemma UniverseIs(w: Workspace, name: string)
    ensures IsUniverse(w, Universe(w, name))
  {
    var names := InnerNames(w);
    forall a, b | a in Universe(w, name) && Leads(w, a, b) && b.file in w.files
      ensures b.name in names + {name}
    {
      var i :| 0 <= i < |w.files[a.file].exports| && Target(w, a, w.files[a.file].exports[i]) == Some(b);
      var e := w.files[a.file].exports[i];
      if e.Named? {
        InnerNameIs(e.elements, a.name);
        assert b.name in names;
      }
    }
  }

  // ----- the first end -----

  /** What a search can end at: a file that declares the name, or one that cannot be read. */
  ghost predicate IsEnd(w: Workspace, node: Node) {
    node.file !in w.files || Declares(w, node)
  }

  /**
   The end that comes first: the re-exports are taken in order, each chain is followed to its end, and only a chain
   that would come back to a node of its own is given up. `chain` holds the nodes gone through.
   */
  ghost function FirstEnd(w: Workspace, node: Node, chain: set<Node>, all: set<Node>): Option<Node>
    requires IsUniverse(w, all) && (node.file in w.files ==> node in all)
    decreases |all - chain|, 1, 0
  {
    if IsEnd(w, node) then Some(node)
    else if node in chain then None
    else
      Fewer(all, chain, node);
      FirstEndFrom(w, node, 0, chain + {node}, all)
  }

  /** The first end by way of re-export `i` of the node's file or a later one. */
  ghost function FirstEndFrom(w: Workspace, node: Node, i: nat, chain: set<Node>, all: set<Node>): Option<Node>
    requires IsUniverse(w, all) && node in all && node.file in w.files && !Declares(w, node)
    requires i <= |w.files[node.file].exports|
    decreases |all - chain|, 2, |w.files[node.file].exports| - i
  {
    var exports := w.files[node.file].exports;
    if i == |exports| then None
    else
      var target := Target(w, node, exports[i]);
      var here := if target.None? then None else TargetEnd(w, node, i, chain, all);
      if here.Some? then here else FirstEndFrom(w, node, i + 1, chain, all)
  }

  ghost function TargetEnd(w: Workspace, node: Node, i: nat, chain: set<Node>, all: set<Node>): Option<Node>
    requires IsUniverse(w, all) && node in all && node.file in w.files && !Declares(w, node)
    requires i < |w.files[node.file].exports| && Target(w, node, w.files[node.file].exports[i]).Some?
    decreases |all - chain|, 2, 0
  {
    var next := Target(w, node, w.files[node.file].exports[i]).value;
    assert Leads(w, node, next);
    FirstEnd(w, next, chain, all)
  }

  lemma Fewer(all: set<Node>, chain: set<Node>, node: Node)
    requires node in all && node !in chain
    ensures |all - (chain + {node})| < |all - chain|
  {
    assert all - chain == (all - (chain + {node})) + {node};
  }

  lemma TargetIn(w: Workspace, node: Node, i: nat, all: set<Node>)
    requires IsUniverse(w, all) && node in all && node.file in w.files && !Declares(w, node)
    requires i < |w.files[node.file].exports| && Target(w, node, w.files[node.file].exports[i]).Some?
    ensures var next := Target(w, node, w.files[node.file].exports[i]).value;
            Leads(w, node, next) && (next.file in w.files ==> next in all)
  {
  }

  /** A node that is new to the chain ends at itself or where its re-exports do. */
  lemma FirstEndIs(w: Workspace, node: Node, chain: set<Node>, all: set<Node>)
    requires IsUniverse(w, all) && node in all && node.file in w.files && node !in chain
    ensures FirstEnd(w, node, chain, all)
         == if Declares(w, node) then Some(node) else FirstEndFrom(w, node, 0, chain + {node}, all)
  {
  }

  lemma FromIs(w: Workspace, node: Node, i: nat, chain: set<Node>, all: set<Node>)
    requires IsUniverse(w, all) && node in all && node.file in w.files && !Declares(w, node)
    requires i < |w.files[node.file].exports|
    ensures FirstEndFrom(w, node, i, chain, all)
         == if Target(w, node, w.files[node.file].exports[i]).Some? && TargetEnd(w, node, i, chain, all).Some?
            then TargetEnd(w, node, i, chain, all) else FirstEndFrom(w, node, i + 1, chain, all)
  {
  }

  lemma FromEnds(w: Workspace, node: Node, chain: set<Node>, all: set<Node>)
    requires IsUniverse(w, all) && node in all && node.file in w.files && !Declares(w, node)
    ensures FirstEndFrom(w, node, |w.files[node.file].exports|, chain, all) == None
  {
  }

  /** The end that comes first is an end, and a chain of re-exports leads there. */
  lemma {:induction false} FirstEndReaches(w: Workspace, node: Node, chain: set<Node>, all: set<Node>)
    requires IsUniverse(w, all) && (node.file in w.files ==> node in all)
    ensures var end := FirstEnd(w, node, chain, all); end.Some? ==> Reaches(w, node, end.value) && IsEnd(w, end.value)
    decreases |all - chain|, 1, 0
  {
    hide Reaches, Leads;
    ReachesSelf(w, node);
    if !IsEnd(w, node) && node !in chain {
      Fewer(all, chain, node);
      FirstEndIs(w, node, chain, all);
      FromReaches(w, node, 0, chain + {node}, all);
    }
  }

  lemma {:induction false} FromReaches(w: Workspace, node: Node, i: nat, chain: set<Node>, all: set<Node>)
    requires IsUniverse(w, all) && node in all && node.file in w.files && !Declares(w, node)
    requires i <= |w.files[node.file].exports|
    ensures var end := FirstEndFrom(w, node, i, chain, all);
            end.Some? ==> Reaches(w, node, end.value) && IsEnd(w, end.value)
    decreases |all - chain|, 2, |w.files[node.file].exports| - i
  {
    hide Reaches, Leads, FirstEnd, IsEnd;
    var exports := w.files[node.file].exports;
    if i < |exports| {
      FromIs(w, node, i, chain, all);
      FromReaches(w, node, i + 1, chain, all);
      if Target(w, node, exports[i]).Some? {
        var next := Target(w, node, exports[i]).value;
        TargetIn(w, node, i, all);
        FirstEndReaches(w, next, chain, all);
        var end := FirstEnd(w, next, chain, all);
        if end.Some? {
          ReachesBefore(w, node, next, end.value);
        }
      }
    }
  }

  // ----- the search -----

  /** Every one of `done` fails to declare the name, and sends the search only into `seen`. */
  ghost predicate Settled(w: Workspace, done: set<Node>, seen: set<Node>) {
    forall a :: a in done ==> !IsEnd(w, a) && forall b :: Leads(w, a, b) ==> b in seen
  }

  /** From what was seen and has no end of its own, every way leads back to the chain. */
  lemma {:induction false} OnlyBack(
    w: Workspace, node: Node, seen: set<Node>, old': set<Node>, chain: set<Node>, all: set<Node>)
    requires IsUniverse(w, all) && seen <= all && old' <= chain && node in seen
    requires Settled(w, seen - old', seen) && forall a :: a in old' ==> !IsEnd(w, a)
    ensures FirstEnd(w, node, chain, all) == None
    decreases |all - chain|, 1, 0
  {
    hide Leads, IsUniverse, FirstEndFrom;
    assert !IsEnd(w, node);
    if node !in chain {
      Fewer(all, chain, node);
      FirstEndIs(w, node, chain, all);
      OnlyBackFrom(w, node, 0, seen, old', chain + {node}, all);
    }
  }

  lemma {:induction false} OnlyBackFrom(
    w: Workspace, node: Node, i: nat, seen: set<Node>, old': set<Node>, chain: set<Node>, all: set<Node>)
    requires IsUniverse(w, all) && seen <= all && old' <= chain && node in seen - old' && !IsEnd(w, node)
    requires Settled(w, seen - old', seen) && forall a :: a in old' ==> !IsEnd(w, a)
    requires i <= |w.files[node.file].exports|
    ensures FirstEndFrom(w, node, i, chain, all) == None
    decreases |all - chain|, 2, |w.files[node.file].exports| - i
  {
    hide Leads, IsUniverse, FirstEnd;
    if i < |w.files[node.file].exports| {
      FromIs(w, node, i, chain, all);
      OnlyBackFrom(w, node, i + 1, seen, old', chain, all);
      if Target(w, node, w.files[node.file].exports[i]).Some? {
        TargetIn(w, node, i, all);
        OnlyBack(w, Target(w, node, w.files[node.file].exports[i]).value, seen, old', chain, all);
      }
    } else {
      FromEnds(w, node, chain, all);
    }
  }

  lemma Entered(w: Workspace, start: Node, chain: set<Node>, seen: set<Node>)
    requires Settled(w, seen - chain, seen) && start !in seen
    ensures Settled(w, (seen + {start}) - (chain + {start}), seen + {start})
  {
    hide Leads, IsEnd;
  }

  /** The first `n` re-exports send the search only into `seen`. */
  ghost predicate TargetsSeen(w: Workspace, node: Node, n: nat, seen: set<Node>)
    requires node.file in w.files && n <= |w.files[node.file].exports|
  {
    forall j :: 0 <= j < n ==> TargetSeen(w, node, w.files[node.file].exports[j], seen)
  }

  ghost predicate TargetSeen(w: Workspace, node: Node, e: Export, seen: set<Node>) {
    Target(w, node, e).Some? ==> Target(w, node, e).value in seen
  }

  /** With all its re-exports seen and no end among them, the node itself joins what leads only back. */
  lemma Leaving(w: Workspace, start: Node, chain: set<Node>, seen: set<Node>)
    requires Settled(w, seen - (chain + {start}), seen) && !IsEnd(w, start)
    requires TargetsSeen(w, start, |w.files[start.file].exports|, seen)
    ensures Settled(w, seen - chain, seen)
  {
    assert forall b :: Leads(w, start, b) ==> b in seen;
  }

  /** What the search answers about the end that comes first. */
  ghost predicate IsOutcome(w: Workspace, r: Outcome, end: Option<Node>) {
    match r
    case Hit(node) => end == Some(node) && Declares(w, node)
    case Unreadable(node) => end == Some(node) && node.file !in w.files
    case Absent => end == None
  }

  class ExportSearch {
    const w: Workspace
    var seen: set<Node>

    constructor (w: Workspace)
      ensures this.w == w && seen == {}
    {
      this.w := w;
      seen := {};
    }

    /**
     The search with the shared set finds the end that comes first, although it never enters a node twice: what was
     entered before and is not on the chain leads nowhere but back to the chain.
     */
    method Find(start: Node, ghost chain: set<Node>, ghost all: set<Node>) returns (r: Outcome)
      requires start.file in w.files && start in all && IsUniverse(w, all) && chain <= seen <= all
      requires forall a :: a in chain ==> !IsEnd(w, a)
      requires Settled(w, seen - chain, seen)
      modifies this
      ensures old(seen) <= seen <= all
      ensures IsOutcome(w, r, FirstEnd(w, start, chain, all))
      ensures r.Absent? ==> start in seen && Settled(w, seen - chain, seen)
      decreases all - seen
    {
      hide Settled, IsUniverse, Leads, FirstEndFrom;
      if start in seen {
        OnlyBack(w, start, seen, chain, chain, all);
        return Absent;
      }
      FirstEndIs(w, start, chain, all);
      seen := seen + {start};
      if start.name in w.files[start.file].declared {
        return Hit(start);
      }
      Entered(w, start, chain, old(seen));
      ghost var longer := chain + {start};
      var exports := w.files[start.file].exports;
      for i := 0 to |exports|
        invariant old(seen) + {start} <= seen <= all
        invariant Settled(w, seen - longer, seen)
        invariant TargetsSeen(w, start, i, seen)
        invariant FirstEndFrom(w, start, 0, longer, all) == FirstEndFrom(w, start, i, longer, all)
      {
        FromIs(w, start, i, longer, all);
        var target := Target(w, start, exports[i]);
        if target.None? {
          continue;
        }
        var next := target.value;
        TargetIn(w, start, i, all);
        if next.file !in w.files {
          return Unreadable(next);
        }
        r := Find(next, longer, all);
        if !r.Absent? {
          return;
        }
      }
      FromEnds(w, start, longer, all);
      Leaving(w, start, chain, seen);
      return Absent;
    }
  }

  lemma {:induction false} SettledReaches(w: Workspace, seen: set<Node>, a: Node, b: Node, n: nat)
    requires Settled(w, seen, seen) && a in seen && LeadsIn(w, a, b, n)
    ensures b in seen
    decreases n
  {
    if n > 0 {
      var m :| Leads(w, a, m) && LeadsIn(w, m, b, n - 1);
      SettledReaches(w, seen, m, b, n - 1);
    }
  }

  ghost function First(w: Workspace, start: Node): Option<Node> {
    UniverseIs(w, start.name);
    FirstEnd(w, start, {}, Universe(w, start.name))
  }

  /** The search finds the end that comes first, and gives up exactly when no chain of re-exports has an end. */
  method FindExportedTypeDecl(w: Workspace, start: Node) returns (r: Outcome)
    ensures IsOutcome(w, r, First(w, start))
    ensures r.Hit? ==> Reaches(w, start, r.node) && Declares(w, r.node)
    ensures r.Unreadable? ==> Reaches(w, start, r.node) && r.node.file !in w.files
    ensures r.Absent? <==> !exists b :: Reaches(w, start, b) && IsEnd(w, b)
  {
    UniverseIs(w, start.name);
    FirstEndReaches(w, start, {}, Universe(w, start.name));
    if start.file !in w.files {
      return Unreadable(start);
    }
    var search := new ExportSearch(w);
    r := search.Find(start, {}, Universe(w, start.name));
    if r.Absent? {
      assert search.seen - {} == search.seen;
      forall b | Reaches(w, start, b) ensures !IsEnd(w, b) {
        var n: nat :| LeadsIn(w, start, b, n);
        SettledReaches(w, search.seen, start, b, n);
      }
    }
  }

  // ----- a type name in a file -----

  datatype Resolution = Resolved(id: DeclId, file: string) | OutsideReach | LoadFails(file: string)

  /** Where an import of the name sends the search, if anywhere. */
  function ImportTarget(w: Workspace, file: string, name: string): Option<Node>
    requires file in w.files
  {
    if name !in w.files[file].imports then None
    else
      var imp := w.files[file].imports[name];
      if IsRelative(imp.specifier) then
        if IsFollowed(imp.specifier) then Some(Node(w.at(file, imp.specifier), imp.imported)) else None
      else if imp.specifier in w.entries && w.entries[imp.specifier] in w.files
      then Some(Node(w.entries[imp.specifier], imp.imported))
      else None
  }

  /** A relative import is followed if it ends in `.ts`; another one only to a package's readable entry. */
  lemma ImportTargetIs(w: Workspace, file: string, name: string, specifier: string)
    requires file in w.files && name in w.files[file].imports && w.files[file].imports[name].specifier == specifier
    ensures var imported := w.files[file].imports[name].imported;
      ImportTarget(w, file, name) ==
        if specifier != "" && specifier[0] == '.' then
          if exists stem :: specifier == stem + ".ts" then Some(Node(w.at(file, specifier), imported)) else None
        else if specifier !in w.entries || w.entries[specifier] !in w.files then None
        else Some(Node(w.entries[specifier], imported))
  {
    if |specifier| >= 3 && specifier[|specifier| - 3..] == ".ts" {
      assert specifier == specifier[..|specifier| - 3] + ".ts";
    }
  }

  /** What the name is found to stand for: its own file's declaration, or the first end of a chain from its import. */
  ghost function FoundFor(w: Workspace, file: string, name: string): Option<Node>
    requires file in w.files
  {
    if Declares(w, Node(file, name)) then Some(Node(file, name))
    else if ImportTarget(w, file, name).None? then None
    else First(w, ImportTarget(w, file, name).value)
  }

  /**
   A name resolves exactly to the declaration it stands for; it is out of reach exactly when it stands for none, and
   then no chain from its import ends at a declaration.
   */
  method DeclForTypeName(w: Workspace, file: string, name: string) returns (r: Resolution)
    requires file in w.files
    ensures match r
            case Resolved(id, declaredIn) =>
              var node := FoundFor(w, file, name);
              node.Some? && Declares(w, node.value)
              && declaredIn == node.value.file && id == w.files[declaredIn].declared[node.value.name]
            case LoadFails(unreadable) =>
              var node := FoundFor(w, file, name);
              node.Some? && node.value.file == unreadable && unreadable !in w.files
            case OutsideReach => FoundFor(w, file, name) == None
    ensures r.OutsideReach? && ImportTarget(w, file, name).Some? ==>
              forall node :: Reaches(w, ImportTarget(w, file, name).value, node) ==> !IsEnd(w, node)
  {
    var local := Node(file, name);
    if Declares(w, local) {
      return Resolved(w.files[file].declared[name], file);
    }
    if name !in w.files[file].imports {
      return OutsideReach;
    }
    var imp := w.files[file].imports[name];
    var start;
    if IsRelative(imp.specifier) {
      if !IsFollowed(imp.specifier) {
        return OutsideReach;
      }
      start := Node(w.at(file, imp.specifier), imp.imported);
    } else {
      if imp.specifier !in w.entries || w.entries[imp.specifier] !in w.files {
        return OutsideReach;
      }
      start := Node(w.entries[imp.specifier], imp.imported);
    }
    assert ImportTarget(w, file, name) == Some(start);
    var found := FindExportedTypeDecl(w, start);
    match found {
      case Hit(node) => return Resolved(w.files[node.file].declared[node.name], node.file);
      case Unreadable(node) => return LoadFails(node.file);
      case Absent => return OutsideReach;
    }
  }

  // ----- declarations that are found and not exported -----

  /** The file exports what it declares under this name, under the same name. */
  predicate Exports(w: Workspace, node: Node) {
    && node.file in w.files && node.name in w.files[node.file].exported
    && w.files[node.file].exported[node.name] == node.name
  }

  /** If the search from here finds a declaration, its file exports it. */
  ghost predicate HitIsExported(w: Workspace, start: Node) {
    var end := First(w, start);
    end.Some? && Declares(w, end.value) ==> Exports(w, end.value)
  }

  lemma {:induction false} ReachesOn(w: Workspace, a: Node, b: Node, c: Node, n: nat)
    requires LeadsIn(w, a, b, n) && Reaches(w, b, c)
    ensures Reaches(w, a, c)
    decreases n
  {
    hide Leads, Reaches;
    if n > 0 {
      var m :| Leads(w, a, m) && LeadsIn(w, m, b, n - 1);
      ReachesOn(w, m, b, c, n - 1);
      ReachesBefore(w, a, m, c);
    }
  }

  /**
   All searches from a node, and from the nodes it passes to, find exported declarations exactly when every file that
   declares a name at the end of a chain also exports it. The search itself never looks.
   */
  lemma HitsExportedIff(w: Workspace, start: Node)
    ensures (forall m :: Reaches(w, start, m) ==> HitIsExported(w, m))
        <==> (forall b :: Reaches(w, start, b) && Declares(w, b) ==> Exports(w, b))
  {
    hide FirstEnd, Leads;
    forall m | Reaches(w, start, m) && First(w, m).Some? ensures Reaches(w, start, First(w, m).value) {
      UniverseIs(w, m.name);
      FirstEndReaches(w, m, {}, Universe(w, m.name));
      var n: nat :| LeadsIn(w, start, m, n);
      ReachesOn(w, start, m, First(w, m).value, n);
    }
    forall b | Declares(w, b) ensures First(w, b) == Some(b) {
      UniverseIs(w, b.name);
      FirstEndIs(w, b, {}, Universe(w, b.name));
    }
  }

  /** `b.ts` declares `X` and does not export it; `index.ts` has `export * from './b.ts'`. */
  function Unexported(): Workspace {
    Workspace(
      map["index.ts" := SourceFile(map[], map[], [All("./b.ts")], map[]),
          "b.ts" := SourceFile(map["X" := 0], map[], [], map[])],
      map[],
      (from, specifier) => "b.ts")
  }

  lemma UnexportedIsFound()
    ensures First(Unexported(), Node("index.ts", "X")) == Some(Node("b.ts", "X"))
    ensures Declares(Unexported(), Node("b.ts", "X")) && !Exports(Unexported(), Node("b.ts", "X"))
  {
    var w, start := Unexported(), Node("index.ts", "X");
    var all := Universe(w, "X");
    UniverseIs(w, "X");
    FirstEndIs(w, start, {}, all);
    FromIs(w, start, 0, {start}, all);
    assert Target(w, start, All("./b.ts")) == Some(Node("b.ts", "X"));
    assert {} + {start} == {start};
    assert TargetEnd(w, start, 0, {start}, all) == Some(Node("b.ts", "X"));
  }
}
