/** How far the `lookupPath` walk goes: what the recursion guard changes, and when the walk ends. */
module TypePathWalk {
  import opened Options
  import opened TypePaths

  // ----- the guard only weakens -----

  /** The guarded answer gives up, or is the unguarded one. */
  ghost predicate Weakens(guarded: Answer, unguarded: Answer) {
    unguarded == Overflow || guarded == unguarded || guarded == Unknown
  }

  /**
   A hit on the recursion guard can only turn an answer into "unknown": wherever the walk without the guard
   ends, the guarded one gives the same answer or "unknown", whatever either has seen.
   */
  lemma {:induction false} GuardOnlyWeakens(w: World, q: Query, seen: set<Key>, seen': set<Key>, depth: nat)
    ensures Weakens(Look(w, q, seen, depth, true).0, Look(w, q, seen', depth, false).0)
    decreases depth, 1, 0
  {
    hide Next;
    if depth > 0 && q.steps != [] && !(IsGuarded(w, q) && (q.id, |q.steps|) in seen) {
      var next, next' := Mark(w, q, seen), Mark(w, q, seen');
      match Next(w, q)
      case Answered(_) =>
      case Ask(r) => GuardOnlyWeakens(w, r, next, next', depth - 1);
      case AskAll(rs) =>
        GuardWeakensEach(w, rs, next, next', depth - 1);
        TogetherWeaken(LookEach(w, rs, next, depth - 1, true).0, LookEach(w, rs, next', depth - 1, false).0);
      case AskEvery(rs) =>
        GuardWeakensEach(w, rs, next, next', depth - 1);
        TogetherWeaken(LookEach(w, rs, next, depth - 1, true).0, LookEach(w, rs, next', depth - 1, false).0);
    }
  }

  ghost predicate EachWeakens(guarded: seq<Answer>, unguarded: seq<Answer>) {
    Overflow in unguarded
    || (|guarded| == |unguarded| && forall i :: 0 <= i < |guarded| ==> Weakens(guarded[i], unguarded[i]))
  }

  lemma {:induction false} GuardWeakensEach(w: World, qs: seq<Query>, seen: set<Key>, seen': set<Key>, depth: nat)
    ensures EachWeakens(LookEach(w, qs, seen, depth, true).0, LookEach(w, qs, seen', depth, false).0)
    decreases depth, 2, |qs|
  {
    hide Look;
    if qs != [] {
      var first := if qs[0].OutOfReach? then (Unknown, seen) else Look(w, qs[0], seen, depth, true);
      var first' := if qs[0].OutOfReach? then (Unknown, seen') else Look(w, qs[0], seen', depth, false);
      if !qs[0].OutOfReach? {
        GuardOnlyWeakens(w, qs[0], seen, seen', depth);
      }
      GuardWeakensEach(w, qs[1..], first.1, first'.1, depth);
      var rest, rest' := LookEach(w, qs[1..], first.1, depth, true).0, LookEach(w, qs[1..], first'.1, depth, false).0;
      assert Overflow in rest' ==> Overflow in [first'.0] + rest';
    }
  }

  lemma TogetherWeaken(guarded: seq<Answer>, unguarded: seq<Answer>)
    requires EachWeakens(guarded, unguarded)
    ensures Weakens(Combine(guarded), Combine(unguarded)) && Weakens(Agree(guarded), Agree(unguarded))
  {
    assert forall i :: 0 <= i < |guarded| ==> guarded[i] in guarded;
    assert forall i :: 0 <= i < |unguarded| ==> unguarded[i] in unguarded;
  }

  // ----- termination -----

  /**
   Every declaration that `t` refers to has a budget of at most `b`, plus one for each path step consumed on
   the way there, minus one for each step that an indexed access puts in front.
   */
  ghost predicate Fits(w: World, budget: seq<nat>, scope: Scope, t: Type, b: int)
    requires |budget| == |w.decls|
  {
    match t
    case Literal(members) =>
      forall m :: m in members && m.Property? && m.declared.Some? ==> Fits(w, budget, scope, m.declared.value, b + 1)
    case Parenthesized(inner) => Fits(w, budget, scope, inner, b)
    case Modified(inner) => Fits(w, budget, scope, inner, b)
    case Keyof(inner) => Fits(w, budget, scope, inner, b)
    case Intersection(parts) => forall p :: p in parts ==> Fits(w, budget, scope, p, b)
    case Union(parts) => forall p :: p in parts ==> Fits(w, budget, scope, p, b)
    case ArrayOf(element) => Fits(w, budget, scope, element, b + 1)
    case Indexed(owner, index) => index.Some? ==> Fits(w, budget, scope, owner, b - 1)
    case Reference(name, arguments) =>
      if IsPassthrough(name) && arguments != [] then Fits(w, budget, scope, arguments[0], b)
      else if IsArrayName(name) && arguments != [] then Fits(w, budget, scope, arguments[0], b + 1)
      else NameFits(w, budget, scope, name, b)
    case Qualified(head, arguments) =>
      if IsPassthrough(head) && arguments != [] then Fits(w, budget, scope, arguments[0], b)
      else if IsArrayName(head) && arguments != [] then Fits(w, budget, scope, arguments[0], b + 1)
      else true
    case Opaque => true
  }

  ghost predicate NameFits(w: World, budget: seq<nat>, scope: Scope, name: string, b: int)
    requires |budget| == |w.decls|
  {
    w.Resolve(scope, name).Some? ==> budget[w.Resolve(scope, name).value] <= b
  }

  /** No chain of declarations makes the path longer without end: the budgets bound how much it can grow. */
  ghost predicate Bounded(w: World, budget: seq<nat>) {
    && |budget| == |w.decls|
    && forall i :: 0 <= i < |w.decls| ==> DeclarationFits(w, budget, w.decls[i], budget[i])
  }

  ghost predicate DeclarationFits(w: World, budget: seq<nat>, d: Declaration, b: int)
    requires |budget| == |w.decls|
  {
    match d
    case Enum => true
    case Alias(scope, target) => Fits(w, budget, scope, target, b)
    case Interface(scope, members, bases, _) =>
      && Fits(w, budget, scope, Literal(members), b)
      && forall base :: base in bases && base.Named? ==> NameFits(w, budget, scope, base.name, b)
  }

  /** The path at `q` can still grow at most to length `bound`. */
  ghost predicate QueryFits(w: World, budget: seq<nat>, q: Query, bound: nat)
    requires |budget| == |w.decls|
  {
    match q
    case OutOfReach(_, _, _) => true
    case AtDecl(id, steps) => id < |w.decls| && |steps| + budget[id] <= bound
    case AtType(scope, node, steps) => Fits(w, budget, scope, node, bound - |steps|)
  }

  lemma {:induction false} FitsMore(w: World, budget: seq<nat>, scope: Scope, t: Type, b: int, b': int)
    requires |budget| == |w.decls| && Fits(w, budget, scope, t, b) && b <= b'
    ensures Fits(w, budget, scope, t, b')
    decreases t
  {
    match t
    case Literal(members) =>
      forall m | m in members && m.Property? && m.declared.Some?
        ensures Fits(w, budget, scope, m.declared.value, b' + 1) {
        FitsMore(w, budget, scope, m.declared.value, b + 1, b' + 1);
      }
    case Parenthesized(inner) => FitsMore(w, budget, scope, inner, b, b');
    case Modified(inner) => FitsMore(w, budget, scope, inner, b, b');
    case Keyof(inner) => FitsMore(w, budget, scope, inner, b, b');
    case Intersection(parts) =>
      forall p | p in parts ensures Fits(w, budget, scope, p, b') {
        FitsMore(w, budget, scope, p, b, b');
      }
    case Union(parts) =>
      forall p | p in parts ensures Fits(w, budget, scope, p, b') {
        FitsMore(w, budget, scope, p, b, b');
      }
    case ArrayOf(element) => FitsMore(w, budget, scope, element, b + 1, b' + 1);
    case Indexed(owner, index) =>
      if index.Some? {
        FitsMore(w, budget, scope, owner, b - 1, b' - 1);
      }
    case Reference(name, arguments) =>
      if IsPassthrough(name) && arguments != [] {
        FitsMore(w, budget, scope, arguments[0], b, b');
      } else if IsArrayName(name) && arguments != [] {
        FitsMore(w, budget, scope, arguments[0], b + 1, b' + 1);
      }
    case Qualified(head, arguments) =>
      if IsPassthrough(head) && arguments != [] {
        FitsMore(w, budget, scope, arguments[0], b, b');
      } else if IsArrayName(head) && arguments != [] {
        FitsMore(w, budget, scope, arguments[0], b + 1, b' + 1);
      }
    case Opaque =>
  }

  /** How deeply a type is nested. */
  ghost function Height(t: Type): (h: nat)
    ensures h > 0
  {
    match t
    case Literal(members) => 1 + MembersHeight(members)
    case Parenthesized(inner) => 1 + Height(inner)
    case Modified(inner) => 1 + Height(inner)
    case Keyof(inner) => 1 + Height(inner)
    case Intersection(parts) => 1 + PartsHeight(parts)
    case Union(parts) => 1 + PartsHeight(parts)
    case ArrayOf(element) => 1 + Height(element)
    case Indexed(owner, _) => 1 + Height(owner)
    case Reference(_, arguments) => 1 + PartsHeight(arguments)
    case Qualified(_, arguments) => 1 + PartsHeight(arguments)
    case Opaque => 1
  }

  ghost function Max(a: nat, b: nat): nat {
    if a <= b then b else a
  }

  ghost function PartsHeight(parts: seq<Type>): (h: nat)
    ensures forall p :: p in parts ==> Height(p) <= h
  {
    if parts == [] then 0
    else
      assert parts == [parts[0]] + parts[1..];
      Max(Height(parts[0]), PartsHeight(parts[1..]))
  }

  ghost function SignatureHeight(m: Signature): nat {
    match m
    case Property(_, Some(t)) => Height(t)
    case _ => 0
  }

  ghost function MembersHeight(members: seq<Signature>): (h: nat)
    ensures forall m :: m in members ==> SignatureHeight(m) <= h
  {
    if members == [] then 0
    else
      assert members == [members[0]] + members[1..];
      Max(SignatureHeight(members[0]), MembersHeight(members[1..]))
  }

  // ----- the call stack the walk needs -----

  /** Every key the walk can meet while the path stays within `bound`. */
  ghost function KeysWithin(w: World, bound: nat): set<Key> {
    set id: nat, n: nat | 0 <= id < |w.decls| && 0 <= n <= bound :: (id, n)
  }

  ghost function Unseen(w: World, bound: nat, seen: set<Key>): nat {
    |KeysWithin(w, bound) - seen|
  }

  /** No declaration is nested more deeply than `tall`. */
  ghost predicate NoTaller(w: World, tall: nat) {
    forall d :: d in w.decls ==>
                  && (d.Alias? ==> Height(d.target) <= tall)
                  && (d.Interface? ==> Height(Literal(d.members)) <= tall)
  }

  /** A stack that lasts through `unseen` more declarations and `local` levels of the current one. */
  ghost function Room(unseen: nat, tall: nat, local: nat): nat {
    if unseen == 0 then local + 1 else Room(unseen - 1, tall, tall + 1) + local + 1
  }

  lemma {:induction false} RoomGrows(unseen: nat, unseen': nat, tall: nat, local: nat)
    requires unseen <= unseen'
    ensures Room(unseen, tall, local) <= Room(unseen', tall, local)
    decreases unseen'
  {
    if unseen < unseen' {
      RoomStep(unseen' - 1, tall, local);
      RoomGrows(unseen, unseen' - 1, tall, local);
    }
  }

  lemma {:induction false} RoomStep(unseen: nat, tall: nat, local: nat)
    ensures Room(unseen, tall, local) <= Room(unseen + 1, tall, local)
  {
    if unseen > 0 {
      RoomStep(unseen - 1, tall, tall + 1);
    }
  }

  lemma RoomShift(unseen: nat, tall: nat, local: nat, less: nat)
    requires less <= local
    ensures Room(unseen, tall, less) + (local - less) == Room(unseen, tall, local)
  {
  }

  ghost function LocalHeight(q: Query): nat {
    if q.AtType? then Height(q.node) else 0
  }

  lemma KeysFinite(w: World, bound: nat, seen: set<Key>, more: set<Key>)
    requires seen <= more
    ensures Unseen(w, bound, more) <= Unseen(w, bound, seen)
    ensures forall k :: k in KeysWithin(w, bound) && k !in seen && k in more
                        ==> Unseen(w, bound, more) < Unseen(w, bound, seen)
  {
    var all := KeysWithin(w, bound);
    Subset(all - more, all - seen);
    forall k | k in all && k !in seen && k in more ensures |all - more| < |all - seen| {
      Subset(all - more, all - seen - {k});
    }
  }

  lemma Subset<T>(a: set<T>, b: set<T>)
    requires a <= b
    ensures |a| <= |b|
  {
    assert b == a + (b - a);
  }

  /** Marks are never taken back. */
  lemma {:induction false} LookKeepsSeen(w: World, q: Query, seen: set<Key>, depth: nat, guard: bool)
    ensures seen <= Look(w, q, seen, depth, guard).1
    decreases depth, 1, 0
  {
    hide Next;
    if depth > 0 && q.steps != [] {
      match Next(w, q)
      case Answered(_) =>
      case Ask(r) => LookKeepsSeen(w, r, Mark(w, q, seen), depth - 1, guard);
      case AskAll(rs) => LookEachKeepsSeen(w, rs, Mark(w, q, seen), depth - 1, guard);
      case AskEvery(rs) => LookEachKeepsSeen(w, rs, Mark(w, q, seen), depth - 1, guard);
    }
  }

  lemma {:induction false} LookEachKeepsSeen(w: World, qs: seq<Query>, seen: set<Key>, depth: nat, guard: bool)
    ensures seen <= LookEach(w, qs, seen, depth, guard).1
    decreases depth, 2, |qs|
  {
    if qs != [] {
      var first := if qs[0].OutOfReach? then (Unknown, seen) else Look(w, qs[0], seen, depth, guard);
      if !qs[0].OutOfReach? {
        LookKeepsSeen(w, qs[0], seen, depth, guard);
      }
      LookEachKeepsSeen(w, qs[1..], first.1, depth, guard);
    }
  }

  /** What a question leads to still fits, and is nested less deeply unless a declaration was entered. */
  ghost predicate Leads(w: World, budget: seq<nat>, bound: nat, tall: nat, q: Query, r: Query)
    requires |budget| == |w.decls|
  {
    && QueryFits(w, budget, r, bound)
    && (if q.AtDecl? then LocalHeight(r) <= tall else LocalHeight(r) < LocalHeight(q))
  }

  /** What the walk asks next leads on from the question. */
  ghost predicate NextLeads(w: World, budget: seq<nat>, bound: nat, tall: nat, q: Query)
    requires |budget| == |w.decls| && q.steps != []
  {
    match Next(w, q)
    case Answered(answer) => answer != Overflow
    case Ask(r) => Leads(w, budget, bound, tall, q, r) && !r.OutOfReach?
    case AskAll(rs) => forall r :: r in rs ==> Leads(w, budget, bound, tall, q, r)
    case AskEvery(rs) => forall r :: r in rs ==> Leads(w, budget, bound, tall, q, r)
  }

  lemma MoveLeads(w: World, budget: seq<nat>, bound: nat, tall: nat, q: Query)
    requires Bounded(w, budget) && NoTaller(w, tall) && QueryFits(w, budget, q, bound) && q.steps != []
    ensures NextLeads(w, budget, bound, tall, q)
    ensures q.AtDecl? && !IsGuarded(w, q) ==> Next(w, q).Answered?
  {
    match q
    case OutOfReach(_, _, _) =>
    case AtDecl(_, _) => DeclarationLeads(w, budget, bound, tall, q);
    case AtType(_, _, _) => TypeLeads(w, budget, bound, tall, q);
  }

  lemma DeclarationLeads(w: World, budget: seq<nat>, bound: nat, tall: nat, q: Query)
    requires Bounded(w, budget) && NoTaller(w, tall) && QueryFits(w, budget, q, bound) && q.steps != [] && q.AtDecl?
    ensures NextLeads(w, budget, bound, tall, q)
  {
    hide Height;
    var d, b, room := w.decls[q.id], budget[q.id], bound - |q.steps|;
    assert d in w.decls && DeclarationFits(w, budget, d, b);
    if d.Alias? {
      FitsMore(w, budget, d.scope, d.target, b, room);
    } else if d.Interface? {
      FitsMore(w, budget, d.scope, Literal(d.members), b, room);
      if q.steps[0].Member? {
        MembersLead(w, budget, bound, tall, d.scope, d.members, q.steps, q);
      }
    }
  }

  lemma TypeLeads(w: World, budget: seq<nat>, bound: nat, tall: nat, q: Query)
    requires |budget| == |w.decls| && QueryFits(w, budget, q, bound) && q.steps != [] && q.AtType?
    ensures NextLeads(w, budget, bound, tall, q)
  {
    if q.node.Literal? && q.steps[0].Member? {
      MembersLead(w, budget, bound, tall, q.scope, q.node.members, q.steps, q);
    }
  }

  lemma MembersLead(w: World, budget: seq<nat>, bound: nat, tall: nat, scope: Scope, members: seq<Signature>,
                    steps: seq<Step>, q: Query)
    requires |budget| == |w.decls| && steps != [] && steps[0].Member?
    requires Fits(w, budget, scope, Literal(members), bound - |steps|)
    requires if q.AtDecl? then Height(Literal(members)) <= tall else Height(Literal(members)) <= LocalHeight(q)
    ensures var i := FirstByText(members, steps[0].name);
            i < |members| && members[i].declared.Some? ==>
              Leads(w, budget, bound, tall, q, AtType(scope, members[i].declared.value, steps[1..]))
  {
    var i := FirstByText(members, steps[0].name);
    assert i < |members| ==> members[i] in members;
    assert i < |members| && members[i].declared.Some? ==>
      SignatureHeight(members[i]) == Height(members[i].declared.value);
  }

  /** On declarations with budgets, a deep enough stack never runs out. */
  lemma {:induction false} LookEnds(
    w: World, budget: seq<nat>, bound: nat, tall: nat, q: Query, seen: set<Key>, depth: nat)
    requires Bounded(w, budget) && |budget| == |w.decls| && NoTaller(w, tall)
    requires QueryFits(w, budget, q, bound) && !q.OutOfReach?
    requires depth >= Room(Unseen(w, bound, seen), tall, LocalHeight(q))
    ensures Look(w, q, seen, depth, true).0 != Overflow
    decreases depth, 1, 0
  {
    hide Next, Bounded, NoTaller, QueryFits, Room, Unseen, Leads, Height;
    RoomPositive(Unseen(w, bound, seen), tall, LocalHeight(q));
    if q.steps != [] && !(IsGuarded(w, q) && (q.id, |q.steps|) in seen) {
      var seen' := Mark(w, q, seen);
      MoveLeads(w, budget, bound, tall, q);
      match Next(w, q)
      case Answered(_) =>
      case Ask(r) =>
        LeadsInRoom(w, budget, bound, tall, q, r, seen, depth);
        LookEnds(w, budget, bound, tall, r, seen', depth - 1);
      case AskAll(rs) =>
        forall r | r in rs
          ensures QueryFits(w, budget, r, bound) && depth - 1 >= Room(Unseen(w, bound, seen'), tall, LocalHeight(r))
        {
          LeadsInRoom(w, budget, bound, tall, q, r, seen, depth);
        }
        LookEachEnds(w, budget, bound, tall, rs, seen', depth - 1);
      case AskEvery(rs) =>
        forall r | r in rs
          ensures QueryFits(w, budget, r, bound) && depth - 1 >= Room(Unseen(w, bound, seen'), tall, LocalHeight(r))
        {
          LeadsInRoom(w, budget, bound, tall, q, r, seen, depth);
        }
        LookEachEnds(w, budget, bound, tall, rs, seen', depth - 1);
    }
  }

  lemma RoomPositive(unseen: nat, tall: nat, local: nat)
    ensures Room(unseen, tall, local) > 0
  {
  }

  /** One step down leaves room for what it leads to. */
  lemma LeadsInRoom(
    w: World, budget: seq<nat>, bound: nat, tall: nat, q: Query, r: Query, seen: set<Key>, depth: nat)
    requires |budget| == |w.decls| && QueryFits(w, budget, q, bound) && Leads(w, budget, bound, tall, q, r)
    requires q.AtDecl? ==> IsGuarded(w, q) && (q.id, |q.steps|) !in seen
    requires depth >= Room(Unseen(w, bound, seen), tall, LocalHeight(q)) && !q.OutOfReach?
    ensures QueryFits(w, budget, r, bound)
    ensures depth > 0 && depth - 1 >= Room(Unseen(w, bound, Mark(w, q, seen)), tall, LocalHeight(r))
  {
    hide Height;
    var now, then' := Unseen(w, bound, seen), Unseen(w, bound, Mark(w, q, seen));
    KeysFinite(w, bound, seen, Mark(w, q, seen));
    hide Unseen;
    if q.AtDecl? {
      var key: Key := (q.id, |q.steps|);
      assert key in KeysWithin(w, bound);
      RoomGrows(then', now - 1, tall, LocalHeight(r));
      RoomShift(now - 1, tall, tall + 1, LocalHeight(r));
    } else {
      RoomShift(now, tall, LocalHeight(q), LocalHeight(r));
    }
  }

  lemma {:induction false} LookEachEnds(
    w: World, budget: seq<nat>, bound: nat, tall: nat, qs: seq<Query>, seen: set<Key>, depth: nat)
    requires Bounded(w, budget) && |budget| == |w.decls| && NoTaller(w, tall)
    requires forall q :: q in qs ==> QueryFits(w, budget, q, bound)
    requires forall q :: q in qs ==> depth >= Room(Unseen(w, bound, seen), tall, LocalHeight(q))
    ensures Overflow !in LookEach(w, qs, seen, depth, true).0
    decreases depth, 2, |qs|
  {
    hide Bounded, NoTaller, QueryFits, Room, Unseen, Look, Height;
    if qs != [] {
      var first := if qs[0].OutOfReach? then (Unknown, seen) else Look(w, qs[0], seen, depth, true);
      if !qs[0].OutOfReach? {
        LookEnds(w, budget, bound, tall, qs[0], seen, depth);
        LookKeepsSeen(w, qs[0], seen, depth, true);
      }
      KeysFinite(w, bound, seen, first.1);
      forall q | q in qs[1..] ensures depth >= Room(Unseen(w, bound, first.1), tall, LocalHeight(q)) {
        RoomGrows(Unseen(w, bound, first.1), Unseen(w, bound, seen), tall, LocalHeight(q));
      }
      LookEachEnds(w, budget, bound, tall, qs[1..], first.1, depth);
    }
  }

  ghost function Tallest(ds: seq<Declaration>): (tall: nat)
    ensures forall d :: d in ds ==>
              (d.Alias? ==> Height(d.target) <= tall) && (d.Interface? ==> Height(Literal(d.members)) <= tall)
  {
    if ds == [] then 0
    else
      assert ds == [ds[0]] + ds[1..];
      var own := match ds[0]
        case Enum => 0
        case Alias(_, target) => Height(target)
        case Interface(_, members, _, _) => Height(Literal(members));
      Max(own, Tallest(ds[1..]))
  }

  /** The walk from a declaration ends at every path, given budgets: some stack depth suffices. */
  lemma LookupEnds(w: World, budget: seq<nat>, id: DeclId, steps: seq<Step>) returns (enough: nat)
    requires Bounded(w, budget) && id < |w.decls|
    ensures forall depth: nat :: depth >= enough ==> Look(w, AtDecl(id, steps), {}, depth, true).0 != Overflow
  {
    var bound, tall := |steps| + budget[id], Tallest(w.decls);
    enough := Room(Unseen(w, bound, {}), tall, 0);
    forall depth: nat | depth >= enough ensures Look(w, AtDecl(id, steps), {}, depth, true).0 != Overflow {
      LookEnds(w, budget, bound, tall, AtDecl(id, steps), {}, depth);
    }
  }

  // ----- cycles of aliases -----

  /** Where a type passes a path on without looking at it: a declaration, the steps put in front, and the calls made. */
  datatype Pull = Pull(id: DeclId, added: seq<Step>, calls: nat)

  ghost function PullOf(w: World, scope: Scope, t: Type): (pull: Option<Pull>)
    ensures pull.Some? ==> pull.value.calls > 0
  {
    match t
    case Parenthesized(inner) => Further(PullOf(w, scope, inner), [])
    case Modified(inner) => Further(PullOf(w, scope, inner), [])
    case Keyof(inner) => Further(PullOf(w, scope, inner), [])
    case Indexed(owner, Some(index)) => Further(PullOf(w, scope, owner), [Member(index)])
    case Reference(name, arguments) =>
      if IsPassthrough(name) && arguments != [] then Further(PullOf(w, scope, arguments[0]), [])
      else if IsArrayName(name) && arguments != [] then None
      else if w.Resolve(scope, name).Some? then Some(Pull(w.Resolve(scope, name).value, [], 1))
      else None
    case Qualified(head, arguments) =>
      if IsPassthrough(head) && arguments != [] then Further(PullOf(w, scope, arguments[0]), []) else None
    case _ => None
  }

  ghost function Further(pull: Option<Pull>, added: seq<Step>): (r: Option<Pull>)
    ensures r.Some? <==> pull.Some?
    ensures r.Some? ==> r.value.calls > 0
  {
    match pull
    case None => None
    case Some(p) => Some(Pull(p.id, p.added + added, p.calls + 1))
  }

  /** A node that asks one question is answered like it, one call further down. */
  lemma AskLooks(w: World, q: Query, seen: set<Key>, depth: nat)
    requires q.AtType? && q.steps != [] && Next(w, q).Ask?
    ensures Look(w, q, seen, depth, true).0 ==
      if depth == 0 then Overflow else Look(w, Next(w, q).query, seen, depth - 1, true).0
  {
  }

  lemma NoCalls(w: World, q: Query, seen: set<Key>)
    ensures Look(w, q, seen, 0, true).0 == Overflow
  {
  }

  lemma {:induction false} PullLooks(w: World, scope: Scope, t: Type, steps: seq<Step>, seen: set<Key>, depth: nat)
    requires PullOf(w, scope, t).Some? && steps != []
    ensures var p := PullOf(w, scope, t).value;
            Look(w, AtType(scope, t, steps), seen, depth, true).0 ==
              if depth <= p.calls then Overflow
              else Look(w, AtDecl(p.id, p.added + steps), seen, depth - p.calls, true).0
    decreases t
  {
    hide Look;
    assert forall added: seq<Step> :: added + [] == added;
    AskLooks(w, AtType(scope, t, steps), seen, depth);
    if depth > 0 {
      match t
      case Parenthesized(inner) =>
        PullLooks(w, scope, inner, steps, seen, depth - 1);
      case Modified(inner) =>
        PullLooks(w, scope, inner, steps, seen, depth - 1);
      case Keyof(inner) =>
        PullLooks(w, scope, inner, steps, seen, depth - 1);
      case Qualified(_, arguments) =>
        PullLooks(w, scope, arguments[0], steps, seen, depth - 1);
      case Indexed(owner, Some(index)) =>
        PullLooks(w, scope, owner, [Member(index)] + steps, seen, depth - 1);
        var p := PullOf(w, scope, owner).value;
        assert p.added + ([Member(index)] + steps) == (p.added + [Member(index)]) + steps;
      case Reference(name, arguments) =>
        if IsPassthrough(name) && arguments != [] {
          PullLooks(w, scope, arguments[0], steps, seen, depth - 1);
        } else {
          NoCalls(w, AtDecl(w.Resolve(scope, name).value, steps), seen);
        }
        assert [] + steps == steps;
    }
  }

  /** The alias passes every path on to another declaration. */
  ghost predicate Passes(w: World, id: DeclId) {
    id < |w.decls| && w.decls[id].Alias? && PullOf(w, w.decls[id].scope, w.decls[id].target).Some?
  }

  ghost function PullAt(w: World, id: DeclId): Pull
    requires Passes(w, id)
  {
    PullOf(w, w.decls[id].scope, w.decls[id].target).value
  }

  /** One alias: the guard answers, or the path goes on, perhaps longer. */
  lemma AliasLooks(w: World, id: DeclId, steps: seq<Step>, seen: set<Key>, depth: nat)
    requires Passes(w, id) && steps != []
    ensures var p := PullAt(w, id);
            Look(w, AtDecl(id, steps), seen, depth, true).0 ==
              if depth == 0 then Overflow
              else if (id, |steps|) in seen then Unknown
              else if depth <= p.calls + 1 then Overflow
              else Look(w, AtDecl(p.id, p.added + steps), seen + {(id, |steps|)}, depth - p.calls - 1, true).0
  {
    if depth > 0 && (id, |steps|) !in seen {
      PullLooks(w, w.decls[id].scope, w.decls[id].target, steps, seen + {(id, |steps|)}, depth - 1);
    }
  }

  /** Aliases that pass paths round: each to the next, and the last to the first. */
  ghost predicate IsAliasCycle(w: World, ids: seq<DeclId>) {
    && ids != [] && (forall i, j :: 0 <= i < j < |ids| ==> ids[i] != ids[j])
    && (forall i :: 0 <= i < |ids| ==> PassesNext(w, ids, i))
  }

  ghost predicate PassesNext(w: World, ids: seq<DeclId>, i: int)
    requires 0 <= i < |ids|
  {
    Passes(w, ids[i]) && PullAt(w, ids[i]).id == (if i + 1 == |ids| then ids[0] else ids[i + 1])
  }

  ghost predicate Grows(w: World, id: DeclId) {
    Passes(w, id) && PullAt(w, id).added != []
  }

  /** From position `j` of a lap: nothing at hand answers, and the lap's end makes the path longer. */
  lemma {:induction false} GrowingCycleNeverEnds(
    w: World, ids: seq<DeclId>, j: nat, steps: seq<Step>, seen: set<Key>, depth: nat)
    requires IsAliasCycle(w, ids) && Grows(w, ids[|ids| - 1]) && j < |ids| && steps != []
    requires forall k: Key :: k in seen ==> k.1 <= |steps| && (k.1 == |steps| ==> k.0 in ids[..j])
    ensures Look(w, AtDecl(ids[j], steps), seen, depth, true).0 == Overflow
    decreases depth
  {
    assert PassesNext(w, ids, j);
    AliasLooks(w, ids[j], steps, seen, depth);
    var p := PullAt(w, ids[j]);
    if depth > p.calls + 1 {
      var longer, seen' := p.added + steps, seen + {(ids[j], |steps|)};
      if j + 1 < |ids| {
        assert ids[..j + 1] == ids[..j] + [ids[j]];
        GrowingCycleNeverEnds(w, ids, j + 1, longer, seen', depth - p.calls - 1);
      } else {
        assert Grows(w, ids[j]) && |longer| > |steps|;
        assert p.id == ids[0];
        GrowingCycleNeverEnds(w, ids, 0, longer, seen', depth - p.calls - 1);
      }
    }
  }

  /** The calls from position `j` back to the first alias. */
  ghost function LapCalls(w: World, ids: seq<DeclId>, j: nat): nat
    requires IsAliasCycle(w, ids) && j <= |ids|
    decreases |ids| - j
  {
    if j == |ids| then 1 else assert PassesNext(w, ids, j); PullAt(w, ids[j]).calls + 1 + LapCalls(w, ids, j + 1)
  }

  /** Without growth the lap comes back to a key that has been seen. */
  lemma {:induction false} StandingCycleEnds(
    w: World, ids: seq<DeclId>, j: nat, steps: seq<Step>, seen: set<Key>, depth: nat)
    requires IsAliasCycle(w, ids) && (forall i :: 0 <= i < |ids| ==> !Grows(w, ids[i])) && j < |ids| && steps != []
    requires (ids[0], |steps|) in seen || j == 0
    requires depth >= LapCalls(w, ids, j)
    ensures Look(w, AtDecl(ids[j], steps), seen, depth, true).0 == Unknown
    decreases |ids| - j
  {
    assert PassesNext(w, ids, j);
    AliasLooks(w, ids[j], steps, seen, depth);
    var p, seen' := PullAt(w, ids[j]), seen + {(ids[j], |steps|)};
    if (ids[j], |steps|) !in seen {
      assert p.added + steps == steps && !Grows(w, ids[j]);
      if j + 1 < |ids| {
        StandingCycleEnds(w, ids, j + 1, steps, seen', depth - p.calls - 1);
      } else {
        assert PassesNext(w, ids, 0);
        AliasLooks(w, ids[0], steps, seen', depth - p.calls - 1);
      }
    }
  }

  ghost function Turned(ids: seq<DeclId>, k: nat, i: nat): (at: nat)
    requires k < |ids| && i < |ids|
    ensures at < |ids|
  {
    if i < |ids| - k then k + i else i - (|ids| - k)
  }

  /** The same cycle, starting at position `k`. */
  lemma CycleTurns(w: World, ids: seq<DeclId>, k: nat)
    requires IsAliasCycle(w, ids) && k < |ids|
    ensures IsAliasCycle(w, ids[k..] + ids[..k])
    ensures forall i :: 0 <= i < |ids| ==> (ids[k..] + ids[..k])[i] in ids
  {
    hide Passes;
    var turned := ids[k..] + ids[..k];
    forall i | 0 <= i < |ids| ensures turned[i] == ids[Turned(ids, k, i)] && PassesNext(w, turned, i) {
      assert PassesNext(w, ids, Turned(ids, k, i));
    }
    forall i, j | 0 <= i < j < |ids| ensures turned[i] != turned[j] {
      assert turned[i] == ids[Turned(ids, k, i)] && turned[j] == ids[Turned(ids, k, j)];
    }
  }

  ghost predicate EndsAt(w: World, id: DeclId, steps: seq<Step>) {
    exists depth: nat :: Look(w, AtDecl(id, steps), {}, depth, true).0 != Overflow
  }

  /** On a cycle of aliases every walk ends exactly when no alias of the cycle makes the path longer. */
  lemma CycleEndsIff(w: World, ids: seq<DeclId>, steps: seq<Step>)
    requires IsAliasCycle(w, ids) && steps != []
    ensures (forall k :: 0 <= k < |ids| ==> EndsAt(w, ids[k], steps))
        <==> (forall k :: 0 <= k < |ids| ==> !Grows(w, ids[k]))
  {
    hide IsAliasCycle, Grows, Look;
    if forall k :: 0 <= k < |ids| ==> !Grows(w, ids[k]) {
      forall k | 0 <= k < |ids| ensures EndsAt(w, ids[k], steps) {
        CycleTurns(w, ids, k);
        var turned := ids[k..] + ids[..k];
        assert turned[0] == ids[k];
        StandingCycleEnds(w, turned, 0, steps, {}, LapCalls(w, turned, 0));
      }
    } else {
      var k :| 0 <= k < |ids| && Grows(w, ids[k]);
      var start := if k + 1 == |ids| then 0 else k + 1;
      CycleTurns(w, ids, start);
      var turned := ids[start..] + ids[..start];
      assert turned[0] == ids[start] && turned[|ids| - 1] == ids[k];
      forall depth: nat ensures Look(w, AtDecl(ids[start], steps), {}, depth, true).0 == Overflow {
        GrowingCycleNeverEnds(w, turned, 0, steps, {}, depth);
      }
    }
  }

  /** `type A = A['x']`. */
  const SELF_INDEXED := World(
    [Alias(Scope("f", {}), Indexed(Reference("A", []), Some("x")))], map[("f", "A") := 0], map[("f", "A") := Some(0)])

  lemma SelfIndexedNeverEnds(steps: seq<Step>, depth: nat)
    requires steps != []
    ensures Look(SELF_INDEXED, AtDecl(0, steps), {}, depth, true).0 == Overflow
  {
    var w, ids: seq<DeclId> := SELF_INDEXED, [0];
    assert w.Resolve(Scope("f", {}), "A") == Some(0);
    assert PullOf(w, Scope("f", {}), Reference("A", [])) == Some(Pull(0, [], 1));
    assert PassesNext(w, ids, 0);
    GrowingCycleNeverEnds(w, ids, 0, steps, {}, depth);
  }

  // ----- budgets are not needed -----

  /** `type A = B['w']['z']` and `interface B { x: A }`: the path would grow by a step each time round. */
  const NEVER_ROUND := World(
    [Alias(Scope("f", {}), Indexed(Indexed(Reference("B", []), Some("w")), Some("z"))),
     Interface(Scope("f", {}), [Property(Bare("x"), Some(Reference("A", [])))], [], Later([], []))],
    map[("f", "A") := 0, ("f", "B") := 1], map[("f", "A") := Some(0), ("f", "B") := Some(1)])

  lemma NeverRoundUnbounded(budget: seq<nat>)
    ensures !Bounded(NEVER_ROUND, budget)
  {
    var w, scope := NEVER_ROUND, Scope("f", {});
    if Bounded(w, budget) {
      var a: int := budget[0];
      assert w.Resolve(scope, "A") == Some(0) && w.Resolve(scope, "B") == Some(1);
      assert DeclarationFits(w, budget, w.decls[0], budget[0]) && DeclarationFits(w, budget, w.decls[1], budget[1]);
      assert Fits(w, budget, scope, Indexed(Reference("B", []), Some("w")), a - 1);
      assert Fits(w, budget, scope, Reference("B", []), a - 2);
      var x := Property(Bare("x"), Some(Reference("A", [])));
      assert x in w.decls[1].members;
      assert Fits(w, budget, scope, x.declared.value, budget[1] + 1);
    }
  }

  lemma NoSuchMember(steps: seq<Step>, seen: set<Key>, depth: nat)
    requires depth > 1 && |steps| > 1 && steps[0] == Member("w")
    ensures Look(NEVER_ROUND, AtDecl(1, steps), seen, depth, true).0 != Overflow
  {
    var w := NEVER_ROUND;
    assert BaseQueries(w, Scope("f", {}), [], steps) == [];
    assert Next(w, AtDecl(1, steps)) == AskAll([]);
  }

  lemma AliasPulls()
    ensures Passes(NEVER_ROUND, 0) && PullAt(NEVER_ROUND, 0) == Pull(1, [Member("w"), Member("z")], 3)
  {
    var w, scope := NEVER_ROUND, Scope("f", {});
    assert w.Resolve(scope, "B") == Some(1);
    assert PullOf(w, scope, Reference("B", [])) == Some(Pull(1, [], 1));
    assert [] + [Member("w")] == [Member("w")] && [Member("w")] + [Member("z")] == [Member("w"), Member("z")];
    assert PullOf(w, scope, Indexed(Reference("B", []), Some("w"))) == Some(Pull(1, [Member("w")], 2));
  }

  lemma AliasEnds(steps: seq<Step>, seen: set<Key>, depth: nat)
    requires depth > 5 && steps != []
    ensures Look(NEVER_ROUND, AtDecl(0, steps), seen, depth, true).0 != Overflow
  {
    AliasPulls();
    hide Look, Passes, PullAt;
    AliasLooks(NEVER_ROUND, 0, steps, seen, depth);
    NoSuchMember([Member("w"), Member("z")] + steps, seen + {(0, |steps|)}, depth - 4);
  }

  /** No budgets exist here, and yet every walk from a declaration ends: `B` has no member `w` to go round by. */
  lemma BudgetsNotNeeded(id: DeclId, steps: seq<Step>, depth: nat)
    requires id < 2 && depth > 7
    ensures forall budget :: !Bounded(NEVER_ROUND, budget)
    ensures Look(NEVER_ROUND, AtDecl(id, steps), {}, depth, true).0 != Overflow
  {
    var w, scope := NEVER_ROUND, Scope("f", {});
    forall budget ensures !Bounded(w, budget) {
      NeverRoundUnbounded(budget);
    }
    if steps != [] {
      if id == 0 {
        AliasEnds(steps, {}, depth);
      } else {
        var q := AtDecl(1, steps);
        assert BaseQueries(w, scope, [], steps) == [];
        if |steps| > 1 && steps[0] == Member("x") {
          var rest := steps[1..];
          assert Next(w, q) == Ask(AtType(scope, Reference("A", []), rest));
          assert w.Resolve(scope, "A") == Some(0);
          AskLooks(w, AtType(scope, Reference("A", []), rest), {(1, |steps|)}, depth - 1);
          AliasEnds(rest, {(1, |steps|)}, depth - 2);
          assert Mark(w, q, {}) == {(1, |steps|)};
        }
      }
    }
  }
}
