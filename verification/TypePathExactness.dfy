/**
 How definite `lookupPath` is. Between presence with nothing granted to what the types leave open and presence with
 everything granted there is no room: the walk says "found", "missing" or "unknown" exactly as these two say.
 */
module TypePathExactness {
  import opened Options
  import opened TypePaths
  import opened TypePathSoundness

  /** Present whatever the types leave open; present for some of it. */
  ghost predicate Surely(w: World, q: Query) {
    Present(w, false, q)
  }

  ghost predicate Possibly(w: World, q: Query) {
    Present(w, true, q)
  }

  least lemma SurelyIsPossibly(w: World, q: Query)
    requires Present(w, false, q)
    ensures Present(w, true, q)
  {
  }

  // ----- names that are found whenever they can be -----

  /** The names looked up at the question are found to stand for what they mean, if that is in reach. */
  ghost predicate NamesFound(w: World, q: Query) {
    match q
    case OutOfReach(_, _, _) => true
    case AtDecl(id, _) =>
      id < |w.decls| && w.decls[id].Interface? ==>
        var d := w.decls[id];
        forall i :: 0 <= i < |d.bases| && d.bases[i].Named? ==>
                      w.Resolve(d.scope, d.bases[i].name) == w.Meaning(d.scope, d.bases[i].name)
    case AtType(scope, node, _) =>
      node.Reference? && !IsBuiltIn(node.name, node.arguments) ==>
        w.Resolve(scope, node.name) == w.Meaning(scope, node.name)
  }

  /** Everything the walk can come to within `depth` calls is read right, and names are found. */
  ghost predicate Exposed(w: World, q: Query, depth: nat)
    decreases depth, 0
  {
    depth > 0 && q.steps != [] ==>
      && ReadsAt(w, q) && NamesFound(w, q)
      && match Next(w, q)
         case Answered(_) => true
         case Ask(r) => Exposed(w, r, depth - 1)
         case AskAll(rs) => AllExposed(w, rs, depth - 1)
         case AskEvery(rs) => AllExposed(w, rs, depth - 1)
  }

  ghost predicate AllExposed(w: World, qs: seq<Query>, depth: nat)
    decreases depth, 1
  {
    forall i :: 0 <= i < |qs| ==> Exposed(w, qs[i], depth)
  }

  // ----- what an answer says exactly -----

  /** The only right answer to a question. */
  ghost function Exact(w: World, q: Query): Answer {
    if Surely(w, q) then Found else if Possibly(w, q) then Unknown else Missing
  }

  ghost predicate SomeSurely(w: World, qs: seq<Query>) {
    exists i :: 0 <= i < |qs| && Surely(w, qs[i])
  }

  ghost predicate SomePossibly(w: World, qs: seq<Query>) {
    exists i :: 0 <= i < |qs| && Possibly(w, qs[i])
  }

  ghost predicate AllSurely(w: World, qs: seq<Query>) {
    forall i :: 0 <= i < |qs| ==> Surely(w, qs[i])
  }

  ghost predicate MoveExact(w: World, q: Query, move: Move) {
    match move
    case Answered(answer) => answer == Exact(w, q)
    case Ask(r) => (Surely(w, q) <==> Surely(w, r)) && (Possibly(w, q) <==> Possibly(w, r))
    case AskAll(rs) =>
      (Surely(w, q) <==> SomeSurely(w, rs)) && (Possibly(w, q) <==> SomePossibly(w, rs)) && NoneEmpty(rs)
    case AskEvery(rs) =>
      (Surely(w, q) <==> AllSurely(w, rs)) && (Possibly(w, q) <==> SomePossibly(w, rs) || rs == []) && NoneEmpty(rs)
  }

  ghost predicate NoneEmpty(qs: seq<Query>) {
    forall i :: 0 <= i < |qs| ==> qs[i].steps != []
  }

  /** What one branch of the walk asks for settles the exact answer. */
  lemma MoveIsExact(w: World, q: Query)
    requires ReadsAt(w, q) && NamesFound(w, q) && q.steps != []
    ensures MoveExact(w, q, Next(w, q))
  {
    match q
    case OutOfReach(_, _, _) =>
    case AtDecl(_, _) => DeclarationIsExact(w, q);
    case AtType(_, _, _) => TypeIsExact(w, q);
  }

  lemma DeclarationIsExact(w: World, q: Query)
    requires q.AtDecl? && ReadsAt(w, q) && NamesFound(w, q) && q.steps != []
    ensures MoveExact(w, q, Next(w, q))
  {
    if q.id < |w.decls| && w.decls[q.id].Interface? && q.steps[0].Member? {
      var d := w.decls[q.id];
      var rs := BaseQueries(w, d.scope, d.bases, q.steps);
      assert d.later.bases == [] ==> d.bases + d.later.bases == d.bases;
      assert forall i :: 0 <= i < |d.bases| ==> rs[i] == MeantQuery(w, d.scope, d.bases[i], q.steps);
    }
  }

  lemma TypeIsExact(w: World, q: Query)
    requires q.AtType? && ReadsAt(w, q) && NamesFound(w, q) && q.steps != []
    ensures MoveExact(w, q, Next(w, q))
  {
    if q.node.Union? {
      UnionIsExact(w, q);
    }
  }

  lemma UnionIsExact(w: World, q: Query)
    requires q.AtType? && q.node.Union? && q.steps != []
    ensures MoveExact(w, q, AskEvery(PartQueries(q.scope, q.node.parts, q.steps)))
  {
    var rs := PartQueries(q.scope, q.node.parts, q.steps);
    assert forall i :: 0 <= i < |rs| ==> rs[i] == AtType(q.scope, q.node.parts[i], q.steps);
    if rs != [] && AllPossibly(w, rs) {
      assert Possibly(w, rs[0]);
    }
  }

  ghost predicate AllPossibly(w: World, qs: seq<Query>) {
    forall i :: 0 <= i < |qs| ==> Possibly(w, qs[i])
  }

  /** The exact answers, unless the walk overflowed. */
  ghost predicate AreExact(w: World, qs: seq<Query>, answers: seq<Answer>) {
    Overflow in answers || (|answers| == |qs| && forall i :: 0 <= i < |qs| ==> answers[i] == Exact(w, qs[i]))
  }

  lemma CombineIsExact(w: World, q: Query, qs: seq<Query>, answers: seq<Answer>)
    requires AreExact(w, qs, answers) && Overflow !in answers && MoveExact(w, q, AskAll(qs))
    ensures Combine(answers) == Exact(w, q)
  {
    hide Surely, Possibly;
    assert forall i :: 0 <= i < |answers| ==> answers[i] in answers;
    AllSurelyIsPossibly(w, qs);
  }

  lemma AgreeIsExact(w: World, q: Query, qs: seq<Query>, answers: seq<Answer>)
    requires AreExact(w, qs, answers) && Overflow !in answers && MoveExact(w, q, AskEvery(qs))
    ensures Agree(answers) == Exact(w, q)
  {
    hide Surely, Possibly;
    assert forall i :: 0 <= i < |answers| ==> answers[i] in answers;
    AllSurelyIsPossibly(w, qs);
  }

  lemma AllSurelyIsPossibly(w: World, qs: seq<Query>)
    ensures forall i :: 0 <= i < |qs| && Surely(w, qs[i]) ==> Possibly(w, qs[i])
  {
    forall i | 0 <= i < |qs| && Surely(w, qs[i]) ensures Possibly(w, qs[i]) {
      SurelyIsPossibly(w, qs[i]);
    }
  }

  /** Where everything is read right and names are found, the walk without the guard answers exactly, where it ends. */
  lemma {:induction false} LookIsExact(w: World, q: Query, seen: set<Key>, depth: nat)
    requires Exposed(w, q, depth)
    ensures Look(w, q, seen, depth, false).0 in {Overflow, Exact(w, q)}
    decreases depth, 1, 0
  {
    hide ReadsAt, NamesFound, Next, Exact, MoveExact;
    if depth > 0 {
      if q.steps == [] {
        NoSteps(w, q);
      } else {
        MoveIsExact(w, q);
        MoveSettles(w, q);
        var seen' := Mark(w, q, seen);
        match Next(w, q)
        case Answered(_) =>
        case Ask(r) => LookIsExact(w, r, seen', depth - 1);
        case AskAll(rs) =>
          LookEachIsExact(w, rs, seen', depth - 1);
          var answers := LookEach(w, rs, seen', depth - 1, false).0;
          if Overflow !in answers {
            CombineIsExact(w, q, rs, answers);
          }
        case AskEvery(rs) =>
          LookEachIsExact(w, rs, seen', depth - 1);
          var answers := LookEach(w, rs, seen', depth - 1, false).0;
          if Overflow !in answers {
            AgreeIsExact(w, q, rs, answers);
          }
      }
    }
  }

  lemma NoSteps(w: World, q: Query)
    requires q.steps == []
    ensures Exact(w, q) == Found
  {
  }

  lemma MoveSettles(w: World, q: Query)
    requires q.steps != [] && MoveExact(w, q, Next(w, q))
    ensures match Next(w, q)
            case Answered(answer) => answer == Exact(w, q)
            case Ask(r) => Exact(w, q) == Exact(w, r)
            case AskAll(rs) => NoneEmpty(rs)
            case AskEvery(rs) => NoneEmpty(rs)
  {
  }

  lemma OutOfReachIsOpen(w: World, q: Query)
    requires q.OutOfReach? && q.steps != []
    ensures Exact(w, q) == Unknown
  {
  }

  lemma {:induction false} LookEachIsExact(w: World, qs: seq<Query>, seen: set<Key>, depth: nat)
    requires AllExposed(w, qs, depth) && NoneEmpty(qs)
    ensures AreExact(w, qs, LookEach(w, qs, seen, depth, false).0)
    decreases depth, 2, |qs|
  {
    hide Exposed, Exact, Look;
    if qs != [] {
      var first := if qs[0].OutOfReach? then (Unknown, seen) else Look(w, qs[0], seen, depth, false);
      if qs[0].OutOfReach? {
        OutOfReachIsOpen(w, qs[0]);
      } else {
        LookIsExact(w, qs[0], seen, depth);
      }
      if first.0 != Overflow {
        LookEachIsExact(w, qs[1..], first.1, depth);
        var rest := LookEach(w, qs[1..], first.1, depth, false);
        assert Overflow in rest.0 ==> Overflow in [first.0] + rest.0;
      }
    }
  }

  // ----- every right answer is given -----

  lemma {:induction false} ExposedIsLegible(w: World, q: Query, depth: nat)
    requires Exposed(w, q, depth)
    ensures Legible(w, q, depth)
    decreases depth, 0
  {
    hide ReadsAt, NamesFound, Next;
    if depth > 0 && q.steps != [] {
      match Next(w, q)
      case Answered(_) =>
      case Ask(r) => ExposedIsLegible(w, r, depth - 1);
      case AskAll(rs) => AllExposedAreLegible(w, rs, depth - 1);
      case AskEvery(rs) => AllExposedAreLegible(w, rs, depth - 1);
    }
  }

  lemma {:induction false} AllExposedAreLegible(w: World, qs: seq<Query>, depth: nat)
    requires AllExposed(w, qs, depth)
    ensures forall i :: 0 <= i < |qs| ==> Legible(w, qs[i], depth)
    decreases depth, 1
  {
    forall i | 0 <= i < |qs| ensures Legible(w, qs[i], depth) {
      ExposedIsLegible(w, qs[i], depth);
    }
  }

  /**
   Where everything is read right and names are found, the walk without the guard, where it ends, says "found" exactly
   of what is present under every valuation and "missing" exactly of what is present under none.
   */
  lemma LookIsComplete(w: World, q: Query, seen: set<Key>, depth: nat)
    requires Exposed(w, q, depth) && Look(w, q, seen, depth, false).0 != Overflow
    ensures var answer := Look(w, q, seen, depth, false).0;
            && (answer == Found <==> forall v :: Respects(w, v) ==> v(q))
            && (answer == Missing <==> forall v :: Respects(w, v) ==> !v(q))
  {
    hide Exposed, Look, Respects;
    LookIsExact(w, q, seen, depth);
    ExposedIsLegible(w, q, depth);
    forall v | Respects(w, v) ensures IsTrueOf(Look(w, q, seen, depth, false).0, v(q)) {
      LookIsSound(w, v, q, seen, depth, false);
    }
    PresentRespects(w, false);
    PresentRespects(w, true);
    var least: Valuation := r => Present(w, false, r);
    var most: Valuation := r => Present(w, true, r);
    assert least(q) == Surely(w, q) && most(q) == Possibly(w, q);
    if Surely(w, q) {
      SurelyIsPossibly(w, q);
    }
  }

  // ----- the recursion guard -----

  /** The walk without the guard never comes to a declaration with as many steps left as when it was there before. */
  ghost predicate NoReturn(w: World, q: Query, seen: set<Key>, depth: nat)
    decreases depth, 1, 0
  {
    depth > 0 && q.steps != [] ==>
      && !(IsGuarded(w, q) && (q.id, |q.steps|) in seen)
      && match Next(w, q)
         case Answered(_) => true
         case Ask(r) => NoReturn(w, r, Mark(w, q, seen), depth - 1)
         case AskAll(rs) => NoReturnEach(w, rs, Mark(w, q, seen), depth - 1)
         case AskEvery(rs) => NoReturnEach(w, rs, Mark(w, q, seen), depth - 1)
  }

  ghost predicate NoReturnEach(w: World, qs: seq<Query>, seen: set<Key>, depth: nat)
    decreases depth, 2, |qs|
  {
    qs != [] ==>
      if qs[0].OutOfReach? then NoReturnEach(w, qs[1..], seen, depth)
      else NoReturn(w, qs[0], seen, depth) && NoReturnEach(w, qs[1..], Look(w, qs[0], seen, depth, false).1, depth)
  }

  /** There the guard never answers. */
  lemma {:induction false} GuardIsIdle(w: World, q: Query, seen: set<Key>, depth: nat)
    requires NoReturn(w, q, seen, depth)
    ensures Look(w, q, seen, depth, true) == Look(w, q, seen, depth, false)
    decreases depth, 1, 0
  {
    hide Next;
    if depth > 0 && q.steps != [] {
      match Next(w, q)
      case Answered(_) =>
      case Ask(r) => GuardIsIdle(w, r, Mark(w, q, seen), depth - 1);
      case AskAll(rs) => GuardIsIdleEach(w, rs, Mark(w, q, seen), depth - 1);
      case AskEvery(rs) => GuardIsIdleEach(w, rs, Mark(w, q, seen), depth - 1);
    }
  }

  lemma {:induction false} GuardIsIdleEach(w: World, qs: seq<Query>, seen: set<Key>, depth: nat)
    requires NoReturnEach(w, qs, seen, depth)
    ensures LookEach(w, qs, seen, depth, true) == LookEach(w, qs, seen, depth, false)
    decreases depth, 2, |qs|
  {
    hide Look, NoReturn;
    if qs != [] {
      if qs[0].OutOfReach? {
        GuardIsIdleEach(w, qs[1..], seen, depth);
      } else {
        GuardIsIdle(w, qs[0], seen, depth);
        GuardIsIdleEach(w, qs[1..], Look(w, qs[0], seen, depth, false).1, depth);
      }
    }
  }

  /** So `lookupPath` itself is complete wherever it comes back to no declaration. */
  lemma LookupIsComplete(w: World, q: Query, depth: nat)
    requires Exposed(w, q, depth) && NoReturn(w, q, {}, depth) && Look(w, q, {}, depth, true).0 != Overflow
    ensures var answer := Look(w, q, {}, depth, true).0;
            && (answer == Found <==> forall v :: Respects(w, v) ==> v(q))
            && (answer == Missing <==> forall v :: Respects(w, v) ==> !v(q))
  {
    hide Exposed, Look, Respects, NoReturn;
    GuardIsIdle(w, q, {}, depth);
    LookIsComplete(w, q, {}, depth);
  }

  // ----- declarations on which everything is exposed -----

  /** Every name bound to a declaration in reach is found to stand for it. */
  ghost predicate AllNamesFound(w: World) {
    forall key :: key in w.bound && w.bound[key].Some? && w.bound[key].value < |w.decls| ==>
      key in w.names && w.names[key] == w.bound[key].value
  }

  lemma PlainNamesFound(w: World, q: Query)
    requires PlainWorld(w) && PlainQuery(w, q) && AllNamesFound(w) && q.steps != []
    ensures NamesFound(w, q)
  {
    if q.AtDecl? && q.id < |w.decls| {
      var d := w.decls[q.id];
      assert d in w.decls;
      if d.Interface? {
        forall i | 0 <= i < |d.bases| && d.bases[i].Named?
          ensures w.Resolve(d.scope, d.bases[i].name) == w.Meaning(d.scope, d.bases[i].name)
        {
          assert BaseReads(w, d.scope, d.bases[i]);
        }
      }
    }
  }

  lemma {:induction false} PlainIsExposed(w: World, q: Query, depth: nat)
    requires PlainWorld(w) && PlainQuery(w, q) && AllNamesFound(w)
    ensures Exposed(w, q, depth)
    decreases depth, 0
  {
    hide PlainWorld, PlainQuery, AllNamesFound, ReadsAt, NamesFound, Next;
    if depth > 0 && q.steps != [] {
      PlainReads(w, q);
      PlainNamesFound(w, q);
      PlainMove(w, q);
      match Next(w, q)
      case Answered(_) =>
      case Ask(r) => PlainIsExposed(w, r, depth - 1);
      case AskAll(rs) => PlainAreExposed(w, rs, depth - 1);
      case AskEvery(rs) => PlainAreExposed(w, rs, depth - 1);
    }
  }

  lemma {:induction false} PlainAreExposed(w: World, qs: seq<Query>, depth: nat)
    requires PlainWorld(w) && AllNamesFound(w) && forall i :: 0 <= i < |qs| ==> PlainQuery(w, qs[i])
    ensures AllExposed(w, qs, depth)
    decreases depth, 1
  {
    hide PlainWorld, PlainQuery, AllNamesFound;
    forall i | 0 <= i < |qs| ensures Exposed(w, qs[i], depth) {
      PlainIsExposed(w, qs[i], depth);
    }
  }

  // ----- declarations on which no answer is open -----

  /** A type that resolves throughout, with no union, no array and no untyped property. */
  ghost predicate ClearType(w: World, scope: Scope, t: Type) {
    match t
    case Literal(members) =>
      forall m :: m in members && m.Property? ==> m.declared.Some? && ClearType(w, scope, m.declared.value)
    case Parenthesized(inner) => ClearType(w, scope, inner)
    case Modified(inner) => ClearType(w, scope, inner)
    case Intersection(parts) => forall p :: p in parts ==> ClearType(w, scope, p)
    case Indexed(owner, index) => index.Some? && ClearType(w, scope, owner)
    case Reference(name, arguments) =>
      if IsPassthrough(name) && arguments != [] then ClearType(w, scope, arguments[0])
      else !(IsArrayName(name) && arguments != []) && w.Resolve(scope, name).Some?
    case _ => false
  }

  ghost predicate ClearDeclaration(w: World, d: Declaration) {
    match d
    case Enum => false
    case Alias(scope, target) => ClearType(w, scope, target)
    case Interface(scope, members, bases, _) =>
      && ClearType(w, scope, Literal(members))
      && forall b :: b in bases ==> b.Named? && w.Resolve(scope, b.name).Some?
  }

  ghost predicate ClearWorld(w: World) {
    forall d :: d in w.decls ==> ClearDeclaration(w, d)
  }

  /** A question about a declaration or a clear type, at members only. */
  ghost predicate ClearQuery(w: World, q: Query) {
    && (forall s :: s in q.steps ==> s.Member?)
    && match q
       case AtDecl(id, _) => id < |w.decls|
       case AtType(scope, node, _) => ClearType(w, scope, node)
       case OutOfReach(_, _, _) => false
  }

  ghost predicate AllClear(w: World, qs: seq<Query>) {
    forall q :: q in qs ==> ClearQuery(w, q)
  }

  ghost predicate IsDefinite(answer: Answer) {
    answer != Unknown
  }

  lemma ClearInto(w: World, scope: Scope, members: seq<Signature>, steps: seq<Step>, otherwise: Move)
    requires ClearType(w, scope, Literal(members)) && steps != [] && forall s :: s in steps ==> s.Member?
    ensures steps[0].Member?
    ensures var move := IntoMembers(scope, members, steps, otherwise);
            move == otherwise || move == Answered(Found) || (move.Ask? && ClearQuery(w, move.query))
  {
    assert steps[0] in steps;
    var i := FirstByText(members, steps[0].name);
    assert i < |members| ==> members[i] in members;
    assert forall s :: s in steps[1..] ==> s in steps;
  }

  lemma ClearMove(w: World, q: Query)
    requires ClearWorld(w) && ClearQuery(w, q) && q.steps != []
    ensures match Next(w, q)
            case Answered(answer) => IsDefinite(answer)
            case Ask(r) => ClearQuery(w, r)
            case AskAll(rs) => AllClear(w, rs)
            case AskEvery(_) => false
  {
    assert q.steps[0] in q.steps;
    if q.AtDecl? {
      var d := w.decls[q.id];
      assert d in w.decls;
      if d.Interface? {
        ClearInto(w, d.scope, d.members, q.steps, AskAll(BaseQueries(w, d.scope, d.bases, q.steps)));
      }
    } else if q.node.Literal? {
      ClearInto(w, q.scope, q.node.members, q.steps, Answered(Missing));
    }
  }

  lemma {:induction false} ClearIsDefinite(w: World, q: Query, seen: set<Key>, depth: nat)
    requires ClearWorld(w) && ClearQuery(w, q)
    ensures IsDefinite(Look(w, q, seen, depth, false).0)
    decreases depth, 1, 0
  {
    hide ClearWorld, ClearQuery, Next;
    if depth > 0 && q.steps != [] {
      ClearMove(w, q);
      match Next(w, q)
      case Answered(_) =>
      case Ask(r) => ClearIsDefinite(w, r, Mark(w, q, seen), depth - 1);
      case AskAll(rs) => ClearEachIsDefinite(w, rs, Mark(w, q, seen), depth - 1);
    }
  }

  lemma {:induction false} ClearEachIsDefinite(w: World, qs: seq<Query>, seen: set<Key>, depth: nat)
    requires ClearWorld(w) && AllClear(w, qs)
    ensures forall a :: a in LookEach(w, qs, seen, depth, false).0 ==> IsDefinite(a)
    decreases depth, 2, |qs|
  {
    hide ClearWorld, Look;
    if qs != [] {
      assert qs[0] in qs;
      ClearIsDefinite(w, qs[0], seen, depth);
      ClearEachIsDefinite(w, qs[1..], Look(w, qs[0], seen, depth, false).1, depth);
    }
  }

  /**
   Where the walk without the guard ends, it says "found" for what is present and "missing" for what is not,
   under every valuation.
   */
  lemma ClearIsExact(w: World, v: Valuation, q: Query, seen: set<Key>, depth: nat)
    requires PlainWorld(w) && PlainQuery(w, q) && ClearWorld(w) && ClearQuery(w, q) && Respects(w, v)
    ensures var answer := Look(w, q, seen, depth, false).0;
            answer == Overflow || answer == (if v(q) then Found else Missing)
  {
    hide PlainWorld, PlainQuery, ClearWorld, ClearQuery, Look, Respects;
    PlainIsLegible(w, q, depth);
    LookIsSound(w, v, q, seen, depth, false);
    ClearIsDefinite(w, q, seen, depth);
  }
}
