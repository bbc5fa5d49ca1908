/**
 What `lookupPath` answers mean. A valuation says of every question whether the member is there; it respects
 the declarations when each type's presence follows from its parts. What cannot be resolved is left free, so
 the valuations range over every interpretation of the unresolvable names.
 */
module TypePathSoundness {
  import opened Options
  import opened TypePaths

  type Valuation = Query -> bool

  /** A type element that declares a member of its own name. */
  ghost predicate Declares(m: Signature) {
    m.Property? || m.Method?
  }

  /** The position of the first element that declares this member, however its name is written. */
  ghost function FirstByKey(members: seq<Signature>, key: string): (i: nat)
    ensures i <= |members|
    ensures i < |members| ==> Declares(members[i]) && members[i].name.key == key
    ensures forall j :: 0 <= j < i ==> !(Declares(members[j]) && members[j].name.key == key)
  {
    if members == [] then 0
    else if Declares(members[0]) && members[0].name.key == key then 0
    else 1 + FirstByKey(members[1..], key)
  }

  ghost predicate HasIndex(members: seq<Signature>) {
    exists m :: m in members && m.IndexSignature?
  }

  /**
   Presence at a member path of a member list. The element that declares the first step decides; nothing is said
   below a method or an untyped property. Without one `otherwise` decides, and an index signature may grant more.
   */
  ghost predicate MemberMeans(v: Valuation, scope: Scope, members: seq<Signature>, q: Query, otherwise: bool)
    requires q.steps != [] && q.steps[0].Member?
  {
    var i := FirstByKey(members, q.steps[0].name);
    if i == |members| then (otherwise ==> v(q)) && (v(q) ==> otherwise || HasIndex(members))
    else if |q.steps| == 1 then v(q)
    else members[i].Property? && members[i].declared.Some? ==>
           v(q) == v(AtType(scope, members[i].declared.value, q.steps[1..]))
  }

  ghost predicate Any(v: Valuation, qs: seq<Query>) {
    exists i :: 0 <= i < |qs| && v(qs[i])
  }

  ghost predicate Every(v: Valuation, qs: seq<Query>) {
    forall i :: 0 <= i < |qs| ==> v(qs[i])
  }

  /** What a base asks for: the declaration it stands for, or something out of reach. */
  ghost function MeantQuery(w: World, scope: Scope, base: Base, steps: seq<Step>): Query {
    if base.Named? && w.Meaning(scope, base.name).Some? then AtDecl(w.Meaning(scope, base.name).value, steps)
    else OutOfReach(scope, base, steps)
  }

  ghost predicate SomeBase(w: World, v: Valuation, scope: Scope, bases: seq<Base>, steps: seq<Step>) {
    exists i :: 0 <= i < |bases| && v(MeantQuery(w, scope, bases[i], steps))
  }

  /** Utility types whose members are those of their argument. */
  predicate IsUtility(name: string) {
    name == "Partial" || name == "Required" || name == "Readonly" || name == "NonNullable"
  }

  predicate IsArrayType(name: string) {
    name in {"Array", "ReadonlyArray"}
  }

  /** How the presence at `q` depends on the presence elsewhere; nothing is said where the types say nothing. */
  ghost predicate Means(w: World, v: Valuation, q: Query) {
    if q.steps == [] then v(q)
    else
      var steps := q.steps;
      match q
      case OutOfReach(_, _, _) => true
      case AtDecl(id, _) =>
        id < |w.decls| ==>
          (match w.decls[id]
           case Enum => true
           case Alias(scope, target) => v(q) == v(AtType(scope, target, steps))
           case Interface(scope, members, bases, later) =>
             steps[0].Member? ==>
               MemberMeans(v, scope, members + later.members, q, SomeBase(w, v, scope, bases + later.bases, steps)))
      case AtType(scope, node, _) =>
        match node
        case Literal(members) => steps[0].Member? ==> MemberMeans(v, scope, members, q, false)
        case Parenthesized(inner) => v(q) == v(AtType(scope, inner, steps))
        case Modified(inner) => v(q) == v(AtType(scope, inner, steps))
        case Keyof(_) => true
        case Intersection(parts) => v(q) == Any(v, PartQueries(scope, parts, steps))
        case Union(parts) =>
          if Every(v, PartQueries(scope, parts, steps)) then v(q)
          else !Any(v, PartQueries(scope, parts, steps)) ==> !v(q)
        case ArrayOf(element) => steps[0].Element? ==> v(q) == v(AtType(scope, element, steps[1..]))
        case Indexed(owner, index) =>
          index.Some? ==> v(q) == v(AtType(scope, owner, [Member(index.value)] + steps))
        case Reference(name, arguments) =>
          if w.Binds(scope, name) then
            w.Meaning(scope, name).Some? ==> v(q) == v(AtDecl(w.Meaning(scope, name).value, steps))
          else if IsUtility(name) && arguments != [] then v(q) == v(AtType(scope, arguments[0], steps))
          else if IsArrayType(name) && arguments != [] then
            steps[0].Element? ==> v(q) == v(AtType(scope, arguments[0], steps[1..]))
          else true
        case Qualified(_, _) => true
        case Opaque => true
  }

  ghost predicate Respects(w: World, v: Valuation) {
    forall q :: Means(w, v, q)
  }

  // ----- the condition under which members are read right -----

  /**
   Of the elements `all` that a type declares, reading the properties of `own` by their source text finds the one
   that declares the name; if none does, no index signature grants it.
   */
  ghost predicate Reads(own: seq<Signature>, all: seq<Signature>, name: string) {
    var i, j := FirstByText(own, name), FirstByKey(all, name);
    if i < |own| then i == j else j == |all| && !HasIndex(all)
  }

  /** What the name is found to stand for, if anything, is what it stands for. */
  ghost predicate NameReads(w: World, scope: Scope, name: string) {
    w.Resolve(scope, name).Some? ==> w.Meaning(scope, name) == w.Resolve(scope, name)
  }

  ghost predicate BaseReads(w: World, scope: Scope, base: Base) {
    base.Named? ==> NameReads(w, scope, base.name)
  }

  /** A utility or array type that is given arguments. */
  predicate IsBuiltIn(name: string, arguments: seq<Type>) {
    (IsUtility(name) || IsArrayType(name)) && arguments != []
  }

  /** Built-in names have no meaning of their own in the file, and others are found to stand for what they mean. */
  ghost predicate NodeReads(w: World, scope: Scope, node: Type) {
    match node
    case Reference(name, arguments) =>
      if IsBuiltIn(name, arguments) then !w.Binds(scope, name) else NameReads(w, scope, name)
    case Qualified(head, arguments) => !IsBuiltIn(head, arguments)
    case Keyof(_) => false
    case _ => true
  }

  /** The node at a question is read right: its name, and its member list, if it has one, at the first step. */
  ghost predicate ReadsAt(w: World, q: Query) {
    q.steps != [] ==>
      match q
      case OutOfReach(_, _, _) => true
      case AtDecl(id, _) =>
        id < |w.decls| && w.decls[id].Interface? && q.steps[0].Member? ==>
          var d, name := w.decls[id], q.steps[0].name;
          && Reads(d.members, d.members + d.later.members, name)
          && (FirstByText(d.members, name) == |d.members| ==>
                d.later.bases == [] && forall i :: 0 <= i < |d.bases| ==> BaseReads(w, d.scope, d.bases[i]))
      case AtType(scope, node, _) =>
        && NodeReads(w, scope, node)
        && (node.Literal? && q.steps[0].Member? ==> Reads(node.members, node.members, q.steps[0].name))
  }

  /** Everything the walk can come to within `depth` calls is read right. */
  ghost predicate Legible(w: World, q: Query, depth: nat)
    decreases depth
  {
    depth > 0 && q.steps != [] ==>
      && ReadsAt(w, q)
      && match Next(w, q)
         case Answered(_) => true
         case Ask(r) => Legible(w, r, depth - 1)
         case AskAll(rs) => forall i :: 0 <= i < |rs| ==> Legible(w, rs[i], depth - 1)
         case AskEvery(rs) => forall i :: 0 <= i < |rs| ==> Legible(w, rs[i], depth - 1)
  }

  /** What one branch of the walk asks for is what the presence depends on. */
  lemma MoveMeans(w: World, v: Valuation, q: Query)
    requires ReadsAt(w, q) && Means(w, v, q) && q.steps != []
    ensures match Next(w, q)
            case Answered(answer) => (answer == Found ==> v(q)) && (answer == Missing ==> !v(q)) && answer != Overflow
            case Ask(r) => v(q) == v(r) && !r.OutOfReach?
            case AskAll(rs) => IsAnyOf(v, q, rs)
            case AskEvery(rs) => (Every(v, rs) ==> v(q)) && (!Every(v, rs) && !Any(v, rs) ==> !v(q))
  {
    if q.AtDecl? && q.id < |w.decls| && w.decls[q.id].Interface? && w.decls[q.id].later.bases == [] {
      var d := w.decls[q.id];
      assert d.bases + d.later.bases == d.bases;
      if forall i :: 0 <= i < |d.bases| ==> BaseReads(w, d.scope, d.bases[i]) {
        BasesAre(w, v, d.scope, d.bases, q.steps);
      }
    }
  }

  /** What is present at one of these questions is present at `q`; and nothing else is, if they are all in reach. */
  ghost predicate IsAnyOf(v: Valuation, q: Query, rs: seq<Query>) {
    (AnyInReach(v, rs) ==> v(q)) && (AllInReach(rs) && v(q) ==> Any(v, rs))
  }

  ghost predicate AnyInReach(v: Valuation, rs: seq<Query>) {
    exists i :: 0 <= i < |rs| && !rs[i].OutOfReach? && v(rs[i])
  }

  ghost predicate AllInReach(rs: seq<Query>) {
    forall i :: 0 <= i < |rs| ==> !rs[i].OutOfReach?
  }

  lemma BasesAre(w: World, v: Valuation, scope: Scope, bases: seq<Base>, steps: seq<Step>)
    requires forall i :: 0 <= i < |bases| ==> BaseReads(w, scope, bases[i])
    ensures var rs := BaseQueries(w, scope, bases, steps);
            && (AnyInReach(v, rs) ==> SomeBase(w, v, scope, bases, steps))
            && (AllInReach(rs) && SomeBase(w, v, scope, bases, steps) ==> Any(v, rs))
  {
    var rs := BaseQueries(w, scope, bases, steps);
    forall i | 0 <= i < |bases| && !rs[i].OutOfReach? ensures v(MeantQuery(w, scope, bases[i], steps)) == v(rs[i]) {
      assert BaseReads(w, scope, bases[i]);
    }
  }

  /** An answer, read against a valuation: only definite answers claim anything. */
  ghost predicate IsTrueOf(answer: Answer, present: bool) {
    (answer == Found ==> present) && (answer == Missing ==> !present)
  }

  /**
   Whatever the unresolvable names stand for, whatever was already seen and however deep the stack: where the
   member lists on the way are read right, "found" is present and "missing" is absent.
   */
  lemma {:induction false} LookIsSound(w: World, v: Valuation, q: Query, seen: set<Key>, depth: nat, guard: bool)
    requires Respects(w, v) && Legible(w, q, depth)
    ensures IsTrueOf(Look(w, q, seen, depth, guard).0, v(q))
    decreases depth, 1, 0
  {
    hide Respects, ReadsAt, Next, Any, Every, Means, IsAnyOf;
    if depth > 0 {
      MeansAt(w, v, q);
      if q.steps != [] {
        MoveMeans(w, v, q);
        var seen' := Mark(w, q, seen);
        match Next(w, q)
        case Answered(_) =>
        case Ask(r) => LookIsSound(w, v, r, seen', depth - 1, guard);
        case AskAll(rs) =>
          LookEachIsSound(w, v, rs, seen', depth - 1, guard);
          CombineIsTrue(v, q, rs, LookEach(w, rs, seen', depth - 1, guard).0);
        case AskEvery(rs) =>
          LookEachIsSound(w, v, rs, seen', depth - 1, guard);
          AgreeIsTrue(v, rs, LookEach(w, rs, seen', depth - 1, guard).0);
      }
    }
  }

  lemma MeansAt(w: World, v: Valuation, q: Query)
    requires Respects(w, v)
    ensures Means(w, v, q) && (q.steps == [] ==> v(q))
  {
  }

  /** One true answer for each question, unless the walk overflowed; what is out of reach is unknown. */
  ghost predicate AllTrue(v: Valuation, qs: seq<Query>, answers: seq<Answer>) {
    Overflow in answers
    || (|answers| == |qs|
        && forall i :: 0 <= i < |qs| ==>
             IsTrueOf(answers[i], v(qs[i])) && (qs[i].OutOfReach? ==> answers[i] == Unknown))
  }

  lemma {:induction false} LookEachIsSound(w: World, v: Valuation, qs: seq<Query>,
    seen: set<Key>, depth: nat, guard: bool)
    requires Respects(w, v) && forall i :: 0 <= i < |qs| ==> Legible(w, qs[i], depth)
    ensures AllTrue(v, qs, LookEach(w, qs, seen, depth, guard).0)
    decreases depth, 2, |qs|
  {
    hide Respects, Legible, Look;
    if qs != [] {
      var first := if qs[0].OutOfReach? then (Unknown, seen) else Look(w, qs[0], seen, depth, guard);
      if !qs[0].OutOfReach? {
        LookIsSound(w, v, qs[0], seen, depth, guard);
      }
      if first.0 != Overflow {
        LookEachIsSound(w, v, qs[1..], first.1, depth, guard);
        var rest := LookEach(w, qs[1..], first.1, depth, guard);
        assert Overflow in rest.0 ==> Overflow in [first.0] + rest.0;
      }
    }
  }

  lemma CombineIsTrue(v: Valuation, q: Query, qs: seq<Query>, answers: seq<Answer>)
    requires AllTrue(v, qs, answers) && IsAnyOf(v, q, qs)
    ensures IsTrueOf(Combine(answers), v(q))
  {
    if Combine(answers) == Found {
      var i :| 0 <= i < |answers| && answers[i] == Found;
      assert !qs[i].OutOfReach? && v(qs[i]);
    } else if Combine(answers) == Missing {
      assert forall i :: 0 <= i < |answers| ==> answers[i] in answers;
      assert AllInReach(qs) && !Any(v, qs);
    }
  }

  lemma AgreeIsTrue(v: Valuation, qs: seq<Query>, answers: seq<Answer>)
    requires AllTrue(v, qs, answers)
    ensures Agree(answers) == Found ==> Every(v, qs)
    ensures Agree(answers) == Missing ==> !Any(v, qs) && !Every(v, qs)
  {
    assert forall i :: 0 <= i < |answers| ==> answers[i] in answers;
    if Agree(answers) == Missing {
      var r :| r in answers && r != Found;
    }
  }

  // ----- declarations without anything that could be misread -----

  /** Every element of `all` is a property of `own` with a bare name, or declares no member. */
  ghost predicate Visible(own: seq<Signature>, all: seq<Signature>) {
    forall i :: 0 <= i < |all| ==> all[i].CallSignature? || (i < |own| && all[i].Property? && all[i].name.Bare?)
  }

  ghost predicate PlainType(w: World, scope: Scope, t: Type)
    decreases t
  {
    NodeReads(w, scope, t) &&
    match t
    case Literal(members) =>
      && Visible(members, members)
      && forall m :: m in members && m.Property? && m.declared.Some? ==> PlainType(w, scope, m.declared.value)
    case Parenthesized(inner) => PlainType(w, scope, inner)
    case Modified(inner) => PlainType(w, scope, inner)
    case Intersection(parts) => forall p :: p in parts ==> PlainType(w, scope, p)
    case Union(parts) => forall p :: p in parts ==> PlainType(w, scope, p)
    case ArrayOf(element) => PlainType(w, scope, element)
    case Indexed(owner, _) => PlainType(w, scope, owner)
    case Reference(_, arguments) => forall p :: p in arguments ==> PlainType(w, scope, p)
    case _ => true
  }

  ghost predicate PlainDeclaration(w: World, d: Declaration) {
    match d
    case Enum => true
    case Alias(scope, target) => PlainType(w, scope, target)
    case Interface(scope, members, bases, later) =>
      && PlainType(w, scope, Literal(members)) && Visible(members, members + later.members)
      && later.bases == [] && forall i :: 0 <= i < |bases| ==> BaseReads(w, scope, bases[i])
  }

  /**
   Bare properties only: no quoted or computed name, method, accessor or index signature, and no interface in two
   pieces; names are found to stand for what they mean, and built-in names mean what they are built in for.
   */
  ghost predicate PlainWorld(w: World) {
    forall d :: d in w.decls ==> PlainDeclaration(w, d)
  }

  ghost predicate PlainQuery(w: World, q: Query) {
    q.AtType? ==> PlainType(w, q.scope, q.node)
  }

  lemma VisibleReads(own: seq<Signature>, all: seq<Signature>, name: string)
    requires own <= all && Visible(own, all)
    ensures Reads(own, all, name)
  {
    var i, j := FirstByText(own, name), FirstByKey(all, name);
    assert i < |own| ==> own[i] == all[i];
    assert j < |all| ==> j < |own| && own[j] == all[j];
  }

  lemma PlainReads(w: World, q: Query)
    requires PlainWorld(w) && PlainQuery(w, q) && q.steps != []
    ensures ReadsAt(w, q)
  {
    if q.AtDecl? && q.id < |w.decls| && w.decls[q.id].Interface? {
      var d := w.decls[q.id];
      assert d in w.decls;
      if q.steps[0].Member? {
        VisibleReads(d.members, d.members + d.later.members, q.steps[0].name);
      }
    } else if q.AtType? && q.node.Literal? && q.steps[0].Member? {
      VisibleReads(q.node.members, q.node.members, q.steps[0].name);
    }
  }

  lemma PlainMove(w: World, q: Query)
    requires PlainWorld(w) && PlainQuery(w, q) && q.steps != []
    ensures match Next(w, q)
            case Answered(_) => true
            case Ask(r) => PlainQuery(w, r)
            case AskAll(rs) => forall i :: 0 <= i < |rs| ==> PlainQuery(w, rs[i])
            case AskEvery(rs) => forall i :: 0 <= i < |rs| ==> PlainQuery(w, rs[i])
  {
    if q.AtDecl? && q.id < |w.decls| {
      var d := w.decls[q.id];
      assert d in w.decls;
      if d.Interface? && q.steps[0].Member? {
        var i := FirstByText(d.members, q.steps[0].name);
        assert i < |d.members| ==> d.members[i] in d.members;
      }
    } else if q.AtType? && q.node.Literal? && q.steps[0].Member? {
      var members := q.node.members;
      var i := FirstByText(members, q.steps[0].name);
      assert i < |members| ==> members[i] in members;
    }
  }

  lemma {:induction false} PlainIsLegible(w: World, q: Query, depth: nat)
    requires PlainWorld(w) && PlainQuery(w, q)
    ensures Legible(w, q, depth)
    decreases depth
  {
    hide PlainWorld, PlainQuery, ReadsAt, Next;
    if depth > 0 && q.steps != [] {
      PlainReads(w, q);
      PlainMove(w, q);
      match Next(w, q)
      case Answered(_) =>
      case Ask(r) => PlainIsLegible(w, r, depth - 1);
      case AskAll(rs) =>
        forall i | 0 <= i < |rs| ensures Legible(w, rs[i], depth - 1) {
          PlainIsLegible(w, rs[i], depth - 1);
        }
      case AskEvery(rs) =>
        forall i | 0 <= i < |rs| ensures Legible(w, rs[i], depth - 1) {
          PlainIsLegible(w, rs[i], depth - 1);
        }
    }
  }

  // ----- the claims are about something: every set of declarations has valuations -----

  /** Presence where everything the types leave open is granted, or nothing is; least either way. */
  least predicate Present(w: World, grant: bool, q: Query) {
    q.steps == [] ||
    (match q
     case OutOfReach(_, _, _) => grant
     case AtDecl(id, steps) =>
       if id >= |w.decls| then grant
       else
         (match w.decls[id]
          case Enum => grant
          case Alias(scope, target) => Present(w, grant, AtType(scope, target, steps))
          case Interface(scope, members, bases, later) =>
            if steps[0].Element? then grant
            else
              var all, allBases := members + later.members, bases + later.bases;
              var i := FirstByKey(all, steps[0].name);
              if i == |all| then
                (grant && HasIndex(all))
                || exists j :: 0 <= j < |allBases| && Present(w, grant, MeantQuery(w, scope, allBases[j], steps))
              else if |steps| == 1 then true
              else if all[i].Property? && all[i].declared.Some? then
                Present(w, grant, AtType(scope, all[i].declared.value, steps[1..]))
              else grant)
     case AtType(scope, node, steps) =>
       match node
       case Literal(members) =>
         if steps[0].Element? then grant
         else
           var i := FirstByKey(members, steps[0].name);
           if i == |members| then grant && HasIndex(members)
           else if |steps| == 1 then true
           else if members[i].Property? && members[i].declared.Some? then
             Present(w, grant, AtType(scope, members[i].declared.value, steps[1..]))
           else grant
       case Parenthesized(inner) => Present(w, grant, AtType(scope, inner, steps))
       case Modified(inner) => Present(w, grant, AtType(scope, inner, steps))
       case Keyof(_) => grant
       case Intersection(parts) => exists j :: 0 <= j < |parts| && Present(w, grant, AtType(scope, parts[j], steps))
       case Union(parts) =>
         (forall j :: 0 <= j < |parts| ==> Present(w, grant, AtType(scope, parts[j], steps)))
         || (grant && exists j :: 0 <= j < |parts| && Present(w, grant, AtType(scope, parts[j], steps)))
       case ArrayOf(element) =>
         if steps[0].Element? then Present(w, grant, AtType(scope, element, steps[1..])) else grant
       case Indexed(owner, index) =>
         if index.Some? then Present(w, grant, AtType(scope, owner, [Member(index.value)] + steps)) else grant
       case Reference(name, arguments) =>
         if w.Binds(scope, name) then
           if w.Meaning(scope, name).Some? then Present(w, grant, AtDecl(w.Meaning(scope, name).value, steps))
           else grant
         else if IsUtility(name) && arguments != [] then Present(w, grant, AtType(scope, arguments[0], steps))
         else if IsArrayType(name) && arguments != [] then
           if steps[0].Element? then Present(w, grant, AtType(scope, arguments[0], steps[1..])) else grant
         else grant
       case Qualified(_, _) => grant
       case Opaque => grant)
  }

  lemma PresentRespects(w: World, grant: bool)
    ensures Respects(w, q => Present(w, grant, q))
  {
    var v: Valuation := q => Present(w, grant, q);
    forall q ensures Means(w, v, q) {
    }
  }

  // ----- what is misread -----

  /** `Array.Name<T>` and the like are taken for `Array<T>`; other qualified names are unknown. */
  lemma QualifiedHead(
    w: World, scope: Scope, head: string, arguments: seq<Type>, steps: seq<Step>, seen: set<Key>, depth: nat,
    guard: bool)
    requires steps != []
    ensures Look(w, AtType(scope, Qualified(head, arguments), steps), seen, depth, guard) ==
      if IsBuiltIn(head, arguments) then Look(w, AtType(scope, Reference(head, arguments), steps), seen, depth, guard)
      else if depth == 0 then (Overflow, seen)
      else (Unknown, seen)
  {
    assert IsPassthrough(head) == IsUtility(head) && IsArrayName(head) == IsArrayType(head);
  }

  /** Where a path is absent or present under every valuation, an answer that says otherwise is wrong. */
  ghost predicate AnswersRight(w: World, q: Query, answer: Answer) {
    forall v :: Respects(w, v) ==> IsTrueOf(answer, v(q))
  }

  /** A question for one member of a type literal, or of an interface that extends nothing. */
  ghost predicate AsksOne(w: World, q: Query) {
    && |q.steps| == 1 && q.steps[0].Member?
    && match q
       case OutOfReach(_, _, _) => false
       case AtDecl(id, _) =>
         id < |w.decls| && w.decls[id].Interface? && w.decls[id].bases == [] && w.decls[id].later.bases == []
       case AtType(_, node, _) => node.Literal?
  }

  /** The elements the walk looks at. */
  ghost function Own(w: World, q: Query): seq<Signature>
    requires AsksOne(w, q)
  {
    if q.AtDecl? then w.decls[q.id].members else q.node.members
  }

  /** The elements the type declares. */
  ghost function All(w: World, q: Query): seq<Signature>
    requires AsksOne(w, q)
  {
    if q.AtDecl? then w.decls[q.id].members + w.decls[q.id].later.members else q.node.members
  }

  /** A property's text is the name just when an element declares it; if none does, no index signature grants it. */
  ghost predicate ReadsOne(own: seq<Signature>, all: seq<Signature>, name: string) {
    && (FirstByText(own, name) < |own| <==> FirstByKey(all, name) < |all|)
    && (FirstByText(own, name) == |own| ==> !HasIndex(all))
  }

  lemma OneLook(w: World, q: Query, seen: set<Key>, depth: nat)
    requires AsksOne(w, q) && depth > 1 && (q.AtDecl? ==> (q.id, 1) !in seen)
    ensures Look(w, q, seen, depth, true).0 ==
      if FirstByText(Own(w, q), q.steps[0].name) < |Own(w, q)| then Found else Missing
  {
    if q.AtDecl? {
      var d := w.decls[q.id];
      assert BaseQueries(w, d.scope, d.bases, q.steps) == [];
    }
  }

  lemma OnePresent(w: World, v: Valuation, q: Query)
    requires AsksOne(w, q) && Means(w, v, q)
    ensures FirstByKey(All(w, q), q.steps[0].name) < |All(w, q)| ==> v(q)
    ensures FirstByKey(All(w, q), q.steps[0].name) == |All(w, q)| && !HasIndex(All(w, q)) ==> !v(q)
  {
  }

  /** What is open about one member: only an index signature can grant what no element declares. */
  lemma OneOpen(w: World, q: Query, grant: bool)
    requires AsksOne(w, q) && FirstByKey(All(w, q), q.steps[0].name) == |All(w, q)|
    ensures Present(w, grant, q) == (grant && HasIndex(All(w, q)))
  {
  }

  /** The answer for one member is right exactly when that member is read right. */
  lemma OneMemberIff(w: World, q: Query, seen: set<Key>, depth: nat)
    requires AsksOne(w, q) && depth > 1 && (q.AtDecl? ==> (q.id, 1) !in seen)
    ensures AnswersRight(w, q, Look(w, q, seen, depth, true).0)
        <==> ReadsOne(Own(w, q), All(w, q), q.steps[0].name)
  {
    hide Look, Means, Own, All, FirstByText, FirstByKey, HasIndex;
    OneLook(w, q, seen, depth);
    var answer := Look(w, q, seen, depth, true).0;
    forall v | Respects(w, v)
      ensures ReadsOne(Own(w, q), All(w, q), q.steps[0].name) ==> IsTrueOf(answer, v(q))
    {
      assert Means(w, v, q);
      OnePresent(w, v, q);
    }
    OneGranted(w, q, true, answer);
    OneGranted(w, q, false, answer);
  }

  lemma OneGranted(w: World, q: Query, grant: bool, answer: Answer)
    requires AsksOne(w, q)
    ensures AnswersRight(w, q, answer) ==>
              var all := All(w, q);
              IsTrueOf(answer, FirstByKey(all, q.steps[0].name) < |all| || (grant && HasIndex(all)))
  {
    hide Means, FirstByKey, HasIndex;
    var v: Valuation := r => Present(w, grant, r);
    PresentRespects(w, grant);
    assert Means(w, v, q);
    OnePresent(w, v, q);
    if FirstByKey(All(w, q), q.steps[0].name) == |All(w, q)| {
      OneOpen(w, q, grant);
    }
    assert v(q) == Present(w, grant, q);
  }

  /**
   A property shares its name with no other element; methods may be overloaded and accessors come in pairs. No key
   is spelled like a computed name.
   */
  ghost predicate DistinctKeys(members: seq<Signature>) {
    forall i, j :: 0 <= i < |members| && 0 <= j < |members| && members[i].Property? && Declares(members[j]) ==>
      && (i != j ==> members[i].name.key != members[j].name.key)
      && (members[i].name.Computed? ==> members[i].name.Text() != members[j].name.key)
  }

  /** An element that declares a member and is no bare property of `own`. */
  ghost predicate IsHidden(own: seq<Signature>, all: seq<Signature>, i: int) {
    0 <= i < |all| && Declares(all[i]) && !(i < |own| && all[i].Property? && all[i].name.Bare?)
  }

  /** A hidden element with the shortest name among the first `n`. */
  lemma {:induction false} ShortestHidden(own: seq<Signature>, all: seq<Signature>, n: nat) returns (k: int)
    requires n <= |all|
    ensures k == -1 ==> forall i :: 0 <= i < n ==> !IsHidden(own, all, i)
    ensures k != -1 ==> IsHidden(own, all, k)
    ensures k != -1 ==> forall i :: 0 <= i < n && IsHidden(own, all, i) ==> |all[k].name.key| <= |all[i].name.key|
  {
    if n == 0 {
      k := -1;
    } else {
      k := ShortestHidden(own, all, n - 1);
      if IsHidden(own, all, n - 1) && (k == -1 || |all[n - 1].name.key| < |all[k].name.key|) {
        k := n - 1;
      }
    }
  }

  /** A name longer than any the elements are written with. */
  lemma {:induction false} FreshName(members: seq<Signature>) returns (name: string)
    ensures forall m :: m in members && Declares(m) ==> |name| > |m.name.Text()| && |name| > |m.name.key|
  {
    if members == [] {
      name := "";
    } else {
      var rest := FreshName(members[1..]);
      assert members == [members[0]] + members[1..];
      name := rest + (if Declares(members[0]) then members[0].name.Text() + members[0].name.key + "x" else "");
    }
  }

  /** Something that is not visible makes some name misread. */
  lemma SomeMisread(own: seq<Signature>, all: seq<Signature>) returns (name: string)
    requires own <= all && DistinctKeys(all) && !Visible(own, all)
    ensures !ReadsOne(own, all, name)
  {
    var k := ShortestHidden(own, all, |all|);
    if k != -1 {
      name := all[k].name.key;
      forall j | 0 <= j < |own| && own[j].Property? ensures own[j].name.Text() != name {
        assert own[j] == all[j];
        assert !own[j].name.Bare? ==> IsHidden(own, all, j);
      }
    } else {
      var i :| 0 <= i < |all| && !(all[i].CallSignature? || (i < |own| && all[i].Property? && all[i].name.Bare?));
      assert !IsHidden(own, all, i) && all[i] in all;
      name := FreshName(all);
      forall j | 0 <= j < |own| && own[j].Property? ensures own[j].name.Text() != name {
        assert own[j] == all[j] && all[j] in all;
      }
      forall j | 0 <= j < |all| && Declares(all[j]) ensures all[j].name.key != name {
        assert all[j] in all;
      }
    }
  }

  ghost function ForMember(q: Query, name: string): Query {
    match q
    case AtDecl(id, _) => AtDecl(id, [Member(name)])
    case AtType(scope, node, _) => AtType(scope, node, [Member(name)])
    case OutOfReach(scope, base, _) => OutOfReach(scope, base, [Member(name)])
  }

  ghost predicate OneRight(w: World, q: Query, name: string, depth: nat)
    requires AsksOne(w, q)
  {
    var r := ForMember(q, name);
    AnswersRight(w, r, Look(w, r, {}, depth, true).0)
  }

  /**
   All members of a type literal, or of an interface that extends nothing, are answered right exactly when each of
   its elements is a property with a bare name in its first declaration, or declares no member at all.
   */
  lemma VisibleIff(w: World, q: Query, depth: nat)
    requires AsksOne(w, q) && DistinctKeys(All(w, q)) && depth > 1
    ensures Visible(Own(w, q), All(w, q)) <==> forall name :: OneRight(w, q, name, depth)
  {
    hide AnswersRight, Look, Visible, DistinctKeys, ReadsOne;
    var own, all := Own(w, q), All(w, q);
    forall name ensures OneRight(w, q, name, depth) <==> ReadsOne(own, all, name) {
      OneMemberIff(w, ForMember(q, name), {}, depth);
    }
    if Visible(own, all) {
      forall name ensures ReadsOne(own, all, name) {
        VisibleReadsOne(own, all, name);
      }
    } else {
      var name := SomeMisread(own, all);
      assert !OneRight(w, q, name, depth);
    }
  }

  lemma VisibleReadsOne(own: seq<Signature>, all: seq<Signature>, name: string)
    requires own <= all && Visible(own, all)
    ensures ReadsOne(own, all, name)
  {
    VisibleReads(own, all, name);
  }

  // ----- members that are there and answered "missing" -----

  /** `{ onError(e: Error): void }` asked for `onError`: present under every valuation. */
  lemma MethodIsMissed(w: World, scope: Scope, name: string, seen: set<Key>, depth: nat)
    requires depth > 1
    ensures var q := AtType(scope, Literal([Method(Bare(name))]), [Member(name)]);
            Look(w, q, seen, depth, true).0 == Missing && forall v :: Respects(w, v) ==> v(q)
  {
    var q := AtType(scope, Literal([Method(Bare(name))]), [Member(name)]);
    forall v | Respects(w, v) ensures v(q) {
      assert Means(w, v, q);
    }
  }

  /** `{ [key: string]: T }` asked for anything: present under some valuation. */
  lemma IndexIsMissed(w: World, scope: Scope, name: string, seen: set<Key>, depth: nat)
    requires depth > 1
    ensures var q := AtType(scope, Literal([IndexSignature]), [Member(name)]);
            Look(w, q, seen, depth, true).0 == Missing && exists v :: Respects(w, v) && v(q)
  {
    var q := AtType(scope, Literal([IndexSignature]), [Member(name)]);
    var v: Valuation := r => Present(w, true, r);
    PresentRespects(w, true);
    assert IndexSignature in [IndexSignature];
    assert HasIndex([IndexSignature]);
    OneOpen(w, q, true);
    assert v(q);
  }

  /** `interface A { x: T }` and `interface A { y: U }`, asked for `y`: present under every valuation. */
  const SPLIT_INTERFACE := World(
    [Interface(Scope("f", {}), [Property(Bare("x"), None)], [], Later([Property(Bare("y"), None)], []))],
    map[("f", "A") := 0], map[("f", "A") := Some(0)])

  lemma MergedIsMissed(depth: nat)
    requires depth > 1
    ensures var q := AtDecl(0, [Member("y")]);
            Look(SPLIT_INTERFACE, q, {}, depth, true).0 == Missing && forall v :: Respects(SPLIT_INTERFACE, v) ==> v(q)
  {
    var w, q := SPLIT_INTERFACE, AtDecl(0, [Member("y")]);
    OneLook(w, q, {}, depth);
    forall v | Respects(w, v) ensures v(q) {
      assert Means(w, v, q);
      assert All(w, q)[1].name.key == "y";
      OnePresent(w, v, q);
    }
  }

  /** `type Required<T> = T & { required: true }`. */
  const SHADOWED_UTILITY := World(
    [Alias(Scope("f", {"T"}),
           Intersection([Reference("T", []), Literal([Property(Bare("required"), Some(Opaque))])]))],
    map[("f", "Required") := 0], map[("f", "Required") := Some(0)])

  /** `Required<{}>` in that file, asked for `required`: present under every valuation. */
  lemma ShadowedUtilityIsMissed(seen: set<Key>, depth: nat)
    requires depth > 2
    ensures var q := AtType(Scope("f", {}), Reference("Required", [Literal([])]), [Member("required")]);
            && Look(SHADOWED_UTILITY, q, seen, depth, true).0 == Missing
            && forall v :: Respects(SHADOWED_UTILITY, v) ==> v(q)
  {
    var w, steps := SHADOWED_UTILITY, [Member("required")];
    var here, there := Scope("f", {}), Scope("f", {"T"});
    var q := AtType(here, Reference("Required", [Literal([])]), steps);
    assert Next(w, q) == Ask(AtType(here, Literal([]), steps));
    forall v | Respects(w, v) ensures v(q) {
      var literal := Literal([Property(Bare("required"), Some(Opaque))]);
      var parts := [Reference("T", []), literal];
      assert Means(w, v, q) && Means(w, v, AtDecl(0, steps)) && Means(w, v, AtType(there, Intersection(parts), steps));
      assert Means(w, v, AtType(there, literal, steps));
      assert v(PartQueries(there, parts, steps)[1]);
    }
  }

  /** `interface Box<T> { inner: T }` beside `interface T {}`. */
  const SHADOWED_PARAMETER := World(
    [Interface(Scope("f", {"T"}), [Property(Bare("inner"), Some(Reference("T", [])))], [], Later([], [])),
     Interface(Scope("f", {}), [], [], Later([], []))],
    map[("f", "Box") := 0, ("f", "T") := 1], map[("f", "Box") := Some(0), ("f", "T") := Some(1)])

  const BOX := Scope("f", {"T"})

  lemma ParameterLooks(depth: nat, rest: seq<Step>)
    requires depth > 3 && |rest| == 1 && rest[0].Member?
    ensures Look(SHADOWED_PARAMETER, AtType(BOX, Reference("T", []), rest), {(0, 2)}, depth, true).0 == Missing
  {
    var w, at := SHADOWED_PARAMETER, AtType(BOX, Reference("T", []), rest);
    assert Next(w, at) == Ask(AtDecl(1, rest));
    assert BaseQueries(w, Scope("f", {}), [], rest) == [];
    assert Next(w, AtDecl(1, rest)) == AskAll([]);
    assert Look(w, AtDecl(1, rest), {(0, 2)}, depth - 1, true).0 == Missing;
  }

  lemma ParameterIsFree(rest: seq<Step>)
    requires rest != []
    ensures Present(SHADOWED_PARAMETER, true, AtType(BOX, Reference("T", []), rest))
  {
  }

  /** `Box` asked for `inner.x`: present under some valuation, for `T` may be anything. */
  lemma ShadowedParameterIsMissed(depth: nat, x: string)
    requires depth > 4
    ensures var q := AtDecl(0, [Member("inner"), Member(x)]);
            && Look(SHADOWED_PARAMETER, q, {}, depth, true).0 == Missing
            && exists v :: Respects(SHADOWED_PARAMETER, v) && v(q)
  {
    var w, steps, rest := SHADOWED_PARAMETER, [Member("inner"), Member(x)], [Member(x)];
    assert steps[1..] == rest;
    var q, at := AtDecl(0, steps), AtType(BOX, Reference("T", []), rest);
    assert Next(w, q) == Ask(at);
    ParameterLooks(depth - 1, rest);
    assert Mark(w, q, {}) == {(0, 2)};
    var v: Valuation := r => Present(w, true, r);
    PresentRespects(w, true);
    ParameterIsFree(rest);
    hide Present, Look;
    BoxMeans(v, rest, steps);
    assert v(q);
  }

  lemma BoxMeans(v: Valuation, rest: seq<Step>, steps: seq<Step>)
    requires Respects(SHADOWED_PARAMETER, v) && rest != [] && steps == [Member("inner")] + rest
    ensures v(AtDecl(0, steps)) == v(AtType(BOX, Reference("T", []), rest))
  {
    var w := SHADOWED_PARAMETER;
    assert Means(w, v, AtDecl(0, steps));
    assert w.decls[0].members + w.decls[0].later.members == w.decls[0].members;
    assert steps[1..] == rest;
  }
}
