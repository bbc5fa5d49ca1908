/** `lookupPath`: whether a declared config type has a member at a schema key path. */
module TypePaths {
  import opened Options

  /** One step of a schema key path. */
  datatype Step = Member(name: string) | Element

  /**
   A member name as written: bare, or in quotes or brackets, which are part of its source text, or computed by an
   expression whose value is the key.
   */
  datatype PropertyName =
    | Bare(key: string)
    | Quoted(key: string)
    | Bracketed(key: string)
    | Computed(expression: string, key: string)
  {
    function Text(): (text: string)
      ensures Bare? ==> text == key
      ensures Quoted? || Bracketed? ==> |text| > |key|
    {
      match this
      case Bare(_) => key
      case Quoted(_) => "'" + key + "'"
      case Bracketed(_) => "['" + key + "']"
      case Computed(expression, _) => "[" + expression + "]"
    }
  }

  /** A type element. A property may lack a type; `Method` is a method signature or an accessor. */
  datatype Signature =
    | Property(name: PropertyName, declared: Option<Type>)
    | Method(name: PropertyName)
    | IndexSignature
    | CallSignature

  datatype Type =
    | Literal(members: seq<Signature>)
    | Parenthesized(inner: Type)
    | Intersection(parts: seq<Type>)
    | Union(parts: seq<Type>)
    | ArrayOf(element: Type)
    | Modified(inner: Type)                         // `readonly T`
    | Indexed(owner: Type, index: Option<string>) // `T['key']`; other index types have no key
    | Keyof(inner: Type)
    | Reference(name: string, arguments: seq<Type>)
    | Qualified(head: string, arguments: seq<Type>) // `Head.Name<...>`
    | Opaque                                        // any other node

  /** One `extends` entry: a plain name, or an expression. */
  datatype Base = Named(name: string) | Computed

  /** What later declarations of one interface in its file add to the first. */
  datatype Later = Later(members: seq<Signature>, bases: seq<Base>)

  /** Where a type stands: its file, and the type parameters of the declaration around it. */
  datatype Scope = Scope(file: string, parameters: set<string>)

  datatype Declaration =
    | Interface(scope: Scope, members: seq<Signature>, bases: seq<Base>, later: Later)
    | Alias(scope: Scope, target: Type)
    | Enum

  type DeclId = nat

  /**
   The declarations; the ones that names are found to stand for in a file; and what a file binds a name to: a
   declaration, or something out of reach such as a class or an import from elsewhere.
   */
  datatype World = World(
    decls: seq<Declaration>,
    names: map<(string, string), DeclId>,
    bound: map<(string, string), Option<DeclId>>)
  {
    /** What the walk takes a name for: it does not know type parameters. */
    function Resolve(scope: Scope, name: string): Option<DeclId> {
      var key := (scope.file, name);
      if key in names && names[key] < |decls| then Some(names[key]) else None
    }

    /** The name has a meaning of its own here, whatever it means elsewhere. */
    predicate Binds(scope: Scope, name: string) {
      name in scope.parameters || (scope.file, name) in bound
    }

    /** The declaration the name stands for, if it is one in reach. */
    function Meaning(scope: Scope, name: string): Option<DeclId> {
      var key := (scope.file, name);
      if name !in scope.parameters && key in bound && bound[key].Some? && bound[key].value < |decls| then
        bound[key] else None
    }
  }

  /** A question: is there a member at `steps` of this declaration, or of this type at this place? */
  datatype Query =
    | AtDecl(id: DeclId, steps: seq<Step>)
    | AtType(scope: Scope, node: Type, steps: seq<Step>)
    | OutOfReach(scope: Scope, base: Base, steps: seq<Step>)

  datatype Answer = Found | Missing | Unknown | Overflow

  /** What the recursion guard remembers: a declaration and the number of steps left at it. */
  type Key = (DeclId, nat)

  predicate IsPassthrough(name: string) {
    name in {"Partial", "Required", "Readonly", "NonNullable"}
  }

  predicate IsArrayName(name: string) {
    name == "Array" || name == "ReadonlyArray"
  }

  /** The position of the first property whose source text is `name`. */
  function FirstByText(members: seq<Signature>, name: string): (i: nat)
    ensures i <= |members|
    ensures i < |members| ==> members[i].Property? && members[i].name.Text() == name
    ensures forall j :: 0 <= j < i ==> !(members[j].Property? && members[j].name.Text() == name)
  {
    if members == [] then 0
    else if members[0].Property? && members[0].name.Text() == name then 0
    else 1 + FirstByText(members[1..], name)
  }

  /** Any found wins, else any unknown taints, else missing. */
  function Combine(results: seq<Answer>): Answer {
    if Overflow in results then Overflow
    else if Found in results then Found
    else if Unknown in results then Unknown
    else Missing
  }

  /** Presence on a union is only definite when every branch agrees. */
  function Agree(results: seq<Answer>): Answer {
    if Overflow in results then Overflow
    else if forall r :: r in results ==> r == Found then Found
    else if forall r :: r in results ==> r == Missing then Missing
    else Unknown
  }

  function PartQueries(scope: Scope, parts: seq<Type>, steps: seq<Step>): (qs: seq<Query>)
    ensures |qs| == |parts| && forall i :: 0 <= i < |parts| ==> qs[i] == AtType(scope, parts[i], steps)
  {
    seq(|parts|, i requires 0 <= i < |parts| => AtType(scope, parts[i], steps))
  }

  function BaseQuery(w: World, scope: Scope, base: Base, steps: seq<Step>): Query {
    if base.Named? && w.Resolve(scope, base.name).Some? then AtDecl(w.Resolve(scope, base.name).value, steps)
    else OutOfReach(scope, base, steps)
  }

  function BaseQueries(w: World, scope: Scope, bases: seq<Base>, steps: seq<Step>): (qs: seq<Query>)
    ensures |qs| == |bases| && forall i :: 0 <= i < |bases| ==> qs[i] == BaseQuery(w, scope, bases[i], steps)
  {
    seq(|bases|, i requires 0 <= i < |bases| => BaseQuery(w, scope, bases[i], steps))
  }

  /** What a node asks for next: an answer at once, one more question, or several to be put together. */
  datatype Move =
    | Answered(answer: Answer)
    | Ask(query: Query)
    | AskAll(queries: seq<Query>)
    | AskEvery(queries: seq<Query>)

  /** `intoMembers`, with what its caller does when no member matches. */
  function IntoMembers(scope: Scope, members: seq<Signature>, steps: seq<Step>, otherwise: Move): Move
    requires steps != [] && steps[0].Member?
  {
    var i := FirstByText(members, steps[0].name);
    if i == |members| then otherwise
    else if |steps| == 1 then Answered(Found)
    else if members[i].declared == None then Answered(Unknown)
    else Ask(AtType(scope, members[i].declared.value, steps[1..]))
  }

  /** The branch of `lookupPath` a non-empty path takes, past the recursion guard. */
  function Next(w: World, q: Query): Move
    requires q.steps != []
  {
    var step, steps := q.steps[0], q.steps;
    match q
    case OutOfReach(_, _, _) => Answered(Unknown)
    case AtDecl(id, _) =>
      if id >= |w.decls| then Answered(Unknown)
      else (match w.decls[id]
            case Enum => Answered(Unknown)
            case Alias(scope, target) => Ask(AtType(scope, target, steps))
            case Interface(scope, members, bases, _) =>
              if step.Element? then Answered(Unknown)
              else IntoMembers(scope, members, steps, AskAll(BaseQueries(w, scope, bases, steps))))
    case AtType(scope, node, _) =>
      match node
      case Literal(members) =>
        if step.Element? then Answered(Unknown) else IntoMembers(scope, members, steps, Answered(Missing))
      case Parenthesized(inner) => Ask(AtType(scope, inner, steps))
      case Modified(inner) => Ask(AtType(scope, inner, steps))
      case Keyof(inner) => Ask(AtType(scope, inner, steps))
      case Intersection(parts) => AskAll(PartQueries(scope, parts, steps))
      case Union(parts) => AskEvery(PartQueries(scope, parts, steps))
      case ArrayOf(element) =>
        if step.Element? then Ask(AtType(scope, element, steps[1..])) else Answered(Unknown)
      case Indexed(owner, index) =>
        if index == None then Answered(Unknown)
        else Ask(AtType(scope, owner, [Member(index.value)] + steps))
      case Reference(name, arguments) =>
        if IsPassthrough(name) && arguments != [] then Ask(AtType(scope, arguments[0], steps))
        else if IsArrayName(name) && arguments != [] then
          if step.Element? then Ask(AtType(scope, arguments[0], steps[1..])) else Answered(Unknown)
        else if w.Resolve(scope, name) == None then Answered(Unknown)
        else Ask(AtDecl(w.Resolve(scope, name).value, steps))
      case Qualified(head, arguments) =>
        if IsPassthrough(head) && arguments != [] then Ask(AtType(scope, arguments[0], steps))
        else if IsArrayName(head) && arguments != [] then
          if step.Element? then Ask(AtType(scope, arguments[0], steps[1..])) else Answered(Unknown)
        else Answered(Unknown)
      case Opaque => Answered(Unknown)
  }

  /** Interfaces and aliases, the declarations the recursion guard covers. */
  predicate IsGuarded(w: World, q: Query) {
    q.AtDecl? && q.id < |w.decls| && !w.decls[q.id].Enum?
  }

  /** `seen.add(key)`, on guarded declarations only. */
  function Mark(w: World, q: Query, seen: set<Key>): set<Key> {
    if IsGuarded(w, q) then seen + {(q.id, |q.steps|)} else seen
  }

  /**
   The walk as a function of the guard's set; `depth` is the call stack still available, and running out of it
   is the source's stack overflow. With `guard` off the recursion guard never answers.
   */
  function Look(w: World, q: Query, seen: set<Key>, depth: nat, guard: bool): (Answer, set<Key>)
    decreases depth, 1, 0
  {
    if depth == 0 then (Overflow, seen)
    else if q.steps == [] then (Found, seen)
    else if guard && IsGuarded(w, q) && (q.id, |q.steps|) in seen then (Unknown, seen)
    else
      var seen' := Mark(w, q, seen);
      match Next(w, q)
      case Answered(answer) => (answer, seen')
      case Ask(query) => Look(w, query, seen', depth - 1, guard)
      case AskAll(queries) => var r := LookEach(w, queries, seen', depth - 1, guard); (Combine(r.0), r.1)
      case AskEvery(queries) => var r := LookEach(w, queries, seen', depth - 1, guard); (Agree(r.0), r.1)
  }

  /** Several questions in turn, sharing the guard; an overflow ends the walk. */
  function LookEach(w: World, qs: seq<Query>, seen: set<Key>, depth: nat, guard: bool): (seq<Answer>, set<Key>)
    decreases depth, 2, |qs|
  {
    if qs == [] then ([], seen)
    else
      var first := if qs[0].OutOfReach? then (Unknown, seen) else Look(w, qs[0], seen, depth, guard);
      if first.0 == Overflow then ([Overflow], first.1)
      else
        var rest := LookEach(w, qs[1..], first.1, depth, guard);
        ([first.0] + rest.0, rest.1)
  }

  /** One call of `lookupPath` from the outside: its recursive calls share the `seen` set. */
  class Lookup {
    const world: World
    var seen: set<Key>

    constructor (world: World)
      ensures this.world == world && seen == {}
    {
      this.world := world;
      seen := {};
    }

    method LookupPath(q: Query, depth: nat) returns (answer: Answer)
      modifies this
      ensures (answer, seen) == Look(world, q, old(seen), depth, true)
      decreases depth, 1, 0
    {
      if depth == 0 {
        return Overflow;
      }
      if |q.steps| == 0 {
        return Found;
      }
      if IsGuarded(world, q) {
        if (q.id, |q.steps|) in seen {
          return Unknown;
        }
        seen := seen + {(q.id, |q.steps|)};
      }
      match Next(world, q) {
        case Answered(definite) => answer := definite;
        case Ask(next) => answer := LookupPath(next, depth - 1);
        case AskAll(queries) =>
          var results := LookupEach(queries, depth - 1);
          answer := Combine(results);
        case AskEvery(queries) =>
          var results := LookupEach(queries, depth - 1);
          answer := Agree(results);
      }
    }

    /** The loops over heritage clauses, intersection parts and union branches. */
    method LookupEach(qs: seq<Query>, depth: nat) returns (results: seq<Answer>)
      modifies this
      ensures (results, seen) == LookEach(world, qs, old(seen), depth, true)
      decreases depth, 2, |qs|
    {
      results := [];
      ghost var all := LookEach(world, qs, seen, depth, true).0;
      assert qs[0..] == qs && results + all == all;
      for i := 0 to |qs|
        invariant LookEach(world, qs, old(seen), depth, true)
               == (results + LookEach(world, qs[i..], seen, depth, true).0,
                   LookEach(world, qs[i..], seen, depth, true).1)
      {
        hide Look;
        assert qs[i..][0] == qs[i] && qs[i..][1..] == qs[i + 1..];
        var result := Unknown;
        if !qs[i].OutOfReach? {
          result := LookupPath(qs[i], depth);
        }
        if result == Overflow {
          return results + [result];
        }
        ghost var rest := LookEach(world, qs[i + 1..], seen, depth, true).0;
        assert results + ([result] + rest) == results + [result] + rest;
        results := results + [result];
      }
      assert qs[|qs|..] == [] && results + [] == results;
    }
  }
}
