/** Key paths such as `agents[].id`: their grammar, and the walk that prints them from a schema. */
module SchemaPaths {
  import opened Options
  import opened TypePaths

  type Path = seq<Step>

  // ----- splitting at dots -----

  /** `s.split('.')`. */
  function Split(s: string): (segments: seq<string>)
    ensures |segments| > 0
    ensures forall k :: 0 <= k < |segments| ==> '.' !in segments[k]
  {
    if s == "" then [""]
    else if s[0] == '.' then [""] + Split(s[1..])
    else var rest := Split(s[1..]); [[s[0]] + rest[0]] + rest[1..]
  }

  /** Segments run together: the last of `a` and the first of `b` become one. */
  function Glued(a: seq<string>, b: seq<string>): seq<string>
    requires a != [] && b != []
  {
    a[..|a| - 1] + [a[|a| - 1] + b[0]] + b[1..]
  }

  lemma GluedMore(x: string, a: seq<string>, b: seq<string>)
    requires a != [] && b != []
    ensures Glued([x] + a, b) == [x] + Glued(a, b)
  {
    assert ([x] + a)[..|a|] == [x] + a[..|a| - 1];
  }

  lemma GluedHead(c: char, a: seq<string>, b: seq<string>)
    requires a != [] && b != []
    ensures Glued([[c] + a[0]] + a[1..], b) == [[c] + Glued(a, b)[0]] + Glued(a, b)[1..]
  {
    if |a| == 1 {
      assert ([c] + a[0]) + b[0] == [c] + (a[0] + b[0]);
    }
  }

  /** Appending to a string extends its last segment. */
  lemma {:induction false} SplitAppend(p: string, q: string)
    ensures Split(p + q) == Glued(Split(p), Split(q))
  {
    if p == "" {
      assert p + q == q;
      assert "" + Split(q)[0] == Split(q)[0];
    } else {
      SplitAppend(p[1..], q);
      assert (p + q)[1..] == p[1..] + q;
      if p[0] == '.' {
        GluedMore("", Split(p[1..]), Split(q));
      } else {
        GluedHead(p[0], Split(p[1..]), Split(q));
      }
    }
  }

  lemma {:induction false} SplitNoDot(s: string)
    requires '.' !in s
    ensures Split(s) == [s]
  {
    if s != "" {
      SplitNoDot(s[1..]);
      assert [s[0]] + s[1..] == s;
    }
  }

  // ----- array suffixes -----

  predicate EndsInBrackets(name: string) {
    |name| >= 2 && name[|name| - 2..] == "[]"
  }

  /** The name left when every trailing `[]` is gone, and how many there were. */
  function Stripped(name: string): (r: (string, nat))
    ensures !EndsInBrackets(r.0)
    ensures '.' !in name ==> '.' !in r.0
  {
    if EndsInBrackets(name) then var inner := Stripped(name[..|name| - 2]); (inner.0, inner.1 + 1)
    else (name, 0)
  }

  function Elements(n: nat): Path {
    seq(n, _ => Element)
  }

  function SegmentSteps(segment: string): Path {
    [Member(Stripped(segment).0)] + Elements(Stripped(segment).1)
  }

  function AllSteps(segments: seq<string>): Path {
    if segments == [] then []
    else AllSteps(segments[..|segments| - 1]) + SegmentSteps(segments[|segments| - 1])
  }

  /** The steps a printed path stands for. */
  function Parsed(path: string): Path {
    AllSteps(Split(path))
  }

  method ParsePath(path: string) returns (steps: Path)
    ensures steps == Parsed(path)
  {
    steps := [];
    var segments := Split(path);
    for s := 0 to |segments|
      invariant steps == AllSteps(segments[..s])
    {
      assert segments[..s + 1][..s] == segments[..s];
      var name := segments[s];
      var arrays := 0;
      while EndsInBrackets(name)
        invariant Stripped(name).0 == Stripped(segments[s]).0
        invariant Stripped(name).1 + arrays == Stripped(segments[s]).1
        decreases |name|
      {
        name := name[..|name| - 2];
        arrays := arrays + 1;
      }
      steps := steps + [Member(name)];
      ghost var named := steps;
      for i := 0 to arrays
        invariant steps == named + Elements(i)
      {
        steps := steps + [Element];
      }
    }
    assert segments[..|segments|] == segments;
  }

  // ----- printing -----

  function Text(step: Step): string {
    match step
    case Member(name) => "." + name
    case Element => "[]"
  }

  /** The text of steps further down a path. */
  function Suffix(steps: Path): (text: string)
    ensures steps != [] ==> text != ""
  {
    if steps == [] then "" else Text(steps[0]) + Suffix(steps[1..])
  }

  /** The text of a path, which starts with a member. */
  function Printed(steps: Path): string
    requires steps != []
  {
    Suffix(steps)[1..]
  }

  lemma NoSuffix()
    ensures Suffix([]) == "" && Suffix([Element]) == "[]"
  {
    assert Suffix([Element]) == "[]" + Suffix([]);
  }

  lemma SuffixMore(first: Step, rest: Path)
    ensures Suffix([first] + rest) == Text(first) + Suffix(rest)
  {
    assert ([first] + rest)[1..] == rest;
  }

  lemma {:induction false} SuffixAppend(a: Path, b: Path)
    ensures Suffix(a + b) == Suffix(a) + Suffix(b)
  {
    hide Text, Suffix;
    if a == [] {
      NoSuffix();
      assert a + b == b && Suffix([]) + Suffix(b) == Suffix(b);
    } else {
      SuffixAppend(a[1..], b);
      SuffixMore(a[0], a[1..]);
      SuffixMore(a[0], a[1..] + b);
      assert [a[0]] + (a[1..] + b) == a + b && [a[0]] + a[1..] == a;
      assert Text(a[0]) + (Suffix(a[1..]) + Suffix(b)) == (Text(a[0]) + Suffix(a[1..])) + Suffix(b);
    }
  }

  lemma PrintedAppend(a: Path, b: Path)
    requires a != []
    ensures Printed(a + b) == Printed(a) + Suffix(b)
  {
    SuffixAppend(a, b);
  }

  // ----- parsing after printing -----

  /** A member name that cannot be mistaken for something else in a path. */
  predicate IsClean(name: string) {
    '.' !in name && !EndsInBrackets(name)
  }

  predicate AllClean(steps: Path) {
    forall k :: 0 <= k < |steps| && steps[k].Member? ==> IsClean(steps[k].name)
  }

  lemma SegmentElement(segment: string)
    ensures SegmentSteps(segment + "[]") == SegmentSteps(segment) + [Element]
  {
    var longer := segment + "[]";
    assert longer[..|longer| - 2] == segment;
    assert Elements(Stripped(segment).1 + 1) == Elements(Stripped(segment).1) + [Element];
  }

  lemma AllStepsMore(segments: seq<string>, last: string)
    ensures AllSteps(segments + [last]) == AllSteps(segments) + SegmentSteps(last)
  {
    assert (segments + [last])[..|segments|] == segments;
  }

  lemma ParsedElement(p: string)
    ensures Parsed(p + "[]") == Parsed(p) + [Element]
  {
    hide Split, SegmentSteps;
    SplitAppend(p, "[]");
    SplitNoDot("[]");
    var segments := Split(p);
    var front, last := segments[..|segments| - 1], segments[|segments| - 1];
    assert Split(p + "[]") == front + [last + "[]"];
    assert segments == front + [last];
    AllStepsMore(front, last);
    AllStepsMore(front, last + "[]");
    SegmentElement(last);
  }

  lemma SplitMember(name: string)
    requires '.' !in name
    ensures Split("." + name) == ["", name]
  {
    SplitNoDot(name);
    assert ("." + name)[1..] == name;
  }

  lemma ParsedMember(p: string, name: string)
    requires IsClean(name)
    ensures Parsed(p + ("." + name)) == Parsed(p) + [Member(name)]
  {
    hide Split;
    SplitAppend(p, "." + name);
    SplitMember(name);
    var segments := Split(p);
    var last := segments[|segments| - 1];
    assert last + "" == last;
    assert Split(p + ("." + name)) == segments + [name];
    AllStepsMore(segments, name);
    assert SegmentSteps(name) == [Member(name)];
  }

  lemma PrintedOne(name: string)
    ensures Printed([Member(name)]) == name
  {
    assert Suffix([Member(name)]) == "." + name + Suffix([]);
  }

  lemma PrintedMore(steps: Path, last: Step)
    requires steps != []
    ensures Printed(steps + [last]) == Printed(steps) + Text(last)
  {
    PrintedAppend(steps, [last]);
    assert Suffix([last]) == Text(last) + Suffix([]);
  }

  lemma ParsedOne(name: string)
    requires IsClean(name)
    ensures Parsed(name) == [Member(name)]
  {
    SplitNoDot(name);
    assert [name][..0] == [];
  }

  lemma {:induction false} ParsedPrinted(steps: Path)
    requires steps != [] && steps[0].Member? && AllClean(steps)
    ensures Parsed(Printed(steps)) == steps
  {
    hide Parsed, Printed;
    var n := |steps| - 1;
    var last := steps[n];
    if n == 0 {
      assert steps == [Member(last.name)];
      PrintedOne(last.name);
      ParsedOne(last.name);
    } else {
      var front := steps[..n];
      assert steps == front + [last];
      ParsedPrinted(front);
      PrintedMore(front, last);
      if last.Element? {
        ParsedElement(Printed(front));
      } else {
        ParsedMember(Printed(front), last.name);
      }
    }
  }

  lemma {:induction false} AllStepsClean(segments: seq<string>)
    requires forall k :: 0 <= k < |segments| ==> '.' !in segments[k]
    ensures AllClean(AllSteps(segments))
    ensures segments != [] ==> AllSteps(segments) != [] && AllSteps(segments)[0].Member?
  {
    if segments != [] {
      AllStepsClean(segments[..|segments| - 1]);
    }
  }

  /** Parsing undoes printing exactly for clean names. */
  lemma RoundTripIff(steps: Path)
    requires steps != [] && steps[0].Member?
    ensures Parsed(Printed(steps)) == steps <==> AllClean(steps)
  {
    AllStepsClean(Split(Printed(steps)));
    if AllClean(steps) {
      ParsedPrinted(steps);
    }
  }

  // ----- printing after parsing -----

  lemma {:induction false} SuffixElements(n: nat)
    ensures Suffix(Elements(n + 1)) == Suffix(Elements(n)) + "[]"
  {
    assert Elements(n + 1) == Elements(n) + [Element];
    SuffixAppend(Elements(n), [Element]);
    assert Suffix([Element]) == "[]" + Suffix([]);
  }

  /** One more `[]` on a segment is one more element step. */
  lemma BracketPrinted(inner: string, tail: string)
    requires Suffix(SegmentSteps(inner)) == tail
    ensures Suffix(SegmentSteps(inner + "[]")) == tail + "[]"
  {
    hide SegmentSteps, Suffix;
    SegmentElement(inner);
    SuffixAppend(SegmentSteps(inner), [Element]);
    SuffixElements(0);
    assert Elements(0) == [] && Elements(1) == [Element];
    assert Suffix([]) == "" by { NoSuffix(); }
  }

  lemma {:induction false} SegmentPrinted(segment: string)
    ensures Suffix(SegmentSteps(segment)) == "." + segment
  {
    hide Suffix, SegmentSteps;
    if EndsInBrackets(segment) {
      var inner := segment[..|segment| - 2];
      SegmentPrinted(inner);
      BracketPrinted(inner, "." + inner);
      assert segment == inner + "[]";
      assert "." + inner + "[]" == "." + segment;
    } else {
      PlainPrinted(segment);
    }
  }

  lemma PlainPrinted(name: string)
    requires !EndsInBrackets(name)
    ensures Suffix(SegmentSteps(name)) == "." + name
  {
    assert SegmentSteps(name) == [Member(name)] + [];
    SuffixMore(Member(name), []);
  }

  function Dotted(segments: seq<string>): string {
    if segments == [] then "" else "." + segments[0] + Dotted(segments[1..])
  }

  lemma DottedMore(first: string, rest: seq<string>)
    ensures Dotted([first] + rest) == "." + first + Dotted(rest)
  {
    assert ([first] + rest)[1..] == rest;
  }

  lemma {:induction false} DottedAppend(a: seq<string>, s: string)
    ensures Dotted(a + [s]) == Dotted(a) + "." + s
  {
    if a == [] {
      assert Dotted([s]) == "." + s + Dotted([]);
    } else {
      DottedAppend(a[1..], s);
      assert (a + [s])[1..] == a[1..] + [s];
    }
  }

  lemma {:induction false} StepsDotted(segments: seq<string>)
    ensures Suffix(AllSteps(segments)) == Dotted(segments)
  {
    if segments != [] {
      var n := |segments| - 1;
      StepsDotted(segments[..n]);
      assert segments[..n] + [segments[n]] == segments;
      SuffixAppend(AllSteps(segments[..n]), SegmentSteps(segments[n]));
      SegmentPrinted(segments[n]);
      DottedAppend(segments[..n], segments[n]);
    }
  }

  lemma DottedHead(c: char, segments: seq<string>, s: string)
    requires segments != [] && Dotted(segments) == "." + s
    ensures Dotted([[c] + segments[0]] + segments[1..]) == "." + ([c] + s)
  {
    hide Dotted;
    var first, rest := segments[0], Dotted(segments[1..]);
    DottedMore(first, segments[1..]);
    DottedMore([c] + first, segments[1..]);
    assert [first] + segments[1..] == segments;
    Dotless(first, rest, s);
    assert "." + ([c] + first) + rest == "." + ([c] + (first + rest));
  }

  lemma Dotless(first: string, rest: string, s: string)
    requires "." + first + rest == "." + s
    ensures first + rest == s
  {
    assert ("." + first + rest)[1..] == first + rest && ("." + s)[1..] == s;
  }

  lemma {:induction false} SplitDotted(s: string)
    ensures Dotted(Split(s)) == "." + s
  {
    hide Dotted;
    if s == "" {
      DottedMore("", []);
      NothingDotted();
    } else {
      var rest := Split(s[1..]);
      SplitDotted(s[1..]);
      assert s == [s[0]] + s[1..];
      if s[0] == '.' {
        DottedMore("", rest);
      } else {
        DottedHead(s[0], rest, s[1..]);
      }
    }
  }

  lemma NothingDotted()
    ensures Dotted([]) == "" && Dotted([""]) == "."
  {
  }

  /** Printing undoes parsing for every text: distinct texts are distinct paths. */
  lemma PrintedParsed(path: string)
    ensures Parsed(path) != [] && Parsed(path)[0].Member? && Printed(Parsed(path)) == path
  {
    AllStepsClean(Split(path));
    StepsDotted(Split(path));
    SplitDotted(path);
  }

  // ----- schema expressions -----

  datatype Expr =
    | Wrapped(inner: Expr)                                         // `as`, `satisfies`, parentheses
    | MethodCall(receiver: Expr, name: string, arguments: seq<Expr>)
    | OtherCall
    | ObjectLiteral(entries: seq<Entry>)
    | ArrayLiteral(elements: seq<Expr>)
    | Access(owner: Expr, name: string)
    | Identifier(text: string)
    | OtherExpr

  /**
   An object entry: an assignment whose key reads as it is written; one whose key does not, such as a computed key
   `[K]: value`, with the text it is written with; a shorthand; or anything else.
   */
  datatype Entry =
    | Assigned(key: string, value: Expr)
    | ComputedKey(key: string, value: Expr)
    | Shorthand(key: string)
    | Irregular(text: string)
  {
    predicate IsAssignment() {
      Assigned? || ComputedKey?
    }
  }

  function Unwrap(e: Expr): (r: Expr)
    ensures r == e || r < e
    ensures !r.Wrapped?
  {
    if e.Wrapped? then Unwrap(e.inner) else e
  }

  predicate IsCall(e: Expr) {
    e.MethodCall? || e.OtherCall?
  }

  predicate TakesObject(call: Expr, name: string)
    requires call.MethodCall?
  {
    call.name == name && call.arguments != [] && call.arguments[0].ObjectLiteral?
  }

  predicate TakesArray(call: Expr, name: string)
    requires call.MethodCall?
  {
    call.name == name && call.arguments != [] && call.arguments[0].ArrayLiteral?
  }

  /** What the walk reports. */
  datatype Violation = NotWalkable | NotPlainKey(entry: Entry) | NotComposable(element: Expr) | NoBase(name: string)

  datatype Findings = Findings(keys: seq<string>, composes: seq<string>, violations: seq<Violation>) {
    function Then(more: Findings): Findings {
      Findings(keys + more.keys, composes + more.composes, violations + more.violations)
    }
  }

  const Nothing := Findings([], [], [])

  // ----- the paths printed below one value -----

  function ValuePaths(value: Expr, base: string): seq<string>
    decreases value
  {
    var call := Unwrap(value);
    if !call.MethodCall? then []
    else if TakesObject(call, "object") then EntryPaths(call.arguments[0].entries, base)
    else if call.name == "array" && call.arguments != [] then ValuePaths(call.arguments[0], base + "[]")
    else if IsCall(Unwrap(call.receiver)) then ValuePaths(Unwrap(call.receiver), base)
    else []
  }

  function EntryPaths(entries: seq<Entry>, base: string): seq<string>
    decreases entries
  {
    if entries == [] then []
    else
      (if entries[0].IsAssignment()
       then var path := base + "." + entries[0].key; [path] + ValuePaths(entries[0].value, path)
       else []) + EntryPaths(entries[1..], base)
  }

  // ----- the walk from the schema expression -----

  function TopPath(entry: Entry): Findings {
    match entry
    case Assigned(key, value) => Findings([key] + ValuePaths(value, key), [], [])
    case ComputedKey(key, value) => Findings([key] + ValuePaths(value, key), [], [])
    case Shorthand(key) => Findings([key], [], [])
    case Irregular(_) => Findings([], [], [NotPlainKey(entry)])
  }

  function TopPaths(entries: seq<Entry>): Findings {
    if entries == [] then Nothing else TopPath(entries[0]).Then(TopPaths(entries[1..]))
  }

  /** The workspace package whose `Config` an intersect element names. */
  function ComposedPackage(imports: map<string, string>, part: Expr): Option<string> {
    if part.Access? && part.name == "Config" && part.owner.Identifier? && part.owner.text in imports
       && !(imports[part.owner.text] != "" && imports[part.owner.text][0] == '.')
    then Some(imports[part.owner.text]) else None
  }

  function Walked(imports: map<string, string>, e: Expr): Findings
    decreases e, 0
  {
    var call := Unwrap(e);
    if !call.MethodCall? then Findings([], [], [NotWalkable])
    else if TakesObject(call, "object") then TopPaths(call.arguments[0].entries)
    else if TakesArray(call, "intersect") then WalkedParts(imports, call.arguments[0].elements, true)
    else if TakesArray(call, "union") then WalkedParts(imports, call.arguments[0].elements, false)
    else if IsCall(Unwrap(call.receiver)) then Walked(imports, Unwrap(call.receiver))
    else Findings([], [], [NoBase(call.name)])
  }

  /** The elements of an intersect, or the variants of a union, which may be dropped. */
  function WalkedParts(imports: map<string, string>, elements: seq<Expr>, strict: bool): Findings
    decreases elements
  {
    if elements == [] then Nothing
    else
      WalkedPart(imports, elements[0], strict).Then(WalkedParts(imports, elements[1..], strict))
  }

  function WalkedPart(imports: map<string, string>, element: Expr, strict: bool): Findings
    decreases element, 1
  {
    var part := Unwrap(element);
    if strict && ComposedPackage(imports, part).Some? then Findings([], [ComposedPackage(imports, part).value], [])
    else if IsCall(part) then Walked(imports, part)
    else if strict then Findings([], [], [NotComposable(part)])
    else Nothing
  }

  // ----- the walk in place -----

  class SchemaWalk {
    const imports: map<string, string>
    var keys: seq<string>
    var composes: seq<string>
    var violations: seq<Violation>

    constructor (imports: map<string, string>)
      ensures this.imports == imports && Reported() == Nothing
    {
      this.imports := imports;
      keys, composes, violations := [], [], [];
    }

    function Reported(): Findings
      reads this
    {
      Findings(keys, composes, violations)
    }

    method CollectValuePaths(value: Expr, base: string)
      modifies this`keys
      ensures keys == old(keys) + ValuePaths(value, base)
      decreases value
    {
      var call := Unwrap(value);
      if !call.MethodCall? {
        return;
      }
      if TakesObject(call, "object") {
        CollectEntryPaths(call.arguments[0].entries, base);
        return;
      }
      if call.name == "array" && call.arguments != [] {
        CollectValuePaths(call.arguments[0], base + "[]");
        return;
      }
      var inner := Unwrap(call.receiver);
      if IsCall(inner) {
        CollectValuePaths(inner, base);
      }
    }

    method CollectEntryPaths(entries: seq<Entry>, base: string)
      modifies this`keys
      ensures keys == old(keys) + EntryPaths(entries, base)
      decreases entries
    {
      for i := 0 to |entries|
        invariant keys + EntryPaths(entries[i..], base) == old(keys) + EntryPaths(entries, base)
      {
        ghost var before := keys;
        if entries[i].IsAssignment() {
          var path := base + "." + entries[i].key;
          keys := keys + [path];
          CollectValuePaths(entries[i].value, path);
          assert keys == before + ([path] + ValuePaths(entries[i].value, path));
        }
        assert entries[i..][1..] == entries[i + 1..];
      }
    }

    method CollectTopPaths(entries: seq<Entry>)
      modifies this
      ensures Reported() == old(Reported()).Then(TopPaths(entries))
    {
      for i := 0 to |entries|
        invariant Reported().Then(TopPaths(entries[i..])) == old(Reported()).Then(TopPaths(entries))
      {
        ghost var before := Reported();
        CollectTopPath(entries[i]);
        assert entries[i..][1..] == entries[i + 1..];
        ThenThen(before, TopPath(entries[i]), TopPaths(entries[i + 1..]));
      }
    }

    method CollectTopPath(entry: Entry)
      modifies this
      ensures Reported() == old(Reported()).Then(TopPath(entry))
    {
      if entry.Irregular? {
        violations := violations + [NotPlainKey(entry)];
      } else {
        keys := keys + [entry.key];
        if entry.IsAssignment() {
          CollectValuePaths(entry.value, entry.key);
          assert keys == old(keys) + ([entry.key] + ValuePaths(entry.value, entry.key));
        }
      }
    }

    method Visit(e: Expr)
      modifies this
      ensures Reported() == old(Reported()).Then(Walked(imports, e))
      decreases e, 1
    {
      var call := Unwrap(e);
      if !call.MethodCall? {
        violations := violations + [NotWalkable];
      } else if TakesObject(call, "object") {
        CollectTopPaths(call.arguments[0].entries);
      } else if TakesArray(call, "intersect") {
        VisitParts(call.arguments[0].elements, true);
      } else if TakesArray(call, "union") {
        VisitParts(call.arguments[0].elements, false);
      } else if IsCall(Unwrap(call.receiver)) {
        Visit(Unwrap(call.receiver));
      } else {
        violations := violations + [NoBase(call.name)];
      }
    }

    method VisitParts(elements: seq<Expr>, strict: bool)
      modifies this
      ensures Reported() == old(Reported()).Then(WalkedParts(imports, elements, strict))
      decreases elements, 0
    {
      hide Reported, WalkedPart, WalkedParts;
      for i := 0 to |elements|
        invariant Reported().Then(WalkedParts(imports, elements[i..], strict))
          == old(Reported()).Then(WalkedParts(imports, elements, strict))
      {
        ghost var before := Reported();
        VisitPart(elements[i], strict);
        OnePart(imports, elements, i, strict, before);
      }
      NoParts(imports, elements[|elements|..], strict, Reported());
    }

    method VisitPart(element: Expr, strict: bool)
      modifies this
      ensures Reported() == old(Reported()).Then(WalkedPart(imports, element, strict))
      decreases element, 2
    {
      var part := Unwrap(element);
      var composed := ComposedPackage(imports, part);
      if strict && composed.Some? {
        composes := composes + [composed.value];
      } else if IsCall(part) {
        Visit(part);
      } else if strict {
        violations := violations + [NotComposable(part)];
      }
    }
  }

  /** What one more element adds, in front of what the rest adds. */
  lemma OnePart(imports: map<string, string>, elements: seq<Expr>, i: nat, strict: bool, before: Findings)
    requires i < |elements|
    ensures before.Then(WalkedParts(imports, elements[i..], strict))
         == before.Then(WalkedPart(imports, elements[i], strict)).Then(WalkedParts(imports, elements[i + 1..], strict))
  {
    hide WalkedPart;
    assert elements[i..][1..] == elements[i + 1..];
    ThenThen(before, WalkedPart(imports, elements[i], strict), WalkedParts(imports, elements[i + 1..], strict));
  }

  lemma NoParts(imports: map<string, string>, elements: seq<Expr>, strict: bool, before: Findings)
    requires elements == []
    ensures before.Then(WalkedParts(imports, elements, strict)) == before
  {
  }

  lemma ThenThen(a: Findings, b: Findings, c: Findings)
    ensures a.Then(b).Then(c) == a.Then(b.Then(c)) && a.Then(Nothing) == a
  {
    assert (a.keys + b.keys) + c.keys == a.keys + (b.keys + c.keys);
  }

  // ----- what the walk descends into -----

  /** What a value's refinements hang off: an object's entries, an array's element, or neither. */
  datatype Shape = Fields(entries: seq<Entry>) | Items(element: Expr) | Flat

  function ShapeOf(value: Expr): (shape: Shape)
    ensures shape.Fields? ==>
      forall i :: 0 <= i < |shape.entries| && shape.entries[i].IsAssignment() ==> shape.entries[i].value < value
    ensures shape.Items? ==> shape.element < value
  {
    var call := Unwrap(value);
    if !call.MethodCall? then Flat
    else if TakesObject(call, "object") then Fields(call.arguments[0].entries)
    else if call.name == "array" && call.arguments != [] then Items(call.arguments[0])
    else ShapeOf(call.receiver)
  }

  /** There is a member, reached through members and array elements of the value, at these steps. */
  ghost predicate HasPath(value: Expr, steps: Path)
    decreases value
  {
    steps != [] &&
    match ShapeOf(value)
    case Flat => false
    case Items(element) => steps[0].Element? && HasPath(element, steps[1..])
    case Fields(entries) =>
      exists i :: 0 <= i < |entries| && entries[i].IsAssignment() && steps[0] == Member(entries[i].key)
        && (|steps| == 1 || HasPath(entries[i].value, steps[1..]))
  }

  /** The walk descends into one entry of a top-level object by these steps. */
  ghost predicate EntryDescends(entry: Entry, steps: Path) {
    !entry.Irregular? && steps != [] && steps[0] == Member(entry.key)
    && (|steps| == 1 || (entry.IsAssignment() && HasPath(entry.value, steps[1..])))
  }

  /** The walk descends by these steps into the schema, or into a part it intersects or unites. */
  ghost predicate Descends(e: Expr, steps: Path)
    ensures Descends(e, steps) ==> steps != [] && steps[0].Member?
    decreases e
  {
    var call := Unwrap(e);
    call.MethodCall? &&
    if TakesObject(call, "object") then
      exists i :: 0 <= i < |call.arguments[0].entries| && EntryDescends(call.arguments[0].entries[i], steps)
    else if TakesArray(call, "intersect") || TakesArray(call, "union") then
      exists i :: 0 <= i < |call.arguments[0].elements| && Descends(call.arguments[0].elements[i], steps)
    else Descends(call.receiver, steps)
  }

  // ----- the paths printed are the paths descended -----

  lemma {:induction false} EntryPathIn(entries: seq<Entry>, base: string, i: nat, path: string)
    requires i < |entries| && entries[i].IsAssignment()
    requires var p := base + "." + entries[i].key; path == p || path in ValuePaths(entries[i].value, p)
    ensures path in EntryPaths(entries, base)
  {
    if i > 0 {
      EntryPathIn(entries[1..], base, i - 1, path);
    }
  }

  lemma {:induction false} EntryPathFrom(entries: seq<Entry>, base: string, path: string) returns (i: nat)
    requires path in EntryPaths(entries, base)
    ensures i < |entries| && entries[i].IsAssignment()
    ensures var p := base + "." + entries[i].key; path == p || path in ValuePaths(entries[i].value, p)
  {
    var first := entries[0];
    if first.IsAssignment() && (path == base + "." + first.key
         || path in ValuePaths(first.value, base + "." + first.key)) {
      i := 0;
    } else {
      var j := EntryPathFrom(entries[1..], base, path);
      i := j + 1;
    }
  }

  lemma {:induction false} ValuePathsByShape(value: Expr, base: string)
    ensures ValuePaths(value, base) ==
      match ShapeOf(value)
      case Flat => []
      case Items(element) => ValuePaths(element, base + "[]")
      case Fields(entries) => EntryPaths(entries, base)
  {
    var call := Unwrap(value);
    if call.MethodCall? {
      if !TakesObject(call, "object") && !(call.name == "array" && call.arguments != []) {
        ValuePathsByShape(call.receiver, base);
      }
    }
  }

  lemma BaseSuffix(base: string, first: Step, rest: Path)
    ensures base + Suffix([first] + rest) == (base + Text(first)) + Suffix(rest)
    ensures Suffix([first]) == Text(first)
  {
    SuffixMore(first, rest);
    SuffixMore(first, []);
  }

  lemma {:induction false} PathPrinted(value: Expr, base: string, steps: Path)
    requires HasPath(value, steps)
    ensures base + Suffix(steps) in ValuePaths(value, base)
    decreases value
  {
    hide Suffix;
    ValuePathsByShape(value, base);
    BaseSuffix(base, steps[0], steps[1..]);
    assert [steps[0]] + steps[1..] == steps;
    var shape := ShapeOf(value);
    if shape.Items? {
      PathPrinted(shape.element, base + "[]", steps[1..]);
    } else {
      var entries := shape.entries;
      var i :| 0 <= i < |entries| && entries[i].IsAssignment() && steps[0] == Member(entries[i].key)
        && (|steps| == 1 || HasPath(entries[i].value, steps[1..]));
      var path := base + Text(steps[0]);
      assert path == base + "." + entries[i].key;
      if |steps| == 1 {
        assert [steps[0]] == steps;
      } else {
        PathPrinted(entries[i].value, path, steps[1..]);
      }
      EntryPathIn(entries, base, i, base + Suffix(steps));
    }
  }

  lemma ElementHas(value: Expr, rest: Path)
    requires ShapeOf(value).Items? && HasPath(ShapeOf(value).element, rest)
    ensures HasPath(value, [Element] + rest)
  {
    assert ([Element] + rest)[1..] == rest;
  }

  lemma EntryHas(value: Expr, i: nat, rest: Path)
    requires ShapeOf(value).Fields? && i < |ShapeOf(value).entries| && ShapeOf(value).entries[i].IsAssignment()
    requires rest == [] || HasPath(ShapeOf(value).entries[i].value, rest)
    ensures HasPath(value, [Member(ShapeOf(value).entries[i].key)] + rest)
  {
    assert ([Member(ShapeOf(value).entries[i].key)] + rest)[1..] == rest;
  }

  lemma {:induction false} PrintedPath(value: Expr, base: string, path: string) returns (steps: Path)
    requires path in ValuePaths(value, base)
    ensures HasPath(value, steps) && path == base + Suffix(steps)
    decreases value
  {
    hide Suffix, HasPath, ValuePaths, EntryPaths;
    ValuePathsByShape(value, base);
    var shape := ShapeOf(value);
    if shape.Items? {
      var rest := PrintedPath(shape.element, base + "[]", path);
      steps := [Element] + rest;
      BaseSuffix(base, Element, rest);
      ElementHas(value, rest);
    } else if shape.Flat? {
      assert false;
    } else {
      var i := EntryPathFrom(shape.entries, base, path);
      var first := Member(shape.entries[i].key);
      var longer := base + Text(first);
      assert longer == base + "." + shape.entries[i].key;
      var rest := [];
      if path == longer {
        NoSuffix();
      } else {
        rest := PrintedPath(shape.entries[i].value, longer, path);
      }
      steps := [first] + rest;
      BaseSuffix(base, first, rest);
      EntryHas(value, i, rest);
      assert path == longer + Suffix(rest);
    }
  }

  lemma PrintedMember(name: string, rest: Path)
    ensures Printed([Member(name)] + rest) == name + Suffix(rest)
  {
    PrintedOne(name);
    PrintedAppend([Member(name)], rest);
  }

  lemma TopPrinted(entry: Entry, steps: Path)
    requires EntryDescends(entry, steps)
    ensures Printed(steps) in TopPath(entry).keys
  {
    hide Printed, Suffix;
    assert [Member(entry.key)] + steps[1..] == steps;
    PrintedMember(entry.key, steps[1..]);
    if |steps| == 1 {
      assert steps == [Member(entry.key)];
      PrintedOne(entry.key);
    } else {
      PathPrinted(entry.value, entry.key, steps[1..]);
    }
  }

  lemma PrintedTop(entry: Entry, path: string) returns (steps: Path)
    requires path in TopPath(entry).keys
    ensures EntryDescends(entry, steps) && path == Printed(steps)
  {
    hide Printed, Suffix;
    steps := [Member(entry.key)];
    PrintedOne(entry.key);
    if path != entry.key {
      var rest := PrintedPath(entry.value, entry.key, path);
      steps := [Member(entry.key)] + rest;
      PrintedMember(entry.key, rest);
      assert steps[1..] == rest;
    }
  }

  lemma {:induction false} TopPathsAre(entries: seq<Entry>, path: string)
    ensures path in TopPaths(entries).keys <==> exists i :: 0 <= i < |entries| && path in TopPath(entries[i]).keys
  {
    hide TopPath;
    if entries != [] {
      TopPathsAre(entries[1..], path);
      if path in TopPaths(entries[1..]).keys {
        var i :| 0 <= i < |entries[1..]| && path in TopPath(entries[1..][i]).keys;
        assert entries[i + 1] == entries[1..][i];
      }
      forall i | 0 < i < |entries| && path in TopPath(entries[i]).keys
        ensures path in TopPaths(entries[1..]).keys
      {
        assert entries[i] == entries[1..][i - 1];
      }
    }
  }

  lemma {:induction false} WalkedPartsAre(imports: map<string, string>, elements: seq<Expr>, strict: bool, path: string)
    ensures path in WalkedParts(imports, elements, strict).keys <==>
      exists i :: 0 <= i < |elements| && path in WalkedPart(imports, elements[i], strict).keys
  {
    hide WalkedPart;
    if elements != [] {
      WalkedPartsAre(imports, elements[1..], strict, path);
      if path in WalkedParts(imports, elements[1..], strict).keys {
        var i :| 0 <= i < |elements[1..]| && path in WalkedPart(imports, elements[1..][i], strict).keys;
        assert elements[i + 1] == elements[1..][i];
      }
      forall i | 0 < i < |elements| && path in WalkedPart(imports, elements[i], strict).keys
        ensures path in WalkedParts(imports, elements[1..], strict).keys
      {
        assert elements[i] == elements[1..][i - 1];
      }
    }
  }

  ghost predicate IsDescended(e: Expr, path: string) {
    exists steps :: Descends(e, steps) && Printed(steps) == path
  }

  lemma PartWalked(imports: map<string, string>, element: Expr, strict: bool, path: string)
    ensures path in WalkedPart(imports, element, strict).keys <==> path in Walked(imports, element).keys
  {
    assert Unwrap(Unwrap(element)) == Unwrap(element);
  }

  lemma {:induction false} DescentIsPrinted(imports: map<string, string>, e: Expr, steps: Path)
    requires Descends(e, steps)
    ensures Printed(steps) in Walked(imports, e).keys
    decreases e
  {
    hide Printed, TopPath, WalkedPart, EntryDescends;
    var call := Unwrap(e);
    var path := Printed(steps);
    if TakesObject(call, "object") {
      var entries := call.arguments[0].entries;
      var i :| 0 <= i < |entries| && EntryDescends(entries[i], steps);
      TopPrinted(entries[i], steps);
      TopPathsAre(entries, path);
    } else if TakesArray(call, "intersect") || TakesArray(call, "union") {
      var elements := call.arguments[0].elements;
      var strict := call.name == "intersect";
      var i :| 0 <= i < |elements| && Descends(elements[i], steps);
      DescentIsPrinted(imports, elements[i], steps);
      PartWalked(imports, elements[i], strict, path);
      WalkedPartsAre(imports, elements, strict, path);
    } else {
      DescentIsPrinted(imports, call.receiver, steps);
      PartWalked(imports, call.receiver, false, path);
      assert Unwrap(Unwrap(call.receiver)) == Unwrap(call.receiver);
    }
  }

  lemma {:induction false} PrintedIsDescended(imports: map<string, string>, e: Expr, path: string) returns (steps: Path)
    requires path in Walked(imports, e).keys
    ensures Descends(e, steps) && Printed(steps) == path
    decreases e
  {
    hide Printed, TopPath, WalkedPart, EntryDescends;
    var call := Unwrap(e);
    if TakesObject(call, "object") {
      var entries := call.arguments[0].entries;
      TopPathsAre(entries, path);
      var i :| 0 <= i < |entries| && path in TopPath(entries[i]).keys;
      steps := PrintedTop(entries[i], path);
    } else if TakesArray(call, "intersect") || TakesArray(call, "union") {
      var elements := call.arguments[0].elements;
      var strict := call.name == "intersect";
      WalkedPartsAre(imports, elements, strict, path);
      var i :| 0 <= i < |elements| && path in WalkedPart(imports, elements[i], strict).keys;
      PartWalked(imports, elements[i], strict, path);
      steps := PrintedIsDescended(imports, elements[i], path);
    } else {
      assert Unwrap(Unwrap(call.receiver)) == Unwrap(call.receiver);
      steps := PrintedIsDescended(imports, call.receiver, path);
    }
  }

  /** The walk prints exactly the paths it descends by, whatever the imports. */
  lemma WalkPrintsDescents(imports: map<string, string>, e: Expr)
    ensures forall path :: path in Walked(imports, e).keys <==> IsDescended(e, path)
  {
    forall path ensures path in Walked(imports, e).keys <==> IsDescended(e, path) {
      if path in Walked(imports, e).keys {
        var steps := PrintedIsDescended(imports, e, path);
      }
      if IsDescended(e, path) {
        var steps :| Descends(e, steps) && Printed(steps) == path;
        DescentIsPrinted(imports, e, steps);
      }
    }
  }

  // ----- the packages composed and the violations reported -----

  datatype Finding = Composed(specifier: string) | Reported(violation: Violation)

  ghost predicate Has(found: Findings, x: Finding) {
    match x
    case Composed(specifier) => specifier in found.composes
    case Reported(violation) => violation in found.violations
  }

  /** The walk of `e` comes to this base expression: a chain's base, an inline intersect element or a union variant. */
  ghost predicate ComesTo(e: Expr, base: Expr)
    decreases e
  {
    var call := Unwrap(e);
    if !call.MethodCall? || TakesObject(call, "object") then base == call
    else if TakesArray(call, "intersect") || TakesArray(call, "union") then
      base == call
      || (exists i :: 0 <= i < |call.arguments[0].elements| && IsCall(Unwrap(call.arguments[0].elements[i]))
            && ComesTo(call.arguments[0].elements[i], base))
    else if IsCall(Unwrap(call.receiver)) then ComesTo(call.receiver, base)
    else base == call
  }

  /** The element is written `X.Config`, for an `X` that is not imported from a relative path. */
  ghost predicate IsComposedConfig(imports: map<string, string>, part: Expr) {
    && (exists owner :: part == Access(Identifier(owner), "Config"))
    && part.owner.text in imports && (imports[part.owner.text] == "" || imports[part.owner.text][0] != '.')
  }

  /** What an intersect element that is not a call gives. */
  ghost predicate PartGives(imports: map<string, string>, part: Expr, x: Finding) {
    if IsComposedConfig(imports, part) then x == Composed(imports[part.owner.text])
    else !IsCall(part) && x == Reported(NotComposable(part))
  }

  /** What one base expression gives by itself. */
  ghost predicate Gives(imports: map<string, string>, base: Expr, x: Finding) {
    if !base.MethodCall? then x == Reported(NotWalkable)
    else if TakesObject(base, "object") then
      exists i :: 0 <= i < |base.arguments[0].entries| && base.arguments[0].entries[i].Irregular?
        && x == Reported(NotPlainKey(base.arguments[0].entries[i]))
    else if TakesArray(base, "intersect") then
      exists i :: 0 <= i < |base.arguments[0].elements| && PartGives(imports, Unwrap(base.arguments[0].elements[i]), x)
    else !TakesArray(base, "union") && x == Reported(NoBase(base.name))
  }

  ghost predicate GivenSomewhere(imports: map<string, string>, e: Expr, x: Finding) {
    exists base :: ComesTo(e, base) && Gives(imports, base, x)
  }

  lemma ThenHas(a: Findings, b: Findings, x: Finding)
    ensures Has(a.Then(b), x) <==> Has(a, x) || Has(b, x)
  {
  }

  lemma {:induction false} TopPathsHave(entries: seq<Entry>, x: Finding)
    ensures Has(TopPaths(entries), x) <==>
      exists i :: 0 <= i < |entries| && entries[i].Irregular? && x == Reported(NotPlainKey(entries[i]))
  {
    if entries != [] {
      TopPathsHave(entries[1..], x);
      ThenHas(TopPath(entries[0]), TopPaths(entries[1..]), x);
      assert entries == [entries[0]] + entries[1..];
    }
  }

  lemma {:induction false} WalkedPartsHave(imports: map<string, string>, elements: seq<Expr>, strict: bool, x: Finding)
    ensures Has(WalkedParts(imports, elements, strict), x) <==>
      exists i :: 0 <= i < |elements| && Has(WalkedPart(imports, elements[i], strict), x)
  {
    hide WalkedPart;
    if elements != [] {
      hide Has;
      WalkedPartsHave(imports, elements[1..], strict, x);
      ThenHas(WalkedPart(imports, elements[0], strict), WalkedParts(imports, elements[1..], strict), x);
      assert elements == [elements[0]] + elements[1..];
    }
  }

  /** One element: what it gives itself, or what the walk finds in it. */
  lemma PartHas(imports: map<string, string>, element: Expr, strict: bool, x: Finding)
    ensures var part := Unwrap(element);
            Has(WalkedPart(imports, element, strict), x) <==>
              (strict && PartGives(imports, part, x)) || (IsCall(part) && Has(Walked(imports, element), x))
  {
    hide Walked;
    WalkedUnwraps(imports, element);
  }

  lemma WalkedUnwraps(imports: map<string, string>, e: Expr)
    ensures Walked(imports, Unwrap(e)) == Walked(imports, e)
  {
    assert Unwrap(Unwrap(e)) == Unwrap(e);
  }

  lemma OneBase(imports: map<string, string>, e: Expr, base: Expr, x: Finding)
    requires forall b :: ComesTo(e, b) <==> b == base
    ensures GivenSomewhere(imports, e, x) <==> Gives(imports, base, x)
  {
    hide ComesTo, Gives;
  }

  lemma PartsGive(imports: map<string, string>, e: Expr, elements: seq<Expr>, x: Finding)
    requires var call := Unwrap(e); call.MethodCall? && !TakesObject(call, "object")
    requires var call := Unwrap(e);
       (TakesArray(call, "intersect") || TakesArray(call, "union")) && call.arguments[0].elements == elements
    ensures GivenSomewhere(imports, e, x) <==>
      Gives(imports, Unwrap(e), x)
      || exists i :: 0 <= i < |elements| && IsCall(Unwrap(elements[i])) && GivenSomewhere(imports, elements[i], x)
  {
    hide Gives;
    forall base | ComesTo(e, base) && Gives(imports, base, x)
      ensures Gives(imports, Unwrap(e), x)
        || exists i :: 0 <= i < |elements| && IsCall(Unwrap(elements[i])) && GivenSomewhere(imports, elements[i], x)
    {
    }
    forall i | 0 <= i < |elements| && IsCall(Unwrap(elements[i])) && GivenSomewhere(imports, elements[i], x)
      ensures GivenSomewhere(imports, e, x)
    {
      var base :| ComesTo(elements[i], base) && Gives(imports, base, x);
      assert ComesTo(e, base);
    }
    assert ComesTo(e, Unwrap(e));
  }

  /** The walk composes and reports exactly what the base expressions it comes to give by themselves. */
  lemma {:induction false} WalkFindsGiven(imports: map<string, string>, e: Expr, x: Finding)
    ensures Has(Walked(imports, e), x) <==> GivenSomewhere(imports, e, x)
    decreases e, 1
  {
    var call := Unwrap(e);
    if call.MethodCall? && TakesObject(call, "object") {
      TopPathsHave(call.arguments[0].entries, x);
      OneBase(imports, e, call, x);
    } else if call.MethodCall? && (TakesArray(call, "intersect") || TakesArray(call, "union")) {
      PartsFindGiven(imports, e, call.arguments[0].elements, x);
    } else if call.MethodCall? && IsCall(Unwrap(call.receiver)) {
      WalkFindsGiven(imports, call.receiver, x);
      WalkedUnwraps(imports, call.receiver);
      assert forall b :: ComesTo(e, b) <==> ComesTo(call.receiver, b);
    } else {
      OneBase(imports, e, call, x);
    }
  }

  lemma {:induction false} PartsFindGiven(imports: map<string, string>, e: Expr, elements: seq<Expr>, x: Finding)
    requires var call := Unwrap(e); call.MethodCall? && !TakesObject(call, "object")
    requires var call := Unwrap(e);
       (TakesArray(call, "intersect") || TakesArray(call, "union")) && call.arguments[0].elements == elements
    ensures Has(Walked(imports, e), x) <==> GivenSomewhere(imports, e, x)
    decreases e, 0
  {
    hide WalkedParts, WalkedPart, Has, GivenSomewhere, PartGives;
    var call := Unwrap(e);
    var strict := call.name == "intersect";
    WalkedPartsHave(imports, elements, strict, x);
    PartsGive(imports, e, elements, x);
    forall i | 0 <= i < |elements|
      ensures Has(WalkedPart(imports, elements[i], strict), x) <==>
        (strict && PartGives(imports, Unwrap(elements[i]), x))
        || (IsCall(Unwrap(elements[i])) && GivenSomewhere(imports, elements[i], x))
    {
      PartHas(imports, elements[i], strict, x);
      WalkFindsGiven(imports, elements[i], x);
    }
  }

  // ----- reading the printed paths back -----

  ghost predicate DescendsClean(e: Expr) {
    forall steps :: Descends(e, steps) ==> AllClean(steps)
  }

  /** Every path the walk descends by reads back as itself exactly when all member names on the way are clean. */
  lemma DescentRoundTripIff(e: Expr)
    ensures DescendsClean(e) <==> forall steps :: Descends(e, steps) ==> Parsed(Printed(steps)) == steps
  {
    forall steps | Descends(e, steps) ensures Parsed(Printed(steps)) == steps <==> AllClean(steps) {
      RoundTripIff(steps);
    }
  }

  /** With clean names, parsing the printed paths gives back exactly the ones descended by. */
  lemma PrintedPathsParse(imports: map<string, string>, e: Expr, steps: Path)
    requires DescendsClean(e)
    requires steps != [] && steps[0].Member?
    ensures Descends(e, steps) <==> exists path :: path in Walked(imports, e).keys && Parsed(path) == steps
  {
    hide Printed, Parsed, Descends;
    DescentRoundTripIff(e);
    WalkPrintsDescents(imports, e);
    if Descends(e, steps) {
      assert IsDescended(e, Printed(steps));
      assert Printed(steps) in Walked(imports, e).keys;
    }
    forall path | path in Walked(imports, e).keys && Parsed(path) == steps
      ensures Descends(e, steps)
    {
      assert IsDescended(e, path);
    }
  }

  function ObjectOf(entries: seq<Entry>): Expr {
    MethodCall(Identifier("z"), "object", [ObjectLiteral(entries)])
  }

  const Collision := [Assigned("a", ObjectOf([Assigned("b", OtherExpr)])), Assigned("a.b", OtherExpr)]

  /** A dotted key prints the path of a nested one, and reads back as the nested one. */
  lemma DottedKeysCollide()
    ensures Descends(ObjectOf(Collision), [Member("a"), Member("b")])
    ensures Descends(ObjectOf(Collision), [Member("a.b")])
    ensures Printed([Member("a"), Member("b")]) == Printed([Member("a.b")])
    ensures Parsed(Printed([Member("a.b")])) == [Member("a"), Member("b")]
  {
    hide Parsed, Printed;
    var nested := [Member("a"), Member("b")];
    var inner := Collision[0].value;
    assert ShapeOf(inner) == Fields([Assigned("b", OtherExpr)]);
    assert nested[1..] == [Member("b")];
    ghost var leaf := [Assigned("b", OtherExpr)];
    assert leaf[0].IsAssignment() && Member("b") == Member(leaf[0].key);
    assert HasPath(inner, [Member("b")]);
    assert EntryDescends(Collision[0], nested);
    assert EntryDescends(Collision[1], [Member("a.b")]);
    PrintedOne("a");
    PrintedOne("a.b");
    PrintedMore([Member("a")], Member("b"));
    assert [Member("a")] + [Member("b")] == nested;
    ParsedPrinted(nested);
  }

  lemma {:induction false} WalkedPartsAppend(imports: map<string, string>, a: seq<Expr>, b: seq<Expr>, strict: bool)
    ensures WalkedParts(imports, a + b, strict)
         == WalkedParts(imports, a, strict).Then(WalkedParts(imports, b, strict))
  {
    hide WalkedPart;
    if a == [] {
      assert a + b == b;
    } else {
      WalkedPartsAppend(imports, a[1..], b, strict);
      assert (a + b)[1..] == a[1..] + b;
      ThenThen(WalkedPart(imports, a[0], strict), WalkedParts(imports, a[1..], strict),
        WalkedParts(imports, b, strict));
    }
  }

  /** An element that is no call is recorded or reported in an intersect, and passed over in a union. */
  lemma UnionDropsVariant(imports: map<string, string>, before: seq<Expr>, element: Expr, after: seq<Expr>)
    requires !IsCall(Unwrap(element))
    ensures WalkedParts(imports, before + ([element] + after), false) == WalkedParts(imports, before + after, false)
    ensures var found := WalkedPart(imports, element, true);
            && WalkedParts(imports, before + ([element] + after), true)
               == WalkedParts(imports, before, true).Then(found.Then(WalkedParts(imports, after, true)))
            && found.keys == [] && |found.composes| + |found.violations| == 1
  {
    hide WalkedParts;
    WalkedPartsFirst(imports, element, after, false);
    WalkedPartsFirst(imports, element, after, true);
    WalkedPartsAppend(imports, before, [element] + after, false);
    WalkedPartsAppend(imports, before, [element] + after, true);
    WalkedPartsAppend(imports, before, after, false);
    NothingThen(WalkedParts(imports, after, false));
  }

  lemma WalkedPartsFirst(imports: map<string, string>, first: Expr, rest: seq<Expr>, strict: bool)
    ensures WalkedParts(imports, [first] + rest, strict)
         == WalkedPart(imports, first, strict).Then(WalkedParts(imports, rest, strict))
  {
    assert ([first] + rest)[1..] == rest;
  }

  lemma NothingThen(f: Findings)
    ensures Nothing.Then(f) == f
  {
  }
}
