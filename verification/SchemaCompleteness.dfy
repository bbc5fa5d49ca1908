/**
 Whether the schema walk prints all that a schema declares. A declared path is a top-level key, or a nested path
 through object and array compositions; what stands for keys the walk cannot see is left open.
 */
module SchemaCompleteness {
  import opened TypePaths
  import opened SchemaPaths

  // ----- what a schema declares -----

  /**
   How a schema is read: which name stands for schemastery, and whether a value that is not written out as a
   composition, such as a name or the call of a helper, may stand for one all the same.
   */
  datatype View = View(z: string, names: bool)

  /** The factories that compose neither an object nor an array: primitives, unions, tuples and dynamic-key dicts. */
  const PLAIN := {
    "any", "never", "const", "string", "number", "natural", "percent", "boolean", "date", "regExp", "arrayBuffer",
    "bitset", "function", "is", "dict", "tuple", "union"}

  /** The chained calls that only refine a schema; others, such as `set` and `push`, change what it declares. */
  const REFINEMENTS := {
    "required", "disabled", "collapse", "hidden", "loose", "deprecated", "experimental", "pattern", "role", "extra",
    "default", "link", "comment", "description", "max", "min", "step", "i18n"}

  /** A call on schemastery itself. */
  predicate IsFactory(view: View, call: Expr)
    requires call.MethodCall?
  {
    Unwrap(call.receiver) == Identifier(view.z)
  }

  predicate IsChained(call: Expr)
    requires call.MethodCall?
  {
    IsCall(Unwrap(call.receiver))
  }

  /** A call that is written like a composition of what it is given. */
  predicate LooksComposed(call: Expr)
    requires call.MethodCall?
  {
    call.arguments != [] && (call.name == "object" || call.name == "array")
  }

  /** A piece that may declare keys without naming them: an irregular object entry, or an expression. */
  datatype Piece = Spread(entry: Entry) | Unseen(e: Expr)

  /** A path that starts with a member. */
  datatype KeyPath = KeyPath(name: string, rest: Path) {
    function Steps(): (steps: Path)
      ensures steps != []
    {
      [Member(name)] + rest
    }
  }

  /** What the unseen pieces declare. */
  type Guess = Piece -> seq<KeyPath>

  predicate Proper(paths: seq<Path>) {
    forall i :: 0 <= i < |paths| ==> paths[i] != []
  }

  function StepsOf(paths: seq<KeyPath>): (all: seq<Path>)
    ensures |all| == |paths| && Proper(all)
  {
    if paths == [] then [] else [paths[0].Steps()] + StepsOf(paths[1..])
  }

  /** The paths behind one more step. */
  function Behind(step: Step, paths: seq<Path>): (all: seq<Path>)
    ensures |all| == |paths| && Proper(all)
  {
    if paths == [] then [] else [[step] + paths[0]] + Behind(step, paths[1..])
  }

  /** What a value that is not written out as a composition declares. */
  function Open(view: View, guess: Guess, value: Expr): (paths: seq<Path>)
    ensures Proper(paths)
  {
    if view.names then StepsOf(guess(Unseen(value))) else []
  }

  /** The paths below a value, in order; a value that composes neither an object nor an array has none. */
  function Below(view: View, guess: Guess, value: Expr): (paths: seq<Path>)
    ensures Proper(paths)
    decreases value
  {
    var call := Unwrap(value);
    if !call.MethodCall? then Open(view, guess, call)
    else if IsFactory(view, call) then
      if TakesObject(call, "object") then EntriesDeclare(view, guess, call.arguments[0].entries)
      else if call.name == "array" && call.arguments != [] then Behind(Element, Below(view, guess, call.arguments[0]))
      else if LooksComposed(call) then StepsOf(guess(Unseen(call)))
      else if call.name in PLAIN then []
      else Open(view, guess, call)
    else if IsChained(call) then
      if call.name in REFINEMENTS then Below(view, guess, Unwrap(call.receiver)) else StepsOf(guess(Unseen(call)))
    else if LooksComposed(call) then StepsOf(guess(Unseen(call)))
    else Open(view, guess, call)
  }

  function EntryDeclares(view: View, guess: Guess, entry: Entry): (paths: seq<Path>)
    ensures Proper(paths)
    decreases entry
  {
    match entry
    case Assigned(key, value) => [[Member(key)]] + Behind(Member(key), Below(view, guess, value))
    case ComputedKey(_, _) => StepsOf(guess(Spread(entry)))
    case Shorthand(key) =>
      [[Member(key)]] + Behind(Member(key), if view.names then StepsOf(guess(Spread(entry))) else [])
    case Irregular(_) => StepsOf(guess(Spread(entry)))
  }

  function EntriesDeclare(view: View, guess: Guess, entries: seq<Entry>): (paths: seq<Path>)
    ensures Proper(paths)
    decreases entries
  {
    if entries == [] then [] else EntryDeclares(view, guess, entries[0]) + EntriesDeclare(view, guess, entries[1..])
  }

  /** The paths the schema declares, in order. A package that an intersect composes declares its own elsewhere. */
  function Declared(view: View, guess: Guess, imports: map<string, string>, e: Expr): (paths: seq<Path>)
    ensures Proper(paths)
    decreases e, 0
  {
    var call := Unwrap(e);
    if !call.MethodCall? then StepsOf(guess(Unseen(call)))
    else if IsFactory(view, call) then
      if TakesObject(call, "object") then EntriesDeclare(view, guess, call.arguments[0].entries)
      else if TakesArray(call, "intersect") then PartsDeclare(view, guess, imports, call.arguments[0].elements, true)
      else if TakesArray(call, "union") then PartsDeclare(view, guess, imports, call.arguments[0].elements, false)
      else StepsOf(guess(Unseen(call)))
    else if IsChained(call) && call.name in REFINEMENTS then Declared(view, guess, imports, Unwrap(call.receiver))
    else StepsOf(guess(Unseen(call)))
  }

  function PartsDeclare(view: View, guess: Guess, imports: map<string, string>, parts: seq<Expr>, intersected: bool):
    (paths: seq<Path>)
    ensures Proper(paths)
    decreases parts
  {
    if parts == [] then []
    else
      (if intersected && ComposedPackage(imports, Unwrap(parts[0])).Some? then []
       else Declared(view, guess, imports, parts[0]))
      + PartsDeclare(view, guess, imports, parts[1..], intersected)
  }

  // ----- where the walk passes over something -----

  /**
   A nested object has an entry that is no plain assignment, or its entries are not written out, or it is composed
   by something else than schemastery; a chained call does more than refine; or a value stands for a composition.
   */
  ghost predicate GapBelow(view: View, value: Expr)
    decreases value
  {
    var call := Unwrap(value);
    if !call.MethodCall? then view.names
    else if IsFactory(view, call) then
      if TakesObject(call, "object") then
        exists i :: 0 <= i < |call.arguments[0].entries| && EntryGap(view, call.arguments[0].entries[i])
      else if call.name == "array" && call.arguments != [] then GapBelow(view, call.arguments[0])
      else LooksComposed(call) || (view.names && call.name !in PLAIN)
    else if IsChained(call) then call.name !in REFINEMENTS || GapBelow(view, Unwrap(call.receiver))
    else LooksComposed(call) || view.names
  }

  ghost predicate EntryGap(view: View, entry: Entry)
    decreases entry
  {
    !entry.Assigned? || GapBelow(view, entry.value)
  }

  ghost predicate TopGap(view: View, entry: Entry)
    decreases entry, 1
  {
    (entry.Assigned? && GapBelow(view, entry.value)) || entry.ComputedKey? || (view.names && entry.Shorthand?)
  }

  /**
   A union has a variant that is no call, a key is computed or has a gap below it, a chained call does more than
   refine, or something else than schemastery composes.
   */
  ghost predicate Gap(view: View, e: Expr)
    decreases e, 0
  {
    var call := Unwrap(e);
    call.MethodCall? &&
    if IsFactory(view, call) then
      if TakesObject(call, "object") then
        exists i :: 0 <= i < |call.arguments[0].entries| && TopGap(view, call.arguments[0].entries[i])
      else if TakesArray(call, "intersect") then
        exists i :: 0 <= i < |call.arguments[0].elements| && Gap(view, call.arguments[0].elements[i])
      else
        TakesArray(call, "union")
        && exists i :: 0 <= i < |call.arguments[0].elements| && PartGap(view, call.arguments[0].elements[i])
    else if IsChained(call) then call.name !in REFINEMENTS || Gap(view, Unwrap(call.receiver))
    else TakesObject(call, "object") || TakesArray(call, "intersect") || TakesArray(call, "union")
  }

  ghost predicate PartGap(view: View, variant: Expr)
    decreases variant, 1
  {
    !IsCall(Unwrap(variant)) || Gap(view, variant)
  }

  // ----- texts -----

  /** The texts of paths that lie below `base`. */
  function TextsBelow(base: string, paths: seq<Path>): (texts: seq<string>)
    ensures |texts| == |paths| && forall i :: 0 <= i < |paths| ==> texts[i] == base + Suffix(paths[i])
  {
    if paths == [] then [] else [base + Suffix(paths[0])] + TextsBelow(base, paths[1..])
  }

  function Texts(paths: seq<Path>): (texts: seq<string>)
    requires Proper(paths)
    ensures |texts| == |paths| && forall i :: 0 <= i < |paths| ==> texts[i] == Printed(paths[i])
  {
    if paths == [] then [] else [Printed(paths[0])] + Texts(paths[1..])
  }

  lemma TextsBelowAppend(base: string, a: seq<Path>, b: seq<Path>)
    ensures TextsBelow(base, a + b) == TextsBelow(base, a) + TextsBelow(base, b)
  {
    hide Suffix;
    assert forall i :: 0 <= i < |a| ==> (a + b)[i] == a[i];
  }

  lemma {:induction false} TextsBehind(base: string, step: Step, paths: seq<Path>)
    ensures TextsBelow(base, Behind(step, paths)) == TextsBelow(base + Text(step), paths)
  {
    hide Suffix, Text;
    if paths != [] {
      TextsBehind(base, step, paths[1..]);
      BaseSuffix(base, step, paths[0]);
    }
  }

  lemma {:induction false} TextsAppend(a: seq<Path>, b: seq<Path>)
    requires Proper(a) && Proper(b)
    ensures Texts(a + b) == Texts(a) + Texts(b)
  {
    hide Printed;
    assert forall i :: 0 <= i < |a| ==> (a + b)[i] == a[i];
  }

  lemma {:induction false} TextsOfKey(key: string, paths: seq<Path>)
    ensures Texts([[Member(key)]] + Behind(Member(key), paths)) == [key] + TextsBelow(key, paths)
  {
    PrintedOne(key);
    TextsBehindKey(key, paths);
    TextsAppend([[Member(key)]], Behind(Member(key), paths));
    assert Texts([[Member(key)]]) == [key];
  }

  lemma {:induction false} TextsBehindKey(key: string, paths: seq<Path>)
    ensures Texts(Behind(Member(key), paths)) == TextsBelow(key, paths)
  {
    hide Printed, Suffix;
    if paths != [] {
      TextsBehindKey(key, paths[1..]);
      PrintedMember(key, paths[0]);
    }
  }

  // ----- without gaps everything is printed -----

  lemma {:induction false} NoGapPrintsBelow(view: View, guess: Guess, value: Expr, base: string)
    requires !GapBelow(view, value)
    ensures ValuePaths(value, base) == TextsBelow(base, Below(view, guess, value))
    decreases value
  {
    hide Suffix;
    var call := Unwrap(value);
    if call.MethodCall? {
      if IsFactory(view, call) {
        if TakesObject(call, "object") {
          NoGapPrintsEntries(view, guess, call.arguments[0].entries, base);
        } else if call.name == "array" && call.arguments != [] {
          NoGapPrintsBelow(view, guess, call.arguments[0], base + "[]");
          TextsBehind(base, Element, Below(view, guess, call.arguments[0]));
        }
      } else if IsChained(call) {
        NoGapPrintsBelow(view, guess, Unwrap(call.receiver), base);
      }
    }
  }

  lemma {:induction false} NoGapPrintsEntries(view: View, guess: Guess, entries: seq<Entry>, base: string)
    requires forall i :: 0 <= i < |entries| ==> !EntryGap(view, entries[i])
    ensures EntryPaths(entries, base) == TextsBelow(base, EntriesDeclare(view, guess, entries))
    decreases entries
  {
    hide Suffix;
    if entries != [] {
      var first, rest := entries[0], entries[1..];
      assert forall i :: 0 <= i < |rest| ==> rest[i] == entries[i + 1];
      NoGapPrintsEntries(view, guess, rest, base);
      var path := base + "." + first.key;
      NoGapPrintsBelow(view, guess, first.value, path);
      var below := Below(view, guess, first.value);
      EntryTexts(base, first.key, below);
      TextsBelowAppend(base, EntryDeclares(view, guess, first), EntriesDeclare(view, guess, rest));
    }
  }

  lemma EntryTexts(base: string, key: string, below: seq<Path>)
    ensures TextsBelow(base, [[Member(key)]] + Behind(Member(key), below))
         == [base + "." + key] + TextsBelow(base + "." + key, below)
  {
    hide Suffix;
    TextsBehind(base, Member(key), below);
    TextsBelowAppend(base, [[Member(key)]], Behind(Member(key), below));
    BaseSuffix(base, Member(key), []);
    assert base + Text(Member(key)) == base + "." + key;
    assert TextsBelow(base, [[Member(key)]]) == [base + Suffix([Member(key)])];
  }

  lemma {:induction false} NoGapPrintsTop(view: View, guess: Guess, entries: seq<Entry>)
    requires TopPaths(entries).violations == []
    requires forall i :: 0 <= i < |entries| ==> !TopGap(view, entries[i])
    ensures TopPaths(entries).keys == Texts(EntriesDeclare(view, guess, entries))
  {
    hide Texts, TopPath, EntryDeclares, GapBelow;
    if entries == [] {
      NoTexts();
    } else {
      var first, rest := entries[0], entries[1..];
      assert forall i :: 0 <= i < |rest| ==> rest[i] == entries[i + 1];
      NoGapPrintsTop(view, guess, rest);
      NoGapPrintsEntry(view, guess, first);
      TextsAppend(EntryDeclares(view, guess, first), EntriesDeclare(view, guess, rest));
    }
  }

  lemma NoGapPrintsEntry(view: View, guess: Guess, entry: Entry)
    requires TopPath(entry).violations == [] && !TopGap(view, entry)
    ensures TopPath(entry).keys == Texts(EntryDeclares(view, guess, entry))
  {
    hide Texts, ValuePaths, Below, GapBelow;
    match entry
    case Assigned(key, value) =>
      NoGapPrintsBelow(view, guess, value, key);
      TextsOfKey(key, Below(view, guess, value));
      NothingBelow(key);
    case ComputedKey(_, _) =>
    case Shorthand(key) =>
      TextsOfKey(key, []);
      NothingBelow(key);
      assert [[Member(key)]] + Behind(Member(key), []) == [[Member(key)]];
    case Irregular(_) =>
  }

  lemma NothingBelow(base: string)
    ensures TextsBelow(base, []) == []
  {
  }

  lemma NoTexts()
    ensures Texts([]) == []
  {
  }

  /** Where nothing is reported and there is no gap, the keys are the texts of all that is declared, in order. */
  lemma {:induction false} NoGapPrints(view: View, guess: Guess, imports: map<string, string>, e: Expr)
    requires Walked(imports, e).violations == [] && !Gap(view, e)
    ensures Walked(imports, e).keys == Texts(Declared(view, guess, imports, e))
    decreases e, 0
  {
    hide Texts, TopPaths, EntriesDeclare, WalkedParts, PartsDeclare;
    var call := Unwrap(e);
    if IsFactory(view, call) {
      if TakesObject(call, "object") {
        NoGapPrintsTop(view, guess, call.arguments[0].entries);
      } else if TakesArray(call, "intersect") {
        NoGapPrintsParts(view, guess, imports, call.arguments[0].elements, true);
      } else if TakesArray(call, "union") {
        NoGapPrintsParts(view, guess, imports, call.arguments[0].elements, false);
      }
    } else if IsChained(call) {
      NoGapPrints(view, guess, imports, Unwrap(call.receiver));
    }
  }

  lemma {:induction false} NoGapPrintsParts(
    view: View, guess: Guess, imports: map<string, string>, parts: seq<Expr>, strict: bool)
    requires WalkedParts(imports, parts, strict).violations == []
    requires forall i :: 0 <= i < |parts| ==> if strict then !Gap(view, parts[i]) else !PartGap(view, parts[i])
    ensures WalkedParts(imports, parts, strict).keys == Texts(PartsDeclare(view, guess, imports, parts, strict))
    decreases parts
  {
    hide Texts, Walked, Declared, Gap;
    if parts == [] {
      NoTexts();
    } else {
      var first, rest := parts[0], parts[1..];
      assert forall i :: 0 <= i < |rest| ==> rest[i] == parts[i + 1];
      NoGapPrintsParts(view, guess, imports, rest, strict);
      if strict && ComposedPackage(imports, Unwrap(first)).Some? {
        var others := PartsDeclare(view, guess, imports, rest, strict);
        assert [] + others == others;
      } else {
        WalkedUnwraps(imports, first);
        NoGapPrints(view, guess, imports, first);
        TextsAppend(Declared(view, guess, imports, first), PartsDeclare(view, guess, imports, rest, strict));
      }
    }
  }

  // ----- a gap leaves something out -----

  function Copies(n: nat): (paths: seq<KeyPath>)
    ensures |paths| == n
  {
    seq(n, _ => KeyPath("x", []))
  }

  /** Every unseen piece declares `n` paths. */
  function Each(n: nat): Guess {
    _ => Copies(n)
  }

  ghost function One(gap: bool): nat {
    if gap then 1 else 0
  }

  /** When unseen pieces declare more than is printed, a gap leaves the printed paths short of the declared ones. */
  lemma {:induction false} GapShortensBelow(view: View, value: Expr, base: string, n: nat)
    requires |ValuePaths(value, base)| < n
    ensures |ValuePaths(value, base)| + One(GapBelow(view, value)) <= |Below(view, Each(n), value)|
    decreases value
  {
    var call := Unwrap(value);
    if call.MethodCall? {
      if IsFactory(view, call) {
        if TakesObject(call, "object") {
          GapShortensEntries(view, call.arguments[0].entries, base, n);
        } else if call.name == "array" && call.arguments != [] {
          GapShortensBelow(view, call.arguments[0], base + "[]", n);
        }
      } else if IsChained(call) && call.name in REFINEMENTS {
        GapShortensBelow(view, Unwrap(call.receiver), base, n);
      }
    }
  }

  ghost predicate SomeEntryGap(view: View, entries: seq<Entry>) {
    exists i :: 0 <= i < |entries| && EntryGap(view, entries[i])
  }

  lemma {:induction false} GapShortensEntries(view: View, entries: seq<Entry>, base: string, n: nat)
    requires |EntryPaths(entries, base)| < n
    ensures |EntryPaths(entries, base)| + One(SomeEntryGap(view, entries)) <= |EntriesDeclare(view, Each(n), entries)|
    decreases entries
  {
    if entries != [] {
      var first, rest := entries[0], entries[1..];
      GapShortensEntries(view, rest, base, n);
      assert forall i :: 0 < i < |entries| ==> entries[i] == rest[i - 1];
      assert SomeEntryGap(view, entries) ==> EntryGap(view, first) || SomeEntryGap(view, rest);
      if first.Assigned? {
        GapShortensBelow(view, first.value, base + "." + first.key, n);
      }
    }
  }

  ghost predicate SomeTopGap(view: View, entries: seq<Entry>) {
    exists i :: 0 <= i < |entries| && TopGap(view, entries[i])
  }

  lemma {:induction false} GapShortensTop(view: View, entries: seq<Entry>, n: nat)
    requires |TopPaths(entries).keys| < n
    ensures |TopPaths(entries).keys| + One(SomeTopGap(view, entries)) <= |EntriesDeclare(view, Each(n), entries)|
  {
    hide GapBelow, Below, ValuePaths;
    if entries != [] {
      var first, rest := entries[0], entries[1..];
      GapShortensTop(view, rest, n);
      assert forall i :: 0 < i < |entries| ==> entries[i] == rest[i - 1];
      assert SomeTopGap(view, entries) ==> TopGap(view, first) || SomeTopGap(view, rest);
      if first.Assigned? {
        GapShortensBelow(view, first.value, first.key, n);
      }
    }
  }

  lemma {:induction false} GapShortens(view: View, imports: map<string, string>, e: Expr, n: nat)
    requires |Walked(imports, e).keys| < n
    ensures |Walked(imports, e).keys| + One(Gap(view, e)) <= |Declared(view, Each(n), imports, e)|
    decreases e, 0
  {
    hide TopPaths, EntriesDeclare, WalkedParts, PartsDeclare, TopGap, PartGap;
    var call := Unwrap(e);
    if call.MethodCall? {
      if IsFactory(view, call) {
        if TakesObject(call, "object") {
          GapShortensTop(view, call.arguments[0].entries, n);
        } else if TakesArray(call, "intersect") {
          GapShortensParts(view, imports, call.arguments[0].elements, true, n);
        } else if TakesArray(call, "union") {
          GapShortensParts(view, imports, call.arguments[0].elements, false, n);
        }
      } else if IsChained(call) && call.name in REFINEMENTS {
        GapShortens(view, imports, Unwrap(call.receiver), n);
      }
    }
  }

  ghost predicate IsPartGap(view: View, part: Expr, strict: bool) {
    if strict then Gap(view, part) else PartGap(view, part)
  }

  ghost predicate SomePartGap(view: View, parts: seq<Expr>, strict: bool) {
    exists i :: 0 <= i < |parts| && IsPartGap(view, parts[i], strict)
  }

  lemma {:induction false} GapShortensParts(
    view: View, imports: map<string, string>, parts: seq<Expr>, strict: bool, n: nat)
    requires |WalkedParts(imports, parts, strict).keys| < n
    ensures |WalkedParts(imports, parts, strict).keys| + One(SomePartGap(view, parts, strict))
         <= |PartsDeclare(view, Each(n), imports, parts, strict)|
    decreases parts
  {
    if parts != [] {
      var first, rest := parts[0], parts[1..];
      GapShortensParts(view, imports, rest, strict, n);
      assert forall i :: 0 < i < |parts| ==> parts[i] == rest[i - 1];
      assert SomePartGap(view, parts, strict) ==> IsPartGap(view, first, strict) || SomePartGap(view, rest, strict);
      GapShortensPart(view, imports, first, strict, n);
    }
  }

  lemma {:induction false} GapShortensPart(view: View, imports: map<string, string>, part: Expr, strict: bool, n: nat)
    requires |WalkedPart(imports, part, strict).keys| < n
    ensures !(strict && ComposedPackage(imports, Unwrap(part)).Some?) ==>
      |WalkedPart(imports, part, strict).keys| + One(IsPartGap(view, part, strict)) <=
        |Declared(view, Each(n), imports, part)|
    ensures strict && ComposedPackage(imports, Unwrap(part)).Some? ==>
      WalkedPart(imports, part, strict).keys == [] && !IsPartGap(view, part, strict)
    decreases part, 1
  {
    if IsCall(Unwrap(part)) {
      WalkedUnwraps(imports, part);
      GapShortens(view, imports, part, n);
    }
  }

  // ----- exactly when -----

  /** The keys are the texts of all that is declared, in order and as often, whatever the unseen pieces declare. */
  ghost predicate PrintsAll(view: View, imports: map<string, string>, e: Expr) {
    forall guess: Guess :: Walked(imports, e).keys == Texts(Declared(view, guess, imports, e))
  }

  /**
   The walk prints everything or reports something, exactly when it reports something or meets none of these: a union
   with a variant that is no call; a nested object with an entry that is no assignment, or without entries written
   out; a computed key; a chained call that does more than refine; a composition by something else than schemastery;
   and, if values not written out may stand for compositions, such a value.
   */
  lemma CompleteIff(view: View, imports: map<string, string>, e: Expr)
    ensures Walked(imports, e).violations != [] || PrintsAll(view, imports, e)
        <==> Walked(imports, e).violations != [] || !Gap(view, e)
  {
    hide Walked, Declared, Gap, Texts;
    if Walked(imports, e).violations == [] {
      if Gap(view, e) {
        var n := |Walked(imports, e).keys| + 1;
        GapShortens(view, imports, e, n);
        assert |Texts(Declared(view, Each(n), imports, e))| > |Walked(imports, e).keys|;
      } else {
        forall guess: Guess ensures Walked(imports, e).keys == Texts(Declared(view, guess, imports, e)) {
          NoGapPrints(view, guess, imports, e);
        }
      }
    }
  }

  /** Where everything is printed, the keys read back as the declared paths exactly when these have clean names. */
  lemma DeclaredParseIff(view: View, guess: Guess, imports: map<string, string>, e: Expr)
    requires Walked(imports, e).violations == [] && !Gap(view, e)
    ensures var keys, declared := Walked(imports, e).keys, Declared(view, guess, imports, e);
            && |keys| == |declared|
            && ((forall i :: 0 <= i < |keys| ==> Parsed(keys[i]) == declared[i])
                <==> (forall i :: 0 <= i < |declared| ==> AllClean(declared[i])))
  {
    hide Walked, Declared, Gap, Parsed, Printed, AllClean;
    NoGapPrints(view, guess, imports, e);
    var keys, declared := Walked(imports, e).keys, Declared(view, guess, imports, e);
    DeclaredStarts(view, guess, imports, e);
    forall i | 0 <= i < |declared| ensures Parsed(keys[i]) == declared[i] <==> AllClean(declared[i]) {
      assert declared[i] in declared;
      RoundTripIff(declared[i]);
    }
  }

  ghost predicate StartWithMembers(paths: seq<Path>) {
    forall p: Path :: p in paths ==> p != [] && p[0].Member?
  }

  lemma {:induction false} StepsStart(paths: seq<KeyPath>)
    ensures StartWithMembers(StepsOf(paths))
  {
    if paths != [] {
      StepsStart(paths[1..]);
    }
  }

  lemma {:induction false} BehindStarts(key: string, paths: seq<Path>)
    ensures StartWithMembers(Behind(Member(key), paths))
  {
    if paths != [] {
      BehindStarts(key, paths[1..]);
    }
  }

  lemma {:induction false} EntriesStart(view: View, guess: Guess, entries: seq<Entry>)
    ensures StartWithMembers(EntriesDeclare(view, guess, entries))
  {
    hide Below;
    if entries != [] {
      EntriesStart(view, guess, entries[1..]);
      match entries[0]
      case Assigned(key, value) => BehindStarts(key, Below(view, guess, value));
      case ComputedKey(_, _) => StepsStart(guess(Spread(entries[0])));
      case Shorthand(key) => BehindStarts(key, if view.names then StepsOf(guess(Spread(entries[0]))) else []);
      case Irregular(_) => StepsStart(guess(Spread(entries[0])));
    }
  }

  lemma {:induction false} DeclaredStarts(view: View, guess: Guess, imports: map<string, string>, e: Expr)
    ensures StartWithMembers(Declared(view, guess, imports, e))
    decreases e, 0
  {
    hide StartWithMembers, EntriesDeclare, PartsDeclare, StepsOf;
    var call := Unwrap(e);
    StepsStart(guess(Unseen(call)));
    if call.MethodCall? {
      if IsFactory(view, call) {
        if TakesObject(call, "object") {
          EntriesStart(view, guess, call.arguments[0].entries);
        } else if TakesArray(call, "intersect") {
          PartsStart(view, guess, imports, call.arguments[0].elements, true);
        } else if TakesArray(call, "union") {
          PartsStart(view, guess, imports, call.arguments[0].elements, false);
        }
      } else if IsChained(call) && call.name in REFINEMENTS {
        DeclaredStarts(view, guess, imports, Unwrap(call.receiver));
      }
    }
  }

  lemma {:induction false} PartsStart(
    view: View, guess: Guess, imports: map<string, string>, parts: seq<Expr>, intersected: bool)
    ensures StartWithMembers(PartsDeclare(view, guess, imports, parts, intersected))
    decreases parts
  {
    hide Declared;
    if parts != [] {
      DeclaredStarts(view, guess, imports, parts[0]);
      PartsStart(view, guess, imports, parts[1..], intersected);
    }
  }

  // ----- what is dropped without a report -----

  /** `z.object({ a: value })`. */
  function Under(value: Expr): Expr {
    ObjectOf([Assigned("a", value)])
  }

  lemma UnderWalks(view: View, imports: map<string, string>, value: Expr)
    requires view.z == "z"
    ensures Walked(imports, Under(value)) == Findings(["a"] + ValuePaths(value, "a"), [], [])
    ensures Gap(view, Under(value)) <==> GapBelow(view, value)
  {
    var entries := [Assigned("a", value)];
    assert entries[0].Assigned? && entries[0].value == value;
    assert entries[1..] == [];
    assert TopPaths(entries) == TopPath(entries[0]).Then(Nothing);
  }

  /**
   A nested object is printed without its shorthand key or its spread, or not at all when its entries are a name:
   `z.object({ a: z.object({ b }) })`, `z.object({ a: z.object({ ...b }) })`, `z.object({ a: z.object(b) })`.
   */
  lemma NestedKeysDropped(view: View, imports: map<string, string>, value: Expr)
    requires view.z == "z"
    requires value in {
      ObjectOf([Shorthand("b")]), ObjectOf([Irregular("...b")]),
      MethodCall(Identifier("z"), "object", [Identifier("b")])}
    ensures Walked(imports, Under(value)) == Findings(["a"], [], []) && !PrintsAll(view, imports, Under(value))
  {
    UnderWalks(view, imports, value);
    var call := Unwrap(value);
    if TakesObject(call, "object") {
      var entries := call.arguments[0].entries;
      assert EntryGap(view, entries[0]);
      assert entries[1..] == [];
    }
    CompleteIff(view, imports, Under(value));
  }

  /** `z.object({ a: b })` and `z.object({ a: b.c() })` print `a` alone: all, unless the value may be a composition. */
  lemma NamedValueDropped(view: View, imports: map<string, string>, value: Expr)
    requires view.z == "z" && value in {Identifier("b"), MethodCall(Identifier("b"), "c", [])}
    ensures Walked(imports, Under(value)) == Findings(["a"], [], [])
    ensures PrintsAll(view, imports, Under(value)) <==> !view.names
  {
    UnderWalks(view, imports, value);
    CompleteIff(view, imports, Under(value));
  }

  /** `z.object({ [K]: value })` prints `[K]`, whatever `K` is, and reports nothing. */
  lemma ComputedKeyMisread(view: View, imports: map<string, string>, value: Expr)
    requires view.z == "z"
    ensures var e := ObjectOf([ComputedKey("[K]", value)]);
            && Walked(imports, e) == Findings(["[K]"] + ValuePaths(value, "[K]"), [], [])
            && !PrintsAll(view, imports, e)
  {
    var entries := [ComputedKey("[K]", value)];
    var e := ObjectOf(entries);
    assert entries[1..] == [] && TopPaths(entries) == TopPath(entries[0]).Then(Nothing);
    assert TopGap(view, entries[0]);
    CompleteIff(view, imports, e);
  }

  /**
   A chained call that does more than refine, such as `z.object({ ... }).set('b', s)`, changes nothing for the walk:
   what it adds or takes away is lost without a report.
   */
  lemma ChainedCallIgnored(view: View, imports: map<string, string>, e: Expr, name: string, arguments: seq<Expr>)
    requires IsCall(Unwrap(e)) && name !in REFINEMENTS && name !in {"object", "intersect", "union"}
    ensures var chained := MethodCall(e, name, arguments);
            && Walked(imports, chained) == Walked(imports, e)
            && (Walked(imports, e).violations == [] ==> !PrintsAll(view, imports, chained))
  {
    hide PrintsAll, Declared;
    var chained := MethodCall(e, name, arguments);
    WalkedUnwraps(imports, e);
    assert Unwrap(e) != Identifier(view.z);
    assert Gap(view, chained);
    CompleteIff(view, imports, chained);
  }
}
