/** Locating a link, image or definition destination in its Markdown source. */
module MarkdownDestinations {
  import opened Options

  datatype NodeType = Link | Image | Definition

  datatype Range = Range(start: nat, end: nat)

  /** The characters `\s` matches. */
  predicate IsSpace(c: char) {
    || '\t' <= c <= '\r' || c == ' '
    || c in {'\U{00A0}', '\U{1680}', '\U{2028}', '\U{2029}', '\U{202F}', '\U{205F}', '\U{3000}', '\U{FEFF}'}
    || '\U{2000}' <= c <= '\U{200A}'
  }

  /** White space and line terminators of sections 12.2 and 12.3 of ECMA-262, by code point. */
  lemma IsSpaceIs(c: char)
    ensures IsSpace(c) <==>
      c as int in {
        0x9, 0xA, 0xB, 0xC, 0xD, 0x20, 0xA0, 0x1680, 0x2000, 0x2001, 0x2002, 0x2003, 0x2004, 0x2005, 0x2006, 0x2007,
        0x2008, 0x2009, 0x200A, 0x2028, 0x2029, 0x202F, 0x205F, 0x3000, 0xFEFF}
  {
  }

  // ----- the scans, as functions of where they stand -----

  function SpaceEnd(s: string, i: nat): (k: nat)
    requires i <= |s|
    ensures i <= k <= |s| && (k < |s| ==> !IsSpace(s[k]))
    ensures forall j :: i <= j < k ==> IsSpace(s[j])
    decreases |s| - i
  {
    if i < |s| && IsSpace(s[i]) then SpaceEnd(s, i + 1) else i
  }

  /** `indexOf(c, i)`. */
  function FindFrom(s: string, c: char, i: nat): (k: Option<nat>)
    ensures k.Some? ==> i <= k.value < |s| && s[k.value] == c && forall j :: i <= j < k.value ==> s[j] != c
    ensures k.None? ==> forall j :: i <= j < |s| ==> s[j] != c
    decreases |s| - i
  {
    if i >= |s| then None else if s[i] == c then Some(i) else FindFrom(s, c, i + 1)
  }

  /** The closing bracket, from `i` on, of a label open to `depth`. */
  function LabelFrom(s: string, i: nat, depth: nat): (k: Option<nat>)
    ensures k.Some? ==> i <= k.value < |s|
    decreases |s| - i
  {
    if i >= |s| then None
    else if s[i] == '\\' then LabelFrom(s, i + 2, depth)
    else if s[i] == '[' then LabelFrom(s, i + 1, depth + 1)
    else if s[i] == ']' then if depth <= 1 then Some(i) else LabelFrom(s, i + 1, depth - 1)
    else LabelFrom(s, i + 1, depth)
  }

  function LabelEnd(s: string): (k: Option<nat>)
    ensures k.Some? ==> k.value < |s|
  {
    match FindFrom(s, '[', 0)
    case None => None
    case Some(first) => LabelFrom(s, first, 0)
  }

  /** The unescaped `>` from `i` on. */
  function AngleEnd(s: string, i: nat): (k: Option<nat>)
    ensures k.Some? ==> i <= k.value < |s|
    decreases |s| - i
  {
    if i >= |s| then None
    else if s[i] == '\\' then AngleEnd(s, i + 2)
    else if s[i] == '>' then Some(i)
    else AngleEnd(s, i + 1)
  }

  /** The end, from `i` on, of a bare destination open to `depth` parentheses. */
  function BareEnd(s: string, i: nat, depth: nat): (k: nat)
    ensures k <= |s| && (i <= |s| ==> i <= k)
    decreases |s| - i
  {
    if i >= |s| then |s|
    else
      match BareTurn(s[i], depth)
      case Stop => i
      case Go(width, d) => BareEnd(s, i + width, d)
  }

  /** What one character does to the scan of a bare destination. */
  datatype Turn = Stop | Go(width: nat, depth: nat)

  function BareTurn(c: char, depth: nat): (turn: Turn)
    ensures turn.Go? ==> 1 <= turn.width <= 2
  {
    if c == '\\' then Go(2, depth)
    else if c == '(' then Go(1, depth + 1)
    else if c == ')' then if depth == 0 then Stop else Go(1, depth - 1)
    else if IsSpace(c) && depth == 0 then Stop
    else Go(1, depth)
  }

  /** Where the destination of a node begins, past the white space; absent where the source throws. */
  function DestinationStart(raw: string, nodeType: NodeType): (k: Option<nat>)
    ensures k.Some? ==> k.value <= |raw|
  {
    match LabelEnd(raw)
    case None => None
    case Some(e) =>
      if nodeType == Definition then
        match FindFrom(raw, ':', e + 1)
        case None => None
        case Some(colon) => Some(SpaceEnd(raw, colon + 1))
      else if e + 1 >= |raw| || raw[e + 1] != '(' then None
      else Some(SpaceEnd(raw, e + 2))
  }

  function DestinationRange(raw: string, nodeType: NodeType): (r: Option<Range>)
    ensures r.Some? ==> r.value.start <= r.value.end <= |raw|
  {
    match DestinationStart(raw, nodeType)
    case None => None
    case Some(start) =>
      if start < |raw| && raw[start] == '<' then
        match AngleEnd(raw, start + 1)
        case None => None
        case Some(end) => Some(Range(start + 1, end))
      else Some(Range(start, BareEnd(raw, start, 0)))
  }

  // ----- the source's loops -----

  method SkipWhitespace(source: string, start: nat) returns (index: nat)
    requires start <= |source|
    ensures index == SpaceEnd(source, start)
  {
    index := start;
    while index < |source| && IsSpace(source[index])
      invariant start <= index <= |source|
      invariant SpaceEnd(source, start) == SpaceEnd(source, index)
    {
      index := index + 1;
    }
  }

  method FindLabelEnd(source: string) returns (k: Option<nat>)
    ensures k == LabelEnd(source)
  {
    var first := FindFrom(source, '[', 0);
    if first == None {
      return None;
    }
    var depth, index := 0, first.value;
    while index < |source|
      invariant depth >= 0 && LabelFrom(source, index, depth) == LabelFrom(source, first.value, 0)
      invariant index == first.value || depth > 0
      invariant index == first.value ==> depth == 0
      decreases |source| - index
    {
      var c := source[index];
      if c == '\\' {
        index := index + 1;
      } else if c == '[' {
        depth := depth + 1;
      } else if c == ']' {
        depth := depth - 1;
        if depth == 0 {
          return Some(index);
        }
      }
      index := index + 1;
    }
    return None;
  }

  method FindDestinationRange(raw: string, nodeType: NodeType) returns (r: Option<Range>)
    ensures r == DestinationRange(raw, nodeType)
  {
    hide LabelEnd, FindFrom, SpaceEnd, IsSpace;
    var endOfLabel := FindLabelEnd(raw);
    if endOfLabel == None {
      return None;
    }
    var start;
    if nodeType == Definition {
      var colon := FindFrom(raw, ':', endOfLabel.value + 1);
      if colon == None {
        return None;
      }
      start := SkipWhitespace(raw, colon.value + 1);
    } else {
      if endOfLabel.value + 1 >= |raw| || raw[endOfLabel.value + 1] != '(' {
        return None;
      }
      start := SkipWhitespace(raw, endOfLabel.value + 2);
    }
    if start < |raw| && raw[start] == '<' {
      var end := FindAngleEnd(raw, start);
      r := if end == None then None else Some(Range(start + 1, end.value));
    } else {
      var end := FindBareEnd(raw, start);
      r := Some(Range(start, end));
    }
  }

  method FindAngleEnd(raw: string, start: nat) returns (end: Option<nat>)
    requires start < |raw|
    ensures end == AngleEnd(raw, start + 1)
  {
    var index := start + 1;
    while index < |raw|
      invariant AngleEnd(raw, index) == AngleEnd(raw, start + 1)
      decreases |raw| - index
    {
      if raw[index] == '\\' {
        index := index + 1;
      } else if raw[index] == '>' {
        return Some(index);
      }
      index := index + 1;
    }
    return None;
  }

  method FindBareEnd(raw: string, start: nat) returns (end: nat)
    requires start <= |raw|
    ensures end == BareEnd(raw, start, 0)
  {
    hide IsSpace;
    var depth, index := 0, start;
    while index < |raw|
      invariant depth >= 0
      invariant BareEnd(raw, index, depth) == BareEnd(raw, start, 0)
      decreases |raw| - index
    {
      var c := raw[index];
      if c == '\\' {
        index := index + 1;
      } else if c == '(' {
        depth := depth + 1;
      } else if c == ')' {
        if depth == 0 {
          return index;
        }
        depth := depth - 1;
      } else if IsSpace(c) && depth == 0 {
        return index;
      }
      index := index + 1;
    }
    return |raw|;
  }

  // ----- where a label ends -----

  /** A backslash, itself not escaped, escapes what follows it; escapes count from `first` on. */
  ghost predicate Escaped(s: string, first: nat, i: nat)
    requires i <= |s|
  {
    i > first && s[i - 1] == '\\' && !Escaped(s, first, i - 1)
  }

  /** The brackets opened and not closed from `first` up to `i`, escaped ones left out. */
  ghost function Nesting(s: string, first: nat, i: nat): int
    requires i <= |s|
  {
    if i <= first then 0
    else
      Nesting(s, first, i - 1)
      + (if Escaped(s, first, i - 1) then 0 else if s[i - 1] == '[' then 1 else if s[i - 1] == ']' then -1 else 0)
  }

  /** An unescaped closing bracket that leaves none open. */
  ghost predicate Balances(s: string, first: nat, k: nat) {
    k < |s| && s[k] == ']' && !Escaped(s, first, k) && Nesting(s, first, k + 1) == 0
  }

  /** The first position from `i` on that balances. */
  ghost predicate FirstBalances(s: string, first: nat, i: nat, k: Option<nat>) {
    && (k.Some? ==> i <= k.value && Balances(s, first, k.value))
    && (k.Some? ==> forall j: nat :: i <= j < k.value ==> !Balances(s, first, j))
    && (k.None? ==> forall j: nat :: i <= j ==> !Balances(s, first, j))
  }

  lemma NotHere(s: string, first: nat, i: nat, k: Option<nat>)
    requires FirstBalances(s, first, i + 1, k) && !Balances(s, first, i)
    ensures FirstBalances(s, first, i, k)
  {
  }

  lemma {:induction false} LabelFromIs(s: string, first: nat, i: nat, depth: nat)
    requires first <= i <= |s| && first < |s| && s[first] == '['
    requires !Escaped(s, first, i) && Nesting(s, first, i) == depth && (i > first ==> depth > 0)
    ensures FirstBalances(s, first, i, LabelFrom(s, i, depth))
    decreases |s| - i
  {
    hide Balances;
    if i < |s| {
      BalancesIs(s, first, i);
      var k := LabelFrom(s, i, depth);
      if s[i] == '\\' {
        assert Escaped(s, first, i + 1) && Nesting(s, first, i + 1) == depth;
        if i + 2 <= |s| {
          BalancesIs(s, first, i + 1);
          LabelFromIs(s, first, i + 2, depth);
          NotHere(s, first, i + 1, k);
        } else {
          NoneLeft(s, first, i + 1);
        }
        NotHere(s, first, i, k);
      } else if s[i] == '[' {
        LabelFromIs(s, first, i + 1, depth + 1);
        NotHere(s, first, i, k);
      } else if s[i] == ']' {
        if depth > 1 {
          LabelFromIs(s, first, i + 1, depth - 1);
          NotHere(s, first, i, k);
        }
      } else {
        LabelFromIs(s, first, i + 1, depth);
        NotHere(s, first, i, k);
      }
    } else {
      NoneLeft(s, first, i);
    }
  }

  lemma BalancesIs(s: string, first: nat, i: nat)
    requires i < |s|
    ensures Balances(s, first, i) <==> s[i] == ']' && !Escaped(s, first, i) && Nesting(s, first, i + 1) == 0
  {
  }

  lemma NoneLeft(s: string, first: nat, i: nat)
    requires i >= |s|
    ensures FirstBalances(s, first, i, None)
  {
  }

  /** The label ends at the first unescaped bracket that closes the first bracket of the source, if there is one. */
  lemma LabelEndIs(s: string)
    ensures match FindFrom(s, '[', 0)
            case None => LabelEnd(s) == None && '[' !in s
            case Some(first) => FirstBalances(s, first, first, LabelEnd(s))
  {
    if FindFrom(s, '[', 0).Some? {
      LabelFromIs(s, FindFrom(s, '[', 0).value, FindFrom(s, '[', 0).value, 0);
    }
  }

  // ----- locate, splice, relocate -----

  function Spliced(raw: string, r: Range, url: string): string
    requires r.start <= r.end <= |raw|
  {
    raw[..r.start] + url + raw[r.end..]
  }

  /** Reading `s[i..n]` as part of a bare destination: it stops there, or runs through, maybe escaping beyond. */
  datatype Run = Stopped(at: nat) | Through(depth: nat, beyond: nat)

  function BareRun(s: string, i: nat, n: nat, depth: nat): (r: Run)
    requires n <= |s|
    ensures r.Stopped? ==> i <= r.at < n
    ensures i <= n && r.Through? ==> r.beyond <= 1
    decreases n - i
  {
    if i >= n then Through(depth, i - n)
    else
      match BareTurn(s[i], depth)
      case Stop => Stopped(i)
      case Go(width, d) => BareRun(s, i + width, n, d)
  }

  /** A scan that runs through a stretch goes on where the stretch leaves it. */
  lemma {:induction false} BareSplits(s: string, i: nat, n: nat, depth: nat)
    requires i <= n <= |s|
    ensures match BareRun(s, i, n, depth)
            case Stopped(k) => BareEnd(s, i, depth) == k
            case Through(d, beyond) => BareEnd(s, i, depth) == BareEnd(s, n + beyond, d)
    decreases n - i
  {
    hide BareTurn;
    if i < n {
      var turn := BareTurn(s[i], depth);
      if turn.Go? && i + turn.width <= n {
        BareSplits(s, i + turn.width, n, turn.depth);
      }
    }
  }

  /** What a stretch does to the scan does not depend on where it stands. */
  lemma {:induction false} BareShifts(s: string, a: nat, u: string, i: nat, depth: nat)
    requires a + |u| <= |s| && s[a..a + |u|] == u
    ensures match BareRun(u, i, |u|, depth)
            case Stopped(k) => BareRun(s, a + i, a + |u|, depth) == Stopped(a + k)
            case Through(d, beyond) => BareRun(s, a + i, a + |u|, depth) == Through(d, beyond)
    decreases |u| - i
  {
    hide BareTurn;
    if i < |u| {
      assert s[a + i] == s[a..a + |u|][i] == u[i];
      var turn := BareTurn(u[i], depth);
      if turn.Go? {
        BareShifts(s, a, u, i + turn.width, turn.depth);
      }
    }
  }

  /** A bare destination ends at the end of the source, or at a character that cannot go on with it. */
  lemma {:induction false} BareEndStops(s: string, i: nat, depth: nat)
    requires i <= |s|
    ensures var k := BareEnd(s, i, depth); k < |s| ==> s[k] == ')' || IsSpace(s[k])
    decreases |s| - i
  {
    hide IsSpace;
    if i < |s| {
      var turn := BareTurn(s[i], depth);
      if turn.Go? && i + turn.width <= |s| {
        BareEndStops(s, i + turn.width, turn.depth);
      }
    }
  }

  /**
   The scan of `u` on its own does not stop;
   unless it comes last, it also closes what it opens and escapes nothing after it.
   */
  predicate ReadsWhole(u: string, last: bool) {
    var run := BareRun(u, 0, |u|, 0);
    run.Through? && (last || run == Through(0, 0))
  }

  /** A bare destination `u` put at `a`, before what ended the old one, is read exactly when it reads whole. */
  lemma BareEndIff(s: string, a: nat, u: string)
    requires a + |u| <= |s| && s[a..a + |u|] == u
    requires a + |u| < |s| ==> s[a + |u|] == ')' || IsSpace(s[a + |u|])
    ensures BareEnd(s, a, 0) == a + |u| <==> ReadsWhole(u, a + |u| == |s|)
  {
    hide IsSpace;
    SpaceIsPlain();
    BareSplits(s, a, a + |u|, 0);
    BareShifts(s, a, u, 0, 0);
  }

  lemma SpaceIsPlain()
    ensures forall c :: IsSpace(c) ==> c != '\\' && c != '(' && c != ')' && c != '<'
  {
  }

  // ----- the scan of the part before the destination depends on that part only -----

  lemma {:induction false} LabelFromPrefix(s: string, t: string, n: nat, i: nat, depth: nat)
    requires n <= |s| && n <= |t| && s[..n] == t[..n]
    ensures LabelFrom(s, i, depth).Some? && LabelFrom(s, i, depth).value < n ==>
              LabelFrom(t, i, depth) == LabelFrom(s, i, depth)
    decreases |s| - i
  {
    if i < n {
      assert s[i] == s[..n][i] == t[i];
      if s[i] == '\\' {
        LabelFromPrefix(s, t, n, i + 2, depth);
      } else if s[i] == '[' {
        LabelFromPrefix(s, t, n, i + 1, depth + 1);
      } else if s[i] == ']' {
        if depth > 1 {
          LabelFromPrefix(s, t, n, i + 1, depth - 1);
        }
      } else {
        LabelFromPrefix(s, t, n, i + 1, depth);
      }
    }
  }

  lemma FindPrefix(s: string, t: string, n: nat, c: char, i: nat)
    requires n <= |s| && n <= |t| && s[..n] == t[..n]
    requires FindFrom(s, c, i).Some? && FindFrom(s, c, i).value < n
    ensures FindFrom(t, c, i) == FindFrom(s, c, i)
  {
    var k := FindFrom(s, c, i).value;
    assert forall j :: 0 <= j < n ==> s[j] == s[..n][j] == t[j];
    var k' := FindFrom(t, c, i);
    assert t[k] == c;
  }

  /** White space up to `a`, then none: that is where it ends. */
  lemma {:induction false} SpaceEndIs(s: string, i: nat, a: nat)
    requires i <= a <= |s| && (a < |s| ==> !IsSpace(s[a])) && forall j :: i <= j < a ==> IsSpace(s[j])
    ensures SpaceEnd(s, i) == a
    decreases a - i
  {
    if i < a {
      SpaceEndIs(s, i + 1, a);
    }
  }

  lemma SpaceEndPast(s: string, i: nat, a: nat)
    requires i <= a < |s| && forall j :: i <= j <= a ==> IsSpace(s[j])
    ensures SpaceEnd(s, i) > a
  {
  }

  /** The start is found again when the source is kept up to it; white space there moves it on. */
  lemma StartPrefix(s: string, t: string, nodeType: NodeType)
    requires DestinationStart(s, nodeType).Some?
    requires var a := DestinationStart(s, nodeType).value; a <= |t| && t[..a] == s[..a]
    ensures var a := DestinationStart(s, nodeType).value;
            if a < |t| && IsSpace(t[a])
            then DestinationStart(t, nodeType).Some? && DestinationStart(t, nodeType).value > a
            else DestinationStart(t, nodeType) == Some(a)
  {
    hide IsSpace, LabelEnd, LabelFrom, FindFrom, SpaceEnd;
    var a := DestinationStart(s, nodeType).value;
    var e := LabelEnd(s).value;
    LabelPrefix(s, t, a);
    assert forall j :: 0 <= j < a ==> s[j] == s[..a][j] == t[j];
    var i := e + 2;
    if nodeType == Definition {
      FindPrefix(s, t, a, ':', e + 1);
      i := FindFrom(s, ':', e + 1).value + 1;
    }
    if a < |t| && IsSpace(t[a]) {
      SpaceEndPast(t, i, a);
    } else {
      SpaceEndIs(t, i, a);
    }
  }

  lemma LabelPrefix(s: string, t: string, n: nat)
    requires n <= |s| && n <= |t| && s[..n] == t[..n] && LabelEnd(s).Some? && LabelEnd(s).value < n
    ensures LabelEnd(t) == LabelEnd(s)
  {
    FindPrefix(s, t, n, '[', 0);
    LabelFromPrefix(s, t, n, FindFrom(s, '[', 0).value, 0);
  }

  // ----- the round trip -----

  /** A non-empty URL that a bare destination reads as itself. */
  predicate IsBareUrl(u: string, last: bool) {
    u != "" && !IsSpace(u[0]) && u[0] != '<' && ReadsWhole(u, last)
  }

  /** A URL that a destination in angle brackets reads as itself: no unescaped `>`, and nothing escaped after it. */
  predicate IsAngleUrl(u: string) {
    AngleEnd(u + ">", 0) == Some(|u|)
  }

  lemma BareRelocates(raw: string, nodeType: NodeType, url: string)
    requires DestinationRange(raw, nodeType).Some? && url != ""
    requires var a := DestinationStart(raw, nodeType).value; a < |raw| ==> raw[a] != '<'
    ensures var r := DestinationRange(raw, nodeType).value;
            DestinationRange(Spliced(raw, r, url), nodeType) == Some(Range(r.start, r.start + |url|))
            <==> IsBareUrl(url, r.end == |raw|)
  {
    hide DestinationStart, BareEnd, IsSpace, AngleEnd, ReadsWhole;
    SpaceIsPlain();
    var r := DestinationRange(raw, nodeType).value;
    var a, t := r.start, Spliced(raw, r, url);
    assert t[..a] == raw[..a] && t[a..a + |url|] == url && t[a] == url[0];
    BareEndStops(raw, a, 0);
    assert a + |url| < |t| ==> t[a + |url|] == raw[r.end];
    StartPrefix(raw, t, nodeType);
    if !IsSpace(url[0]) {
      BareEndIff(t, a, url);
    }
  }

  lemma AngleRelocates(raw: string, nodeType: NodeType, url: string)
    requires DestinationRange(raw, nodeType).Some?
    requires var a := DestinationStart(raw, nodeType).value; a < |raw| && raw[a] == '<'
    ensures var r := DestinationRange(raw, nodeType).value;
            DestinationRange(Spliced(raw, r, url), nodeType) == Some(Range(r.start, r.start + |url|))
            <==> IsAngleUrl(url)
  {
    hide DestinationStart, BareEnd, IsSpace;
    SpaceIsPlain();
    var r := DestinationRange(raw, nodeType).value;
    var a, t := r.start, Spliced(raw, r, url);
    AngleEndIs(raw, a);
    assert t[..a] == raw[..a] && t[a..a + |url|] == url && t[a + |url|] == '>';
    assert t[..a - 1] == raw[..a - 1] && t[a - 1] == t[..a][a - 1] == '<';
    StartPrefix(raw, t, nodeType);
    AngleShifts(t, a, url, 0);
  }

  lemma {:induction false} AngleEndIs(s: string, i: nat)
    ensures AngleEnd(s, i).Some? ==> s[AngleEnd(s, i).value] == '>'
    decreases |s| - i
  {
    if i < |s| {
      if s[i] == '\\' {
        AngleEndIs(s, i + 2);
      } else if s[i] != '>' {
        AngleEndIs(s, i + 1);
      }
    }
  }

  /** Whether the scan ends right after `u` depends on `u` only. */
  lemma {:induction false} AngleShifts(s: string, a: nat, u: string, i: nat)
    requires a + |u| < |s| && s[a..a + |u|] == u && s[a + |u|] == '>'
    ensures AngleEnd(s, a + i) == Some(a + |u|) <==> AngleEnd(u + ">", i) == Some(|u|)
    decreases |u| - i
  {
    var v := u + ">";
    if i < |u| {
      assert s[a + i] == s[a..a + |u|][i] == v[i];
      if v[i] == '\\' {
        AngleShifts(s, a, u, i + 2);
      } else if v[i] != '>' {
        AngleShifts(s, a, u, i + 1);
      }
    } else if i == |u| {
      assert v[i] == '>';
    }
  }

  /** Replacing a destination's range and scanning again yields exactly the new URL's range, for exactly these URLs. */
  lemma RelocatesIff(raw: string, nodeType: NodeType, url: string)
    requires DestinationRange(raw, nodeType).Some? && url != ""
    ensures DestinationStart(raw, nodeType).Some?
    ensures var a, r := DestinationStart(raw, nodeType).value, DestinationRange(raw, nodeType).value;
            DestinationRange(Spliced(raw, r, url), nodeType) == Some(Range(r.start, r.start + |url|))
            <==> if a < |raw| && raw[a] == '<' then IsAngleUrl(url) else IsBareUrl(url, r.end == |raw|)
  {
    var a := DestinationStart(raw, nodeType).value;
    hide *;
    if a < |raw| && raw[a] == '<' {
      AngleRelocates(raw, nodeType, url);
    } else {
      BareRelocates(raw, nodeType, url);
    }
  }

  // ----- plain URLs -----

  /** From `i` on, every `)` closes a `(` of `depth` or later, and all are closed at the end. */
  predicate Balanced(u: string, i: nat, depth: nat)
    decreases |u| - i
  {
    if i >= |u| then depth == 0
    else if u[i] == '(' then Balanced(u, i + 1, depth + 1)
    else if u[i] == ')' then depth > 0 && Balanced(u, i + 1, depth - 1)
    else Balanced(u, i + 1, depth)
  }

  lemma {:induction false} BalancedReads(u: string, i: nat, depth: nat)
    requires i <= |u| && forall c :: c in u ==> !IsSpace(c) && c != '\\'
    ensures Balanced(u, i, depth) <==> BareRun(u, i, |u|, depth) == Through(0, 0)
    decreases |u| - i
  {
    hide IsSpace;
    if i < |u| {
      assert u[i] in u;
      if u[i] != ')' || depth > 0 {
        BalancedReads(u, i + 1, if u[i] == '(' then depth + 1 else if u[i] == ')' then depth - 1 else depth);
      }
    }
  }

  /** Without white space or backslashes, a URL is read as itself exactly if its parentheses are balanced. */
  lemma PlainUrlRelocates(u: string, last: bool)
    requires u != "" && u[0] != '<' && forall c :: c in u ==> !IsSpace(c) && c != '\\'
    ensures Balanced(u, 0, 0) ==> IsBareUrl(u, last)
    ensures !last && IsBareUrl(u, last) ==> Balanced(u, 0, 0)
  {
    BalancedReads(u, 0, 0);
    assert u[0] in u;
  }

  /** In angle brackets, a URL without backslashes is read as itself exactly if it has no `>`. */
  lemma {:induction false} PlainAngleUrlRelocates(u: string, i: nat)
    requires i <= |u| && '\\' !in u
    ensures AngleEnd(u + ">", i) == Some(|u|) <==> '>' !in u[i..]
    decreases |u| - i
  {
    if i < |u| {
      assert (u + ">")[i] == u[i] && u[i] in u && u[i..] == [u[i]] + u[i + 1..];
      PlainAngleUrlRelocates(u, i + 1);
    } else {
      assert (u + ">")[i] == '>';
    }
  }

  lemma ShortLink()
    ensures DestinationStart("[x](u)", Link) == Some(4) && DestinationRange("[x](u)", Link) == Some(Range(4, 5))
  {
    var raw := "[x](u)";
    assert FindFrom(raw, '[', 0) == Some(0);
    assert LabelFrom(raw, 0, 0) == LabelFrom(raw, 1, 1) == LabelFrom(raw, 2, 1) == Some(2);
    assert SpaceEnd(raw, 4) == 4;
    assert BareEnd(raw, 4, 0) == BareEnd(raw, 5, 0) == 5;
  }

  /** Balanced and free of white space is not enough: a last backslash escapes the character after the URL. */
  lemma TrailingBackslashIsLost()
    ensures Balanced("a\\", 0, 0) && (forall c :: c in "a\\" ==> !IsSpace(c)) && !IsBareUrl("a\\", false)
    ensures var raw := "[x](u)";
            && DestinationRange(raw, Link) == Some(Range(4, 5))
            && DestinationRange(Spliced(raw, Range(4, 5), "a\\"), Link) != Some(Range(4, 6))
  {
    hide DestinationRange, DestinationStart, Spliced;
    var url := "a\\";
    assert BareRun(url, 0, 2, 0) == BareRun(url, 1, 2, 0) == Through(0, 1);
    ShortLink();
    RelocatesIff("[x](u)", Link, url);
  }
}
