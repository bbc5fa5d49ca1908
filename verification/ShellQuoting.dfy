/** The printer of copyable commands, against the quoting rules of section 2.2 of the POSIX Shell Command Language. */
module ShellQuoting {
  import opened Options

  // ----- the source -----

  /** The characters of `[\w./:@=+-]`. */
  predicate IsPlain(c: char) {
    'a' <= c <= 'z' || 'A' <= c <= 'Z' || '0' <= c <= '9' || c in {'_', '.', '/', ':', '@', '=', '+', '-'}
  }

  function EscapeQuote(c: char): string {
    if c == '\'' then "'\"'\"'" else [c]
  }

  /** `value.replaceAll("'", ...)` with a single quote in double quotes between two single-quoted stretches. */
  function EscapeQuotes(value: string): string {
    if value == "" then "" else EscapeQuote(value[0]) + EscapeQuotes(value[1..])
  }

  function QuoteShellArgument(value: string): string {
    if value != "" && forall c :: c in value ==> IsPlain(c) then value
    else "'" + EscapeQuotes(value) + "'"
  }

  function Join(words: seq<string>): string
    requires words != []
  {
    if |words| == 1 then QuoteShellArgument(words[0])
    else QuoteShellArgument(words[0]) + " " + Join(words[1..])
  }

  function FormatCopyableCommand(command: string, arguments: seq<string>): string {
    Join([command] + arguments)
  }

  // ----- what is printed -----

  const LOWER := "abcdefghijklmnopqrstuvwxyz"
  const UPPER := "ABCDEFGHIJKLMNOPQRSTUVWXYZ"
  const DIGITS := "0123456789"

  /** `\w` and the other characters of the class. */
  ghost predicate IsListed(c: char) {
    c in LOWER || c in UPPER || c in DIGITS || c in "_./:@=+-"
  }

  lemma LettersAre(c: char)
    ensures c in LOWER <==> 'a' <= c <= 'z'
  {
    assert 'a' <= c <= 'z' ==> LOWER[c as int - 'a' as int] == c;
  }

  lemma CapitalsAre(c: char)
    ensures c in UPPER <==> 'A' <= c <= 'Z'
  {
    assert 'A' <= c <= 'Z' ==> UPPER[c as int - 'A' as int] == c;
  }

  lemma DigitsAre(c: char)
    ensures c in DIGITS <==> '0' <= c <= '9'
  {
    assert '0' <= c <= '9' ==> DIGITS[c as int - '0' as int] == c;
  }

  lemma PlainIs(c: char)
    ensures IsPlain(c) <==> IsListed(c)
  {
    hide LOWER, UPPER, DIGITS;
    LettersAre(c);
    CapitalsAre(c);
    DigitsAre(c);
  }

  lemma EscapeFirst(c: char, rest: string)
    ensures EscapeQuotes([c] + rest) == EscapeQuote(c) + EscapeQuotes(rest)
  {
    hide EscapeQuote;
    assert ([c] + rest)[1..] == rest;
  }

  lemma EscapeNothing(b: string)
    ensures EscapeQuotes("") == "" && EscapeQuotes("" + b) == "" + EscapeQuotes(b)
  {
    assert "" + b == b;
  }

  lemma {:induction false} EscapeAppends(a: string, b: string)
    ensures EscapeQuotes(a + b) == EscapeQuotes(a) + EscapeQuotes(b)
  {
    hide EscapeQuote, EscapeQuotes;
    if a == "" {
      EscapeNothing(b);
    } else {
      var c, rest := a[0], a[1..];
      EscapeAppends(rest, b);
      EscapeFirst(c, rest);
      EscapeFirst(c, rest + b);
      assert a == [c] + rest && a + b == [c] + (rest + b);
      Associative(EscapeQuote(c), EscapeQuotes(rest), EscapeQuotes(b));
    }
  }

  lemma Associative(a: string, b: string, c: string)
    ensures a + (b + c) == (a + b) + c
  {
  }

  lemma {:induction false} EscapeKeeps(a: string)
    requires '\'' !in a
    ensures EscapeQuotes(a) == a
  {
    if a != "" {
      EscapeKeeps(a[1..]);
      assert a[0] in a;
    }
  }

  lemma EscapeQuoteIs()
    ensures EscapeQuotes("'") == "'\"'\"'"
  {
  }

  /** A quote becomes five characters, and the text up to it stays as it is. */
  lemma EscapeReplaces(a: string, b: string)
    requires '\'' !in a
    ensures EscapeQuotes(a) == a
    ensures EscapeQuotes(a + "'" + b) == a + "'\"'\"'" + EscapeQuotes(b)
  {
    hide EscapeQuotes;
    EscapeKeeps(a);
    EscapeQuoteIs();
    EscapeAppends(a + "'", b);
    EscapeAppends(a, "'");
  }

  /** A word is left as it is exactly when it is not empty and has listed characters only. */
  lemma QuotesIff(value: string)
    ensures if value != "" && forall c :: c in value ==> IsListed(c) then QuoteShellArgument(value) == value
            else QuoteShellArgument(value) == "'" + EscapeQuotes(value) + "'"
  {
    hide IsListed, IsPlain, EscapeQuotes;
    forall c | c in value ensures IsPlain(c) <==> IsListed(c) {
      PlainIs(c);
    }
  }

  /** One blank stands between the words. */
  lemma {:induction false} JoinIs(front: seq<string>, back: seq<string>)
    requires front != [] && back != []
    ensures Join(front + back) == Join(front) + " " + Join(back)
  {
    hide QuoteShellArgument;
    assert (front + back)[1..] == front[1..] + back;
    if |front| > 1 {
      JoinIs(front[1..], back);
    }
  }

  // ----- the shell -----

  datatype Mode = Bare | Single | Double

  /** Characters that, unquoted, separate words. */
  predicate IsBlank(c: char) {
    c == ' ' || c == '\t'
  }

  /** Characters that, unquoted, mean something other than themselves: operators, expansions, patterns, comments. */
  predicate IsSpecial(c: char) {
    c in {'|', '&', ';', '<', '>', '(', ')', '$', '`', '\n', '*', '?', '[', ']', '#', '~', '!', '{', '}', '%', '^'}
  }

  function Extend(word: Option<string>, c: char): Option<string> {
    Some((if word == None then "" else word.value) + [c])
  }

  function Open(word: Option<string>): Option<string> {
    Some(if word == None then "" else word.value)
  }

  function Finish(word: Option<string>, words: seq<string>): seq<string> {
    if word == None then words else words + [word.value]
  }

  /**
   The words of a simple command: quotes are removed, blanks outside them separate. Absent where the text is not
   plain words: an unquoted special character, an expansion in double quotes, or an unclosed quote.
   */
  function Words(s: string, mode: Mode, word: Option<string>, words: seq<string>): Option<seq<string>> {
    if s == "" then if mode == Bare then Some(Finish(word, words)) else None
    else
      match mode
      case Bare =>
        if IsBlank(s[0]) then Words(s[1..], Bare, None, Finish(word, words))
        else if s[0] == '\'' then Words(s[1..], Single, Open(word), words)
        else if s[0] == '"' then Words(s[1..], Double, Open(word), words)
        else if s[0] == '\\' then
          if |s| == 1 then None
          else if s[1] == '\n' then Words(s[2..], Bare, word, words)
          else Words(s[2..], Bare, Extend(word, s[1]), words)
        else if IsSpecial(s[0]) then None
        else Words(s[1..], Bare, Extend(word, s[0]), words)
      case Single =>
        if s[0] == '\'' then Words(s[1..], Bare, word, words)
        else Words(s[1..], Single, Extend(word, s[0]), words)
      case Double =>
        if s[0] == '"' then Words(s[1..], Bare, word, words)
        else if s[0] == '$' || s[0] == '`' then None
        else if s[0] == '\\' then
          if |s| == 1 then None
          else if s[1] == '\n' then Words(s[2..], Double, word, words)
          else if s[1] in {'$', '`', '"', '\\'} then Words(s[2..], Double, Extend(word, s[1]), words)
          else Words(s[1..][1..], Double, Extend(Extend(word, '\\'), s[1]), words)
        else Words(s[1..], Double, Extend(word, s[0]), words)
  }

  function ShellWords(s: string): Option<seq<string>> {
    Words(s, Bare, None, [])
  }

  // ----- the round trip -----

  /** An unquoted plain character adds itself to the word. */
  lemma PlainStep(c: char, rest: string, word: Option<string>, words: seq<string>)
    requires IsPlain(c)
    ensures Words([c] + rest, Bare, word, words) == Words(rest, Bare, Extend(word, c), words)
  {
    PlainIsNothingElse(c);
    hide IsPlain, IsSpecial, IsBlank;
    assert ([c] + rest)[1..] == rest;
  }

  lemma PlainIsNothingElse(c: char)
    requires IsPlain(c)
    ensures !IsBlank(c) && !IsSpecial(c) && c !in {'\'', '"', '\\'}
  {
  }

  lemma {:induction false} PlainReads(v: string, rest: string, word: string, words: seq<string>)
    requires forall c :: c in v ==> IsPlain(c)
    ensures Words(v + rest, Bare, Some(word), words) == Words(rest, Bare, Some(word + v), words)
  {
    hide IsPlain, Words;
    if v == "" {
      assert v + rest == rest && word + v == word;
    } else {
      assert v[0] in v;
      assert v + rest == [v[0]] + (v[1..] + rest) && word + v == word + [v[0]] + v[1..];
      PlainStep(v[0], v[1..] + rest, Some(word), words);
      PlainReads(v[1..], rest, word + [v[0]], words);
    }
  }

  lemma SingleStep(c: char, rest: string, word: string, words: seq<string>)
    ensures Words([c] + rest, Single, Some(word), words)
         == if c == '\'' then Words(rest, Bare, Some(word), words) else Words(rest, Single, Some(word + [c]), words)
  {
    assert ([c] + rest)[1..] == rest;
  }

  lemma EscapeStep(v: string, rest: string)
    requires v != ""
    ensures EscapeQuotes(v) + "'" + rest == EscapeQuote(v[0]) + (EscapeQuotes(v[1..]) + "'" + rest)
  {
  }

  /** One character of a quoted stretch, escaped or not, adds itself. */
  lemma QuotedStep(c: char, tail: string, word: string, words: seq<string>)
    ensures Words(EscapeQuote(c) + tail, Single, Some(word), words) == Words(tail, Single, Some(word + [c]), words)
  {
    hide Words;
    if c == '\'' {
      QuoteReads(tail, word, words);
    } else {
      SingleStep(c, tail, word, words);
    }
  }

  /** A quoted stretch adds the text it was made from, and the closing quote ends it. */
  lemma {:induction false} EscapedReads(v: string, rest: string, word: string, words: seq<string>)
    ensures Words(EscapeQuotes(v) + "'" + rest, Single, Some(word), words) == Words(rest, Bare, Some(word + v), words)
  {
    hide Words, EscapeQuote;
    if v == "" {
      assert EscapeQuotes(v) + "'" + rest == ['\''] + rest && word + v == word;
      SingleStep('\'', rest, word, words);
    } else {
      hide EscapeQuotes;
      EscapeStep(v, rest);
      QuotedStep(v[0], EscapeQuotes(v[1..]) + "'" + rest, word, words);
      EscapedReads(v[1..], rest, word + [v[0]], words);
      assert word + v == word + [v[0]] + v[1..];
    }
  }

  /** The five characters that stand for a single quote. */
  lemma QuoteReads(tail: string, word: string, words: seq<string>)
    ensures Words("'\"'\"'" + tail, Single, Some(word), words) == Words(tail, Single, Some(word + "'"), words)
  {
    var s := "'\"'\"'" + tail;
    assert s[1..][0] == '"' && s[1..][1..] == s[2..] && s[2..][0] == '\'' && s[2..][1..] == s[3..];
    assert s[3..][0] == '"' && s[3..][1..] == s[4..] && s[4..][0] == '\'' && s[4..][1..] == tail;
    assert Words(s, Single, Some(word), words) == Words(s[1..], Bare, Some(word), words);
    assert Words(s[1..], Bare, Some(word), words) == Words(s[2..], Double, Some(word), words);
    assert Words(s[2..], Double, Some(word), words) == Words(s[3..], Double, Some(word + "'"), words);
    assert Words(s[3..], Double, Some(word + "'"), words) == Words(s[4..], Bare, Some(word + "'"), words);
  }

  /** A quoted argument reads as one word, the argument. */
  lemma ArgumentReads(v: string, rest: string, words: seq<string>)
    ensures Words(QuoteShellArgument(v) + rest, Bare, None, words) == Words(rest, Bare, Some(v), words)
  {
    if v != "" && forall c :: c in v ==> IsPlain(c) {
      hide IsPlain, Words;
      assert v[0] in v && v + rest == [v[0]] + (v[1..] + rest);
      PlainStep(v[0], v[1..] + rest, None, words);
      PlainReads(v[1..], rest, [v[0]], words);
      assert [v[0]] + v[1..] == v && "" + [v[0]] == [v[0]];
    } else {
      QuoteOpens(EscapeQuotes(v) + "'" + rest, words);
      assert QuoteShellArgument(v) + rest == "'" + (EscapeQuotes(v) + "'" + rest);
      EscapedReads(v, rest, "", words);
      assert "" + v == v;
    }
  }

  lemma QuoteOpens(rest: string, words: seq<string>)
    ensures Words("'" + rest, Bare, None, words) == Words(rest, Single, Some(""), words)
  {
    assert ("'" + rest)[1..] == rest;
  }

  lemma SpaceEnds(word: string, rest: string, words: seq<string>)
    ensures Words(" " + rest, Bare, Some(word), words) == Words(rest, Bare, None, words + [word])
  {
    assert (" " + rest)[1..] == rest;
  }

  lemma JoinStep(list: seq<string>)
    requires |list| > 1
    ensures Join(list) == QuoteShellArgument(list[0]) + (" " + Join(list[1..]))
  {
    hide QuoteShellArgument;
  }

  lemma LastReads(last: string, words: seq<string>)
    ensures Words(QuoteShellArgument(last), Bare, None, words) == Some(words + [last])
  {
    hide QuoteShellArgument;
    ArgumentReads(last, "", words);
    assert QuoteShellArgument(last) + "" == QuoteShellArgument(last);
  }

  lemma {:induction false} JoinReads(list: seq<string>, words: seq<string>)
    requires list != []
    ensures Words(Join(list), Bare, None, words) == Some(words + list)
  {
    hide QuoteShellArgument, Words;
    if |list| == 1 {
      LastReads(list[0], words);
      assert words + list == words + [list[0]];
    } else {
      hide Join;
      JoinStep(list);
      ArgumentReads(list[0], " " + Join(list[1..]), words);
      SpaceEnds(list[0], Join(list[1..]), words);
      JoinReads(list[1..], words + [list[0]]);
      assert words + [list[0]] + list[1..] == words + list;
    }
  }

  /** The shell splits a printed command into the command and its arguments, whatever characters they hold. */
  lemma CopyableCommandReads(command: string, arguments: seq<string>)
    ensures ShellWords(FormatCopyableCommand(command, arguments)) == Some([command] + arguments)
  {
    JoinReads([command] + arguments, []);
    assert [] + ([command] + arguments) == [command] + arguments;
  }
}
