/** The Make-style dependency files of evaluation/emitter-parity-run.py and the printer of its controls. */
module Depfile {
  import opened Wrappers

  // ---------------------------------------------------------------- Python's characters

  /** Where `splitlines` breaks. */
  predicate IsBreak(c: char) {
    c in {'\n', '\r', '\U{0B}', '\U{0C}', '\U{1C}', '\U{1D}', '\U{1E}', '\U{85}', '\U{2028}', '\U{2029}'}
  }

  /** What `strip` removes. */
  predicate IsSpace(c: char) {
    || IsBreak(c)
    || c in {'\t', ' ', '\U{1F}', '\U{A0}', '\U{1680}', '\U{202F}', '\U{205F}', '\U{3000}'}
    || '\U{2000}' <= c <= '\U{200A}'
  }

  predicate Blank(line: string) {
    forall i | 0 <= i < |line| :: IsSpace(line[i])
  }

  /** Lines without their breaks; no empty line after a final break. The text holds no carriage return to pair with. */
  function SplitLines(text: string): seq<string> {
    SplitFrom(text, "")
  }

  function SplitFrom(text: string, line: string): seq<string>
    decreases |text|
  {
    if text == "" then (if line == "" then [] else [line])
    else if IsBreak(text[0]) then [line] + SplitFrom(text[1..], "")
    else SplitFrom(text[1..], line + [text[0]])
  }

  // ---------------------------------------------------------------- the parser

  /** A word, or the separator between target and dependencies. */
  datatype Word = Path(path: string) | Colon

  datatype Rule = Rule(target: string, dependencies: seq<string>)

  predicate Escapable(c: char) {
    c in {'\\', ' ', '\t', ':', '#'}
  }

  function Flushed(token: string): seq<Word> {
    if token == "" then [] else [Path(token)]
  }

  /** The words of the rest of a line after a started token; none where the parser's assertions fail. */
  function Tokens(line: string, token: string): Option<seq<Word>>
    decreases |line|
  {
    if line == "" then Some(Flushed(token))
    else if line[0] == '\\' then
      if |line| > 1 && Escapable(line[1]) then Tokens(line[2..], token + [line[1]]) else None
    else if line[0] == '$' then
      if |line| > 1 && line[1] == '$' then Tokens(line[2..], token + ['$']) else None
    else if line[0] == ' ' || line[0] == '\t' || line[0] == ':' then
      match Tokens(line[1..], "")
      case None => None
      case Some(words) => Some(Flushed(token) + (if line[0] == ':' then [Colon] else []) + words)
    else if line[0] == '#' then None
    else Tokens(line[1..], token + [line[0]])
  }

  predicate Introduces(c: char) {
    c == '\\' || c == '$'
  }

  /** Whether the character at k begins something, rather than being the escaped half of what the one before began. */
  predicate Begins(line: string, k: nat)
    requires k <= |line|
  {
    k == 0 || !(Begins(line, k - 1) && Introduces(line[k - 1]))
  }

  /** An unescaped `#`, an escape of nothing or of a character that needs none, or a lone `$`. */
  ghost predicate BadAt(line: string, k: nat)
    requires k < |line|
  {
    Begins(line, k) &&
    ( || line[k] == '#'
      || (line[k] == '\\' && !(k + 1 < |line| && line[k + 1] in {'\\', ' ', '\t', ':', '#'}))
      || (line[k] == '$' && !(k + 1 < |line| && line[k + 1] == '$')))
  }

  lemma {:induction false} BeginsLater(line: string, n: nat, k: nat)
    requires n + k <= |line| && Begins(line, n)
    ensures Begins(line, n + k) == Begins(line[n..], k)
  {
    if k > 0 {
      BeginsLater(line, n, k - 1);
      assert line[n..][k - 1] == line[n + k - 1];
    }
  }

  /** A line has no words exactly if it is bad somewhere. */
  lemma {:induction false} TokensRefuseExactly(line: string, token: string)
    ensures Tokens(line, token).None? <==> exists k: nat | k < |line| :: BadAt(line, k)
    decreases |line|
  {
    if line != "" {
      var n: nat := if Introduces(line[0]) then 2 else 1;
      assert Begins(line, 0) && Begins(line, 1) == !Introduces(line[0]);
      if !BadAt(line, 0) {
        assert n <= |line| && Begins(line, n);
        var rest := line[n..];
        TokensRefuseExactly(rest, if line[0] == ' ' || line[0] == '\t' || line[0] == ':' then "" else token + [line[n - 1]]);
        forall k: nat | k < |rest| ensures BadAt(rest, k) <==> BadAt(line, n + k) {
          BeginsLater(line, n, k);
        }
        assert n == 2 ==> !Begins(line, 1);
        forall k: nat | k < |line| && BadAt(line, k) ensures k >= n && BadAt(rest, k - n) {
          assert k - n < |rest|;
        }
        if j: nat :| j < |rest| && BadAt(rest, j) {
          assert BadAt(line, n + j);
        }
      }
    }
  }

  /** Exactly one separator, right after the target. */
  function RuleOf(words: seq<Word>): Option<Rule> {
    if |words| >= 2 && words[0].Path? && words[1].Colon? && forall i | 2 <= i < |words| :: words[i].Path? then
      Some(Rule(words[0].path, Paths(words[2..])))
    else None
  }

  function Paths(words: seq<Word>): (r: seq<string>)
    requires forall i | 0 <= i < |words| :: words[i].Path?
    ensures |r| == |words| && forall i | 0 <= i < |r| :: words[i] == Path(r[i])
  {
    seq(|words|, i requires 0 <= i < |words| => words[i].path)
  }

  function LineRule(line: string): Option<Rule> {
    match Tokens(line, "")
    case None => None
    case Some(words) => RuleOf(words)
  }

  function LinesRules(lines: seq<string>): Option<seq<Rule>> {
    if lines == [] then Some([])
    else if Blank(lines[0]) then LinesRules(lines[1..])
    else match LineRule(lines[0])
         case None => None
         case Some(rule) =>
           match LinesRules(lines[1..])
           case None => None
           case Some(rules) => Some([rule] + rules)
  }

  predicate WellFormedText(text: string) {
    text != "" && text[|text| - 1] == '\n' && '\r' !in text && '\0' !in text
  }

  /** What the parser accepts and returns; none is an assertion error. */
  function Rules(text: string): Option<seq<Rule>> {
    if !WellFormedText(text) then None
    else match LinesRules(SplitLines(text))
         case None => None
         case Some(rules) => if rules == [] then None else Some(rules)
  }

  function Extended(words: seq<Word>, rest: Option<seq<Word>>): Option<seq<Word>> {
    match rest
    case None => None
    case Some(more) => Some(words + more)
  }

  /** The scanning loop of one line. */
  method ScanLine(line: string) returns (r: Option<seq<Word>>)
    ensures r == Tokens(line, "")
  {
    var words: seq<Word> := [];
    var token := "";
    var index := 0;
    assert line[0..] == line;
    assert forall rest: seq<Word> :: [] + rest == rest;
    while index < |line|
      invariant index <= |line|
      invariant Tokens(line, "") == Extended(words, Tokens(line[index..], token))
    {
      var c := line[index];
      var rest := line[index..];
      assert rest[1..] == line[index + 1..];
      if c == '\\' {
        index := index + 1;
        if index >= |line| || !Escapable(line[index]) {
          return None;
        }
        assert rest[2..] == line[index + 1..];
        token := token + [line[index]];
      } else if c == '$' {
        index := index + 1;
        if index >= |line| || line[index] != '$' {
          return None;
        }
        assert rest[2..] == line[index + 1..];
        token := token + ['$'];
      } else if c == ' ' || c == '\t' || c == ':' {
        SeparatorStep(rest, token, words);
        if token != "" {
          words := words + [Path(token)];
          token := "";
        }
        if c == ':' {
          words := words + [Colon];
        }
      } else {
        if c == '#' {
          return None;
        }
        token := token + [c];
      }
      index := index + 1;
    }
    assert line[index..] == "" && words + [] == words;
    if token != "" {
      words := words + [Path(token)];
    }
    r := Some(words);
  }

  lemma SeparatorStep(rest: string, token: string, words: seq<Word>)
    requires rest != "" && (rest[0] == ' ' || rest[0] == '\t' || rest[0] == ':')
    ensures var colon := if rest[0] == ':' then [Colon] else [];
            Extended(words, Tokens(rest, token)) == Extended((words + Flushed(token)) + colon, Tokens(rest[1..], ""))
    ensures words + [] == words && (words + Flushed(token)) + [] == words + Flushed(token)
  {
    var colon := if rest[0] == ':' then [Colon] else [];
    var after := Tokens(rest[1..], "");
    if after.Some? {
      assert words + (Flushed(token) + colon + after.value) == ((words + Flushed(token)) + colon) + after.value;
    }
  }

  method DepfileRules(text: string) returns (r: Option<seq<Rule>>)
    ensures r == Rules(text)
  {
    hide IsBreak, IsSpace;
    if !WellFormedText(text) {
      return None;
    }
    var lines := SplitLines(text);
    var rules: seq<Rule> := [];
    var k := 0;
    assert lines[0..] == lines;
    assert forall rest: seq<Rule> :: [] + rest == rest;
    while k < |lines|
      invariant k <= |lines|
      invariant LinesRules(lines) == match LinesRules(lines[k..])
                                     case None => None
                                     case Some(rest) => Some(rules + rest)
    {
      assert lines[k..][1..] == lines[k + 1..];
      if !Blank(lines[k]) {
        var words := ScanLine(lines[k]);
        if words.None? {
          return None;
        }
        var rule := RuleOf(words.value);
        if rule.None? {
          return None;
        }
        assert forall rest: seq<Rule> :: rules + ([rule.value] + rest) == (rules + [rule.value]) + rest;
        rules := rules + [rule.value];
      }
      k := k + 1;
    }
    assert lines[k..] == [] && rules + [] == rules;
    if rules == [] {
      return None;
    }
    r := Some(rules);
  }

  // ---------------------------------------------------------------- the printer

  /** Python's `replace` of a one-character pattern. */
  function Replace(s: string, c: char, replacement: string): string {
    if s == "" then "" else (if s[0] == c then replacement else [s[0]]) + Replace(s[1..], c, replacement)
  }

  /** The printer's chain of replacements, in its order. */
  function Quote(word: string): string {
    var a := Replace(word, '\\', "\\\\");
    var b := Replace(a, '$', "$$");
    var c := Replace(b, ' ', "\\ ");
    var d := Replace(c, '\t', "\\\t");
    var e := Replace(d, ':', "\\:");
    Replace(e, '#', "\\#")
  }

  /** One escape per character. */
  function Escape(c: char): string {
    if c == '$' then "$$" else if Escapable(c) then ['\\', c] else [c]
  }

  function Escaped(word: string): string {
    if word == "" then "" else Escape(word[0]) + Escaped(word[1..])
  }

  lemma ReplaceStep(x: char, rest: string, c: char, replacement: string)
    ensures Replace([x] + rest, c, replacement) == (if x == c then replacement else [x]) + Replace(rest, c, replacement)
    ensures Replace("", c, replacement) == ""
  {
    assert ([x] + rest)[1..] == rest;
  }

  lemma {:induction false} ReplaceConcat(s: string, t: string, c: char, replacement: string)
    ensures Replace(s + t, c, replacement) == Replace(s, c, replacement) + Replace(t, c, replacement)
  {
    hide Replace;
    if s == "" {
      assert s + t == t;
      ReplaceStep(c, t, c, replacement);
    } else {
      assert s == [s[0]] + s[1..] && s + t == [s[0]] + (s[1..] + t);
      ReplaceStep(s[0], s[1..], c, replacement);
      ReplaceStep(s[0], s[1..] + t, c, replacement);
      ReplaceConcat(s[1..], t, c, replacement);
    }
  }

  lemma QuoteConcat(s: string, t: string)
    ensures Quote(s + t) == Quote(s) + Quote(t)
  {
    hide Replace;
    var a, a' := Replace(s, '\\', "\\\\"), Replace(t, '\\', "\\\\");
    ReplaceConcat(s, t, '\\', "\\\\");
    var b, b' := Replace(a, '$', "$$"), Replace(a', '$', "$$");
    ReplaceConcat(a, a', '$', "$$");
    var c, c' := Replace(b, ' ', "\\ "), Replace(b', ' ', "\\ ");
    ReplaceConcat(b, b', ' ', "\\ ");
    var d, d' := Replace(c, '\t', "\\\t"), Replace(c', '\t', "\\\t");
    ReplaceConcat(c, c', '\t', "\\\t");
    var e, e' := Replace(d, ':', "\\:"), Replace(d', ':', "\\:");
    ReplaceConcat(d, d', ':', "\\:");
    ReplaceConcat(e, e', '#', "\\#");
  }

  lemma ReplaceOne(x: char, c: char, replacement: string)
    ensures Replace([x], c, replacement) == if x == c then replacement else [x]
  {
    assert [x][1..] == "";
  }

  lemma ReplaceTwo(x: char, y: char, c: char, replacement: string)
    requires x != c
    ensures Replace([x, y], c, replacement) == [x] + if y == c then replacement else [y]
  {
    assert [x, y][1..] == [y];
    ReplaceOne(y, c, replacement);
  }

  lemma QuoteOne(x: char)
    ensures Quote([x]) == Escape(x)
  {
    hide Replace;
    ReplaceOne(x, '\\', "\\\\");
    ReplaceOne(x, '$', "$$");
    ReplaceOne(x, ' ', "\\ ");
    ReplaceOne(x, '\t', "\\\t");
    ReplaceOne(x, ':', "\\:");
    ReplaceOne(x, '#', "\\#");
    var two := Escape(x);
    if |two| == 2 {
      assert two == [two[0], two[1]];
      QuotedTwice(two[0], two[1]);
    }
  }

  /** No later replacement touches a pair an earlier one has written. */
  lemma QuotedTwice(x: char, y: char)
    requires (x == '\\' || x == '$')
    ensures y != '$' && x != '$' ==> Replace([x, y], '$', "$$") == [x, y]
    ensures y != ' ' ==> Replace([x, y], ' ', "\\ ") == [x, y]
    ensures y != '\t' ==> Replace([x, y], '\t', "\\\t") == [x, y]
    ensures y != ':' ==> Replace([x, y], ':', "\\:") == [x, y]
    ensures y != '#' ==> Replace([x, y], '#', "\\#") == [x, y]
  {
    hide Replace;
    if x != '$' {
      ReplaceTwo(x, y, '$', "$$");
    }
    ReplaceTwo(x, y, ' ', "\\ ");
    ReplaceTwo(x, y, '\t', "\\\t");
    ReplaceTwo(x, y, ':', "\\:");
    ReplaceTwo(x, y, '#', "\\#");
  }

  /** The chain of replacements is one per-character escape, for every word. */
  lemma {:induction false} QuoteIsEscape(word: string)
    ensures Quote(word) == Escaped(word)
  {
    if word != "" {
      assert word == [word[0]] + word[1..];
      QuoteConcat([word[0]], word[1..]);
      QuoteOne(word[0]);
      QuoteIsEscape(word[1..]);
    }
  }

  function Joined(words: seq<string>): string {
    if words == [] then "" else if |words| == 1 then Quote(words[0]) else Quote(words[0]) + " " + Joined(words[1..])
  }

  function TargetLines(targets: seq<string>, body: string): string {
    if targets == [] then "" else Quote(targets[0]) + ": " + body + "\n" + TargetLines(targets[1..], body)
  }

  function PhonyLines(words: seq<string>): string {
    if words == [] then "" else Quote(words[0]) + ":\n" + PhonyLines(words[1..])
  }

  function Render(deps: seq<string>, targets: seq<string>): string {
    TargetLines(targets, Joined(deps)) + "\n" + PhonyLines(deps)
  }

  // ---------------------------------------------------------------- round trip

  /** A nonempty word without line breaks or NUL. */
  predicate Printable(word: string) {
    word != "" && forall i | 0 <= i < |word| :: !IsBreak(word[i]) && word[i] != '\0'
  }

  ghost predicate AllPrintable(words: seq<string>) {
    forall k | 0 <= k < |words| :: Printable(words[k])
  }

  /** Printed text that stays on one line. */
  predicate OneLine(s: string) {
    forall i | 0 <= i < |s| :: !IsBreak(s[i]) && s[i] != '\0'
  }

  lemma OneLineConcat(s: string, t: string)
    requires OneLine(s) && OneLine(t)
    ensures OneLine(s + t)
  {
  }

  lemma {:induction false} QuoteStaysOnOneLine(word: string)
    requires OneLine(word)
    ensures OneLine(Quote(word))
  {
    QuoteIsEscape(word);
    if word != "" {
      QuoteStaysOnOneLine(word[1..]);
      QuoteIsEscape(word[1..]);
      assert OneLine(Escape(word[0]));
      OneLineConcat(Escape(word[0]), Escaped(word[1..]));
    }
  }

  lemma {:induction false} JoinedStaysOnOneLine(words: seq<string>)
    requires AllPrintable(words)
    ensures OneLine(Joined(words))
  {
    if words != [] {
      QuoteStaysOnOneLine(words[0]);
      JoinedStaysOnOneLine(words[1..]);
      OneLineConcat(Quote(words[0]), " ");
      OneLineConcat(Quote(words[0]) + " ", Joined(words[1..]));
    }
  }

  /** Reading a printed word extends the token by exactly that word. */
  lemma {:induction false} TokensOfQuote(word: string, token: string, rest: string)
    ensures Tokens(Quote(word) + rest, token) == Tokens(rest, token + word)
    decreases |word|
  {
    hide Quote, Tokens, Escape;
    QuoteIsEscape(word);
    if word == "" {
      assert "" + rest == rest && token + "" == token;
    } else {
      QuoteIsEscape(word[1..]);
      var c, more := word[0], Escaped(word[1..]) + rest;
      assert Escaped(word) + rest == Escape(c) + more;
      TokensOfEscape(c, token, more);
      TokensOfQuote(word[1..], token + [c], rest);
      assert token + word == (token + [c]) + word[1..];
    }
  }

  /** A separator ends a printed word; spaces and tabs leave no trace, a colon is kept; an empty word is none. */
  lemma SeparatorEndsWord(word: string, separator: char, rest: string)
    requires separator == ' ' || separator == '\t' || separator == ':'
    ensures var r, later := Tokens(Quote(word) + [separator] + rest, ""), Tokens(rest, "");
            && (r.None? <==> later.None?)
            && (r.Some? ==>
                  r.value == (if word == "" then [] else [Path(word)]) + (if separator == ':' then [Colon] else []) + later.value)
  {
    hide Quote, Tokens;
    var line := [separator] + rest;
    assert Quote(word) + [separator] + rest == Quote(word) + line;
    TokensOfQuote(word, "", line);
    assert "" + word == word;
    AtSeparator(separator, rest, word);
  }

  lemma AtSeparator(separator: char, rest: string, token: string)
    requires separator == ' ' || separator == '\t' || separator == ':'
    ensures var r, later := Tokens([separator] + rest, token), Tokens(rest, "");
            && (r.None? <==> later.None?)
            && (r.Some? ==>
                  r.value == (if token == "" then [] else [Path(token)]) + (if separator == ':' then [Colon] else []) + later.value)
  {
    assert ([separator] + rest)[1..] == rest;
  }

  lemma TokensOfEscape(c: char, token: string, more: string)
    ensures Tokens(Escape(c) + more, token) == Tokens(more, token + [c])
  {
    var line := Escape(c) + more;
    if |Escape(c)| == 2 {
      assert line[2..] == more && line[1] == c;
    } else {
      assert line[1..] == more;
    }
  }

  function AsPaths(words: seq<string>): (r: seq<Word>)
    ensures |r| == |words| && forall i | 0 <= i < |r| :: r[i] == Path(words[i])
  {
    seq(|words|, i requires 0 <= i < |words| => Path(words[i]))
  }

  lemma {:induction false} TokensOfJoined(words: seq<string>)
    requires AllPrintable(words)
    ensures Tokens(Joined(words), "") == Some(AsPaths(words))
  {
    if words == [] {
    } else if |words| == 1 {
      hide Quote;
      TokensOfQuote(words[0], "", "");
      assert Quote(words[0]) + "" == Quote(words[0]) && "" + words[0] == words[0];
      assert AsPaths(words) == [Path(words[0])];
    } else {
      TokensOfJoined(words[1..]);
      JoinedStep(words);
    }
  }

  lemma JoinedStep(words: seq<string>)
    requires |words| > 1 && words[0] != "" && Tokens(Joined(words[1..]), "") == Some(AsPaths(words[1..]))
    ensures Tokens(Joined(words), "") == Some(AsPaths(words))
  {
    hide Quote, Joined, Tokens;
    var rest := " " + Joined(words[1..]);
    JoinedUnfolds(words);
    TokensOfQuote(words[0], "", rest);
    assert "" + words[0] == words[0];
    TokensAfterSpace(words[0], Joined(words[1..]), AsPaths(words[1..]));
    assert AsPaths(words) == [Path(words[0])] + AsPaths(words[1..]);
  }

  lemma JoinedUnfolds(words: seq<string>)
    requires |words| > 1
    ensures Joined(words) == Quote(words[0]) + (" " + Joined(words[1..]))
  {
    hide Quote;
  }

  lemma TokensAfterSpace(token: string, more: string, words: seq<Word>)
    requires token != "" && Tokens(more, "") == Some(words)
    ensures Tokens(" " + more, token) == Some([Path(token)] + words)
  {
    assert (" " + more)[1..] == more;
    assert [Path(token)] + [] == [Path(token)];
  }

  lemma RuleOfTarget(target: string, deps: seq<string>)
    ensures RuleOf([Path(target), Colon] + AsPaths(deps)) == Some(Rule(target, deps))
  {
    var words := [Path(target), Colon] + AsPaths(deps);
    assert words[2..] == AsPaths(deps);
    assert Paths(AsPaths(deps)) == deps;
  }

  lemma LineOfTarget(target: string, deps: seq<string>)
    requires Printable(target) && AllPrintable(deps)
    ensures LineRule(Quote(target) + ": " + Joined(deps)) == Some(Rule(target, deps))
    ensures LineRule(Quote(target) + ":") == Some(Rule(target, []))
  {
    hide Quote, Joined, RuleOf;
    var rest := ": " + Joined(deps);
    assert Quote(target) + ": " + Joined(deps) == Quote(target) + rest && "" + target == target;
    TokensOfQuote(target, "", rest);
    assert rest[1..] == " " + Joined(deps) && rest[1..][1..] == Joined(deps);
    TokensOfJoined(deps);
    assert Flushed("") + [] + AsPaths(deps) == AsPaths(deps);
    assert [Path(target)] + [Colon] + AsPaths(deps) == [Path(target), Colon] + AsPaths(deps);
    RuleOfTarget(target, deps);
    TokensOfQuote(target, "", ":");
    assert ":"[1..] == "" && [Path(target)] + [Colon] + [] == [Path(target), Colon] + AsPaths([]);
    RuleOfTarget(target, []);
  }

  lemma {:induction false} SplitOneLine(line: string, started: string, rest: string)
    requires OneLine(line)
    ensures SplitFrom(line + "\n" + rest, started) == [started + line] + SplitLines(rest)
    decreases |line|
  {
    var text := line + "\n" + rest;
    if line == "" {
      assert text[1..] == rest && started + line == started;
    } else {
      assert text[1..] == line[1..] + "\n" + rest;
      SplitOneLine(line[1..], started + [line[0]], rest);
      assert started + [line[0]] + line[1..] == started + line;
    }
  }

  function Prepend(rule: Rule, rules: Option<seq<Rule>>): Option<seq<Rule>> {
    match rules
    case None => None
    case Some(more) => Some([rule] + more)
  }

  /** One printed line is read back as its rule, followed by whatever the rest reads as. */
  lemma LineThenRest(line: string, rule: Rule, rest: string)
    requires OneLine(line) && LineRule(line) == Some(rule) && !Blank(line)
    ensures LinesRules(SplitLines(line + "\n" + rest)) == Prepend(rule, LinesRules(SplitLines(rest)))
  {
    hide LineRule, Blank;
    SplitOneLine(line, "", rest);
    assert "" + line == line;
    assert ([line] + SplitLines(rest))[1..] == SplitLines(rest);
  }

  lemma ColonIsNotBlank(before: string, after: string)
    ensures !Blank(before + ":" + after)
  {
    assert (before + ":" + after)[|before|] == ':';
  }

  function PhonyRules(words: seq<string>): (r: seq<Rule>)
    ensures |r| == |words|
  {
    if words == [] then [] else [Rule(words[0], [])] + PhonyRules(words[1..])
  }

  function TargetRules(targets: seq<string>, deps: seq<string>): (r: seq<Rule>)
    ensures |r| == |targets|
  {
    if targets == [] then [] else [Rule(targets[0], deps)] + TargetRules(targets[1..], deps)
  }

  lemma {:induction false} PhonyLinesRead(words: seq<string>)
    requires AllPrintable(words)
    ensures LinesRules(SplitLines(PhonyLines(words))) == Some(PhonyRules(words))
  {
    hide Quote, LineRule, Blank, IsBreak;
    if words != [] {
      PhonyLinesRead(words[1..]);
      var line := Quote(words[0]) + ":";
      QuoteStaysOnOneLine(words[0]);
      ColonStays(words[0]);
      LineOfTarget(words[0], []);
      ColonIsNotBlank(Quote(words[0]), "");
      assert Quote(words[0]) + ":" + "" == line;
      assert PhonyLines(words) == line + "\n" + PhonyLines(words[1..]);
      LineThenRest(line, Rule(words[0], []), PhonyLines(words[1..]));
    }
  }

  lemma ColonStays(word: string)
    requires OneLine(Quote(word))
    ensures OneLine(Quote(word) + ":") && OneLine(Quote(word) + ": ")
  {
    hide Quote;
  }

  lemma {:induction false} TargetLinesRead(targets: seq<string>, deps: seq<string>, rest: string)
    requires AllPrintable(targets) && AllPrintable(deps) && LinesRules(SplitLines(rest)).Some?
    ensures LinesRules(SplitLines(TargetLines(targets, Joined(deps)) + rest))
         == Some(TargetRules(targets, deps) + LinesRules(SplitLines(rest)).value)
  {
    hide Quote, LineRule, Blank, IsBreak, Joined, LinesRules, SplitLines;
    var body := Joined(deps);
    if targets == [] {
      assert "" + rest == rest && [] + LinesRules(SplitLines(rest)).value == LinesRules(SplitLines(rest)).value;
    } else {
      TargetLinesRead(targets[1..], deps, rest);
      var line := Quote(targets[0]) + ": " + body;
      QuoteStaysOnOneLine(targets[0]);
      ColonStays(targets[0]);
      JoinedStaysOnOneLine(deps);
      OneLineConcat(Quote(targets[0]) + ": ", body);
      LineOfTarget(targets[0], deps);
      ColonIsNotBlank(Quote(targets[0]), " " + body);
      assert Quote(targets[0]) + ":" + (" " + body) == line;
      var more := TargetLines(targets[1..], body) + rest;
      assert TargetLines(targets, body) + rest == line + "\n" + more;
      LineThenRest(line, Rule(targets[0], deps), more);
      var after := LinesRules(SplitLines(rest)).value;
      assert [Rule(targets[0], deps)] + (TargetRules(targets[1..], deps) + after) == TargetRules(targets, deps) + after;
    }
  }

  /** Printed text is well formed: it ends its last line and holds neither carriage return nor NUL. */
  predicate Clean(s: string) {
    '\r' !in s && '\0' !in s
  }

  lemma {:induction false} PhonyLinesClean(words: seq<string>)
    requires AllPrintable(words)
    ensures Clean(PhonyLines(words)) && (words != [] ==> PhonyLines(words) != "" && PhonyLines(words)[|PhonyLines(words)| - 1] == '\n')
  {
    hide Quote;
    if words != [] {
      PhonyLinesClean(words[1..]);
      QuoteStaysOnOneLine(words[0]);
      assert Clean(Quote(words[0]));
    }
  }

  lemma {:induction false} TargetLinesClean(targets: seq<string>, body: string)
    requires AllPrintable(targets) && OneLine(body)
    ensures Clean(TargetLines(targets, body))
  {
    hide Quote;
    if targets != [] {
      TargetLinesClean(targets[1..], body);
      QuoteStaysOnOneLine(targets[0]);
      assert Clean(Quote(targets[0])) && Clean(body);
    }
  }

  lemma RenderIsWellFormed(deps: seq<string>, targets: seq<string>)
    requires AllPrintable(deps) && AllPrintable(targets)
    ensures WellFormedText(Render(deps, targets))
  {
    hide Quote, Joined;
    JoinedStaysOnOneLine(deps);
    TargetLinesClean(targets, Joined(deps));
    PhonyLinesClean(deps);
    assert deps == [] ==> PhonyLines(deps) == "";
  }

  /**
   * Printing and parsing: every target with all dependencies, then every dependency as an empty rule. Only the
   * rendering of no target and no dependency is refused.
   */
  lemma DepfileRoundTrip(deps: seq<string>, targets: seq<string>)
    requires AllPrintable(deps) && AllPrintable(targets)
    ensures Rules(Render(deps, targets))
         == if targets == [] && deps == [] then None else Some(TargetRules(targets, deps) + PhonyRules(deps))
  {
    hide Quote, Joined, IsBreak, LineRule, AllPrintable, WellFormedText;
    RenderIsWellFormed(deps, targets);
    PhonyLinesRead(deps);
    var rest := "\n" + PhonyLines(deps);
    BlankLineSkipped(PhonyLines(deps));
    TargetLinesRead(targets, deps, rest);
    assert Render(deps, targets) == TargetLines(targets, Joined(deps)) + rest;
  }

  lemma BlankLineSkipped(rest: string)
    ensures LinesRules(SplitLines("\n" + rest)) == LinesRules(SplitLines(rest))
  {
    hide LineRule;
    SplitOneLine("", "", rest);
    assert "" + "\n" + rest == "\n" + rest && "" + "" == "";
    assert ([""] + SplitLines(rest))[1..] == SplitLines(rest);
  }
}
