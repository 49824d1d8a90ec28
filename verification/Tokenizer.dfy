/**
 Shell-like tokenising of command text: quotes, backslash escapes, and white space.
 */
module Tokenizer {
  import opened Prelude

  const NO_QUOTE := '\0'

  datatype Tokens = Tokens(tokens: seq<string>) | UnterminatedQuote

  datatype State = State(output: seq<string>, current: string, quote: char, escape: bool)

  const START := State([], "", NO_QUOTE, false)

  function Step(s: State, c: char): State {
    if s.escape then s.(current := s.current + [c], escape := false)
    else if c == '\\' then s.(escape := true)
    else if s.quote != NO_QUOTE then
      if c == s.quote then s.(quote := NO_QUOTE) else s.(current := s.current + [c])
    else if c == '\'' || c == '"' then s.(quote := c)
    else if IsSpace(c) then
      if s.current != "" then s.(output := s.output + [s.current], current := "") else s
    else s.(current := s.current + [c])
  }

  function Run(s: State, input: string): State
    decreases |input|
  {
    if input == "" then s else Run(Step(s, input[0]), input[1..])
  }

  function Finish(s: State): Tokens {
    var current := if s.escape then s.current + "\\" else s.current;
    if s.quote != NO_QUOTE then UnterminatedQuote
    else Tokens(if current != "" then s.output + [current] else s.output)
  }

  function Tokenized(input: string): Tokens {
    Finish(Run(START, input))
  }

  method Tokenize(input: string) returns (result: Tokens)
    ensures result == Tokenized(input)
  {
    var output: seq<string>, current, quote, escape := [], "", NO_QUOTE, false;
    for i := 0 to |input|
      invariant Run(State(output, current, quote, escape), input[i..]) == Run(START, input)
    {
      var character := input[i];
      assert input[i..][0] == character && input[i..][1..] == input[i+1..];
      if escape {
        current := current + [character];
        escape := false;
      } else if character == '\\' {
        escape := true;
      } else if quote != NO_QUOTE {
        if character == quote {
          quote := NO_QUOTE;
        } else {
          current := current + [character];
        }
      } else if character == '\'' || character == '"' {
        quote := character;
      } else if IsSpace(character) {
        if current != "" {
          output := output + [current];
          current := "";
        }
      } else {
        current := current + [character];
      }
    }
    if escape {
      current := current + ['\\'];
    }
    if quote != NO_QUOTE {
      return UnterminatedQuote;
    }
    if current != "" {
      output := output + [current];
    }
    result := Tokens(output);
  }

  // ----- the run, cut in two

  lemma {:induction false} RunConcat(s: State, a: string, b: string)
    ensures Run(s, a + b) == Run(Run(s, a), b)
    decreases |a|
  {
    if a == "" {
      assert a + b == b;
    } else {
      assert (a + b)[1..] == a[1..] + b;
      RunConcat(Step(s, a[0]), a[1..], b);
    }
  }

  function Behind(done: seq<string>, s: State): State {
    s.(output := done + s.output)
  }

  /** Tokens already put out do not influence the rest of the run. */
  lemma {:induction false} RunBehind(done: seq<string>, s: State, input: string)
    ensures Run(Behind(done, s), input) == Behind(done, Run(s, input))
    decreases |input|
  {
    if input != "" {
      var next := Step(s, input[0]);
      assert Step(Behind(done, s), input[0]) == Behind(done, next) by {
        assert done + (s.output + [s.current]) == (done + s.output) + [s.current];
      }
      RunBehind(done, next, input[1..]);
    }
  }

  function Prefixed(done: seq<string>, result: Tokens): Tokens {
    if result.UnterminatedQuote? then result else Tokens(done + result.tokens)
  }

  // ----- quoting, without the tokens

  datatype Mode = Mode(quote: char, escape: bool)

  /** Where the quoting stands after one more character: a backslash suspends the meaning of the next
      character, inside quotes as well as outside; a quote is closed only by its own kind. */
  function ModeAfter(m: Mode, input: string): Mode
    decreases |input|
  {
    if input == "" then m
    else
      var c := input[0];
      var next :=
        if m.escape then Mode(m.quote, false)
        else if c == '\\' then Mode(m.quote, true)
        else if m.quote == NO_QUOTE then Mode(if c in "'\"" then c else NO_QUOTE, false)
        else Mode(if c == m.quote then NO_QUOTE else m.quote, false);
      ModeAfter(next, input[1..])
  }

  const PLAIN := Mode(NO_QUOTE, false)

  lemma {:induction false} RunMode(s: State, input: string)
    ensures var end := Run(s, input); Mode(end.quote, end.escape) == ModeAfter(Mode(s.quote, s.escape), input)
    decreases |input|
  {
    if input != "" {
      RunMode(Step(s, input[0]), input[1..]);
    }
  }

  /** Tokenising fails exactly when the text ends inside a quote; a dangling backslash is no error. */
  lemma {:induction false} FailsIffInsideQuote(input: string)
    ensures Tokenized(input).UnterminatedQuote? <==> ModeAfter(PLAIN, input).quote != NO_QUOTE
  {
    RunMode(START, input);
  }

  lemma {:induction false} RunKeepsNonEmpty(s: State, input: string)
    requires "" !in s.output
    ensures "" !in Run(s, input).output
    decreases |input|
  {
    if input != "" {
      RunKeepsNonEmpty(Step(s, input[0]), input[1..]);
    }
  }

  lemma {:induction false} TokensNonEmpty(input: string)
    ensures Tokenized(input).Tokens? ==> "" !in Tokenized(input).tokens
  {
    RunKeepsNonEmpty(START, input);
  }

  /** Cut at a blank that is neither quoted nor escaped, a text tokenises piece by piece. */
  lemma {:induction false} TokenizeComposes(a: string, blank: char, b: string)
    requires IsSpace(blank) && ModeAfter(PLAIN, a) == PLAIN
    ensures Tokenized(a).Tokens?
    ensures Tokenized(a + [blank] + b) == Prefixed(Tokenized(a).tokens, Tokenized(b))
  {
    RunMode(START, a);
    var mid := Run(START, a);
    RunConcat(START, a + [blank], b);
    RunConcat(START, a, [blank]);
    var done := Tokenized(a).tokens;
    assert Step(mid, blank) == Behind(done, START);
    RunBehind(done, START, b);
  }

  // ----- escaping makes any text safe

  predicate Special(c: char) {
    c == '\\' || c == '\'' || c == '"' || IsSpace(c)
  }

  function EscapeChar(c: char): string {
    if Special(c) then ['\\', c] else [c]
  }

  function Escape(text: string): string {
    if text == "" then ""
    else EscapeChar(text[0]) + Escape(text[1..])
  }

  /** The tokens as one command line, every special character behind a backslash. */
  function Render(tokens: seq<string>): string {
    if tokens == [] then ""
    else if |tokens| == 1 then Escape(tokens[0])
    else Escape(tokens[0]) + [' '] + Render(tokens[1..])
  }

  lemma {:induction false} RunEscapedChar(s: State, c: char)
    requires s.quote == NO_QUOTE && !s.escape
    ensures Run(s, EscapeChar(c)) == s.(current := s.current + [c])
  {
    if Special(c) {
      assert ['\\', c] == ['\\'] + [c];
      RunConcat(s, ['\\'], [c]);
    }
  }

  lemma {:induction false} RunEscaped(s: State, text: string)
    requires s.quote == NO_QUOTE && !s.escape
    ensures Run(s, Escape(text)) == s.(current := s.current + text)
    decreases |text|
  {
    if text == "" {
      assert s.current + text == s.current;
    } else {
      var c := text[0];
      RunConcat(s, EscapeChar(c), Escape(text[1..]));
      RunEscapedChar(s, c);
      RunEscaped(s.(current := s.current + [c]), text[1..]);
      assert (s.current + [c]) + text[1..] == s.current + text;
    }
  }

  lemma {:induction false} EscapedToken(token: string)
    requires token != ""
    ensures Tokenized(Escape(token)) == Tokens([token])
    ensures ModeAfter(PLAIN, Escape(token)) == PLAIN
  {
    RunEscaped(START, token);
    RunMode(START, Escape(token));
    assert "" + token == token && [] + [token] == [token];
  }

  /** Any list of non-empty tokens can be written down and is read back unchanged. */
  lemma {:induction false} RenderRoundTrip(tokens: seq<string>)
    requires "" !in tokens
    ensures Tokenized(Render(tokens)) == Tokens(tokens)
  {
    if tokens != [] {
      var first, rest := tokens[0], tokens[1..];
      assert first in tokens && tokens == [first] + rest;
      EscapedToken(first);
      if rest != [] {
        RenderRoundTrip(rest);
        TokenizeComposes(Escape(first), ' ', Render(rest));
      }
    }
  }

  // ----- quoted stretches

  predicate IsQuote(c: char) {
    c == '\'' || c == '"'
  }

  /** The text between two quotes: the quote itself and the backslash need a backslash, nothing else does. */
  function QuotedBody(quote: char, text: string): string {
    if text == "" then ""
    else (if text[0] == quote || text[0] == '\\' then ['\\', text[0]] else [text[0]]) + QuotedBody(quote, text[1..])
  }

  function Quoted(quote: char, text: string): string {
    [quote] + QuotedBody(quote, text) + [quote]
  }

  lemma {:induction false} RunQuotedBody(s: State, text: string)
    requires IsQuote(s.quote) && !s.escape
    ensures Run(s, QuotedBody(s.quote, text)) == s.(current := s.current + text)
    decreases |text|
  {
    if text == "" {
      assert s.current + text == s.current;
    } else {
      var c, rest := text[0], QuotedBody(s.quote, text[1..]);
      if c == s.quote || c == '\\' {
        assert ['\\', c][1..] == [c];
        RunConcat(s, ['\\', c], rest);
      } else {
        RunConcat(s, [c], rest);
      }
      RunQuotedBody(s.(current := s.current + [c]), text[1..]);
      assert (s.current + [c]) + text[1..] == s.current + text;
    }
  }

  /** A quoted stretch adds its text to the word it stands in, blanks and quotes of the other kind
      included. */
  lemma {:induction false} RunQuoted(s: State, quote: char, text: string)
    requires IsQuote(quote) && s.quote == NO_QUOTE && !s.escape
    ensures Run(s, Quoted(quote, text)) == s.(current := s.current + text)
  {
    var inside := s.(quote := quote);
    RunConcat(s, [quote] + QuotedBody(quote, text), [quote]);
    RunConcat(s, [quote], QuotedBody(quote, text));
    RunQuotedBody(inside, text);
  }

  /** Anywhere outside quotes, a quoted stretch means what its text means with every special character
      behind a backslash. */
  lemma {:induction false} QuotedMeansEscaped(a: string, quote: char, text: string, b: string)
    requires IsQuote(quote) && ModeAfter(PLAIN, a) == PLAIN
    ensures Tokenized(a + Quoted(quote, text) + b) == Tokenized(a + Escape(text) + b)
  {
    RunMode(START, a);
    var mid := Run(START, a);
    RunConcat(START, a + Quoted(quote, text), b);
    RunConcat(START, a, Quoted(quote, text));
    RunConcat(START, a + Escape(text), b);
    RunConcat(START, a, Escape(text));
    RunQuoted(mid, quote, text);
    RunEscaped(mid, text);
  }

  /** The tokens as one command line, each between quotes of its own choice. */
  function RenderQuoted(tokens: seq<string>, quotes: seq<char>): string
    requires |quotes| == |tokens|
  {
    if tokens == [] then ""
    else if |tokens| == 1 then Quoted(quotes[0], tokens[0])
    else Quoted(quotes[0], tokens[0]) + [' '] + RenderQuoted(tokens[1..], quotes[1..])
  }

  /** Any list of non-empty tokens can be written between quotes and is read back unchanged. */
  lemma {:induction false} QuotedRoundTrip(tokens: seq<string>, quotes: seq<char>)
    requires |quotes| == |tokens| && "" !in tokens && forall i :: 0 <= i < |quotes| ==> IsQuote(quotes[i])
    ensures Tokenized(RenderQuoted(tokens, quotes)) == Tokens(tokens)
  {
    if tokens != [] {
      var first, rest := tokens[0], tokens[1..];
      var written := Quoted(quotes[0], first);
      assert first in tokens && tokens == [first] + rest;
      RunQuoted(START, quotes[0], first);
      RunMode(START, written);
      assert "" + first == first && Tokenized(written) == Tokens([first]);
      if rest != [] {
        QuotedRoundTrip(rest, quotes[1..]);
        TokenizeComposes(written, ' ', RenderQuoted(rest, quotes[1..]));
      }
    }
  }

  // ----- when joining is undone by tokenising

  function JoinPath(path: seq<string>): string {
    if path == [] then ""
    else
      var front := JoinPath(path[..|path|-1]);
      (if front == "" then "" else front + " ") + path[|path|-1]
  }

  method Join(path: seq<string>) returns (result: string)
    ensures result == JoinPath(path)
  {
    result := "";
    for i := 0 to |path|
      invariant result == JoinPath(path[..i])
    {
      assert path[..i+1][..i] == path[..i];
      if result != "" {
        result := result + [' '];
      }
      result := result + path[i];
    }
    assert path[..|path|] == path;
  }

  /** Empty tokens in front leave no blank behind. */
  lemma {:induction false} LeadingEmptyJoined(path: seq<string>)
    ensures JoinPath([""] + path) == JoinPath(path)
  {
    if path != [] {
      LeadingEmptyJoined(path[..|path|-1]);
      assert ([""] + path)[..|path|] == [""] + path[..|path|-1];
    }
  }

  predicate PlainChar(c: char) {
    !Special(c)
  }

  predicate PlainText(token: string) {
    forall i :: 0 <= i < |token| ==> PlainChar(token[i])
  }

  predicate PlainTokens(path: seq<string>) {
    forall i :: 0 <= i < |path| ==> path[i] != "" && PlainText(path[i])
  }

  /** Plain, but for one backslash that may end it. */
  predicate PlainButLast(token: string) {
    token != "" && PlainText(token[..|token|-1]) && (PlainChar(token[|token|-1]) || token[|token|-1] == '\\')
  }

  /** Every token is non-empty and free of blanks, quotes and backslashes, except that the very last
      character of all may be a backslash. */
  predicate Joinable(path: seq<string>) {
    path == [] || (PlainTokens(path[..|path|-1]) && PlainButLast(path[|path|-1]))
  }

  lemma {:induction false} RunPlain(s: State, token: string)
    requires PlainText(token) && s.quote == NO_QUOTE && !s.escape
    ensures Run(s, token) == s.(current := s.current + token)
    decreases |token|
  {
    if token == "" {
      assert s.current + token == s.current;
    } else {
      assert PlainChar(token[0]);
      RunPlain(Step(s, token[0]), token[1..]);
      assert (s.current + [token[0]]) + token[1..] == s.current + token;
    }
  }

  lemma {:induction false} RunInsideQuote(s: State, token: string)
    requires PlainText(token) && IsQuote(s.quote) && !s.escape
    ensures Run(s, token) == s.(current := s.current + token)
    decreases |token|
  {
    if token == "" {
      assert s.current + token == s.current;
    } else {
      assert PlainChar(token[0]);
      RunInsideQuote(Step(s, token[0]), token[1..]);
      assert (s.current + [token[0]]) + token[1..] == s.current + token;
    }
  }

  /** A quoted stretch inside a word extends that word. */
  lemma {:induction false} QuotedStretchExtendsWord(a: string, quote: char, text: string, b: string)
    requires PlainText(a) && PlainText(b) && IsQuote(quote) && a + text + b != ""
    ensures Tokenized(a + Quoted(quote, text) + b) == Tokens([a + text + b])
  {
    RunConcat(START, a + Quoted(quote, text), b);
    RunConcat(START, a, Quoted(quote, text));
    RunPlain(START, a);
    assert "" + a == a;
    RunQuoted(START.(current := a), quote, text);
    RunPlain(START.(current := a + text), b);
  }

  const BLANKS := {' ', '\t', '\n', '\U{0B}', '\U{0C}', '\r'}

  lemma {:induction false} RunWordThen(a: string, c: char, b: string)
    requires PlainText(a)
    ensures Run(START, a + [c] + b) == Run(Step(State([], a, NO_QUOTE, false), c), b)
  {
    RunConcat(START, a + [c], b);
    RunConcat(START, a, [c]);
    RunPlain(START, a);
    assert "" + a == a && [c][1..] == "";
  }

  lemma {:induction false} BlankSeparates(a: string, c: char, b: string)
    requires PlainText(a) && PlainText(b) && a != "" && b != "" && IsSpace(c)
    ensures Tokenized(a + [c] + b) == Tokens([a, b])
  {
    RunWordThen(a, c, b);
    RunPlain(State([a], "", NO_QUOTE, false), b);
    assert [] + [a] == [a] && "" + b == b && [a] + [b] == [a, b];
  }

  lemma {:induction false} NothingElseSeparates(a: string, c: char, b: string)
    requires PlainText(a) && PlainText(b) && a != "" && b != "" && !IsSpace(c)
    ensures Tokenized(a + [c] + b).Tokens? ==> |Tokenized(a + [c] + b).tokens| == 1
  {
    RunWordThen(a, c, b);
    if IsQuote(c) {
      RunInsideQuote(State([], a, c, false), b);
    } else if c == '\\' {
      RunConcat(State([], a, NO_QUOTE, true), [b[0]], b[1..]);
      assert b == [b[0]] + b[1..] && [b[0]][1..] == "";
      RunPlain(State([], a + [b[0]], NO_QUOTE, false), b[1..]);
    } else {
      RunPlain(State([], a + [c], NO_QUOTE, false), b);
    }
  }

  /** The six blanks of the C locale, and no other character, separate two plain words. */
  lemma {:induction false} OnlyBlanksSeparate(a: string, c: char, b: string)
    requires PlainText(a) && PlainText(b) && a != "" && b != ""
    ensures Tokenized(a + [c] + b) == Tokens([a, b]) <==> c in BLANKS
  {
    assert IsSpace(c) <==> c in BLANKS;
    if IsSpace(c) {
      BlankSeparates(a, c, b);
    } else {
      NothingElseSeparates(a, c, b);
    }
  }

  lemma {:induction false} BlankText(input: string)
    requires forall k :: 0 <= k < |input| ==> input[k] in BLANKS
    ensures Tokenized(input) == Tokens([])
    decreases |input|
  {
    if input != "" {
      assert input[0] in BLANKS && IsSpace(input[0]);
      assert Step(START, input[0]) == START;
      BlankText(input[1..]);
    }
  }

  /** Reading plain tokens off a joined path, up to the last, which is still open. */
  lemma {:induction false} RunJoined(path: seq<string>)
    requires path != [] && PlainTokens(path)
    ensures JoinPath(path) != ""
    ensures Run(START, JoinPath(path)) == State(path[..|path|-1], path[|path|-1], NO_QUOTE, false)
  {
    var front, last := path[..|path|-1], path[|path|-1];
    assert forall i :: 0 <= i < |front| ==> front[i] == path[i];
    if front == [] {
      assert JoinPath(front) == "" && "" + last == last;
      RunPlain(START, last);
    } else {
      RunJoined(front);
      var text := JoinPath(front);
      assert JoinPath(path) == (text + " ") + last;
      RunConcat(START, text + " ", last);
      RunConcat(START, text, " ");
      assert front[..|front|-1] + [front[|front|-1]] == front;
      RunPlain(State(front, "", NO_QUOTE, false), last);
      assert "" + last == last;
    }
  }

  /** A backslash at the very end of the text stands for itself. */
  lemma {:induction false} DanglingBackslash(front: seq<string>, stem: string)
    requires PlainTokens(front) && PlainText(stem)
    ensures Tokenized(JoinPath(front + [stem + "\\"])) == Tokens(front + [stem + "\\"])
  {
    var path := front + [stem + "\\"];
    assert path[..|path|-1] == front;
    var head := if front == [] then "" else JoinPath(front) + " ";
    var open := State(front, "", NO_QUOTE, false);
    assert Run(START, head) == open by {
      if front != [] {
        RunJoined(front);
        RunConcat(START, JoinPath(front), " ");
        assert front[..|front|-1] + [front[|front|-1]] == front;
      }
    }
    assert JoinPath(path) == (head + stem) + "\\" by {
      if front != [] { RunJoined(front); }
    }
    RunConcat(START, head + stem, "\\");
    RunConcat(START, head, stem);
    RunPlain(open, stem);
    assert "" + stem == stem;
  }

  lemma {:induction false} JoinableIsUndone(path: seq<string>)
    requires Joinable(path)
    ensures Tokenized(JoinPath(path)) == Tokens(path)
  {
    if path != [] {
      var front, last := path[..|path|-1], path[|path|-1];
      assert path == front + [last];
      var c := last[|last|-1];
      if PlainChar(c) {
        assert forall i :: 0 <= i < |path| - 1 ==> path[i] == front[i];
        assert forall i :: 0 <= i < |last| - 1 ==> last[i] == last[..|last|-1][i];
        RunJoined(path);
      } else {
        DanglingBackslash(front, last[..|last|-1]);
        assert last == last[..|last|-1] + "\\";
      }
    }
  }

  // The converse counts characters.  Each character either adds one to the size of what has been read
  // (a token's character, or the blank that ends a token) or is lost (a quote, a backslash, a spare blank).

  function TotalLength(tokens: seq<string>): nat {
    if tokens == [] then 0 else TotalLength(tokens[..|tokens|-1]) + |tokens[|tokens|-1]|
  }

  function Size(s: State): nat {
    TotalLength(s.output) + |s.output| + |s.current|
  }

  function Lost(s: State, input: string): nat
    decreases |input|
  {
    if input == "" then 0
    else (if Size(Step(s, input[0])) == Size(s) then 1 else 0) + Lost(Step(s, input[0]), input[1..])
  }

  lemma {:induction false} SizeRun(s: State, input: string)
    ensures Size(Run(s, input)) + Lost(s, input) == Size(s) + |input|
    decreases |input|
  {
    if input != "" {
      SizeRun(Step(s, input[0]), input[1..]);
    }
  }

  lemma {:induction false} JoinedLength(path: seq<string>)
    requires path != [] && "" !in path
    ensures |JoinPath(path)| + 1 == TotalLength(path) + |path|
  {
    var front := path[..|path|-1];
    assert path[|path|-1] in path;
    if front == [] {
      assert JoinPath(front) == "";
    } else {
      assert forall t :: t in front ==> t in path;
      JoinedLength(front);
      assert |JoinPath(front)| > 0 by {
        assert front[|front|-1] in front;
      }
    }
  }

  predicate PlainState(s: State) {
    s.quote == NO_QUOTE && !s.escape && PlainText(s.current) && PlainTokens(s.output)
  }

  /** A run that loses nothing meets no quote and no backslash. */
  lemma {:induction false} LosslessRun(s: State, input: string)
    requires PlainState(s) && Lost(s, input) == 0
    ensures PlainState(Run(s, input))
    decreases |input|
  {
    if input != "" {
      LosslessRun(Step(s, input[0]), input[1..]);
    }
  }

  lemma {:induction false} LostSnoc(s: State, input: string, c: char)
    ensures Lost(s, input + [c]) ==
            Lost(s, input) + if Size(Step(Run(s, input), c)) == Size(Run(s, input)) then 1 else 0
    decreases |input|
  {
    if input == "" {
      assert input + [c] == [c] && [c][1..] == "";
    } else {
      assert (input + [c])[1..] == input[1..] + [c];
      LostSnoc(Step(s, input[0]), input[1..], c);
    }
  }

  lemma {:induction false} UndoneIsJoinable(path: seq<string>)
    requires Tokenized(JoinPath(path)) == Tokens(path)
    ensures Joinable(path)
  {
    if path != [] {
      var input := JoinPath(path);
      var end := Run(START, input);
      TokensNonEmpty(input);
      JoinedLength(path);
      SizeRun(START, input);
      if end.escape {
        assert path == end.output + [end.current + "\\"];
        assert path[..|path|-1] == end.output;
        var front, c := input[..|input|-1], input[|input|-1];
        assert input == front + [c];
        RunConcat(START, front, [c]);
        LostSnoc(START, front, c);
        LosslessRun(START, front);
        assert (end.current + "\\")[..|end.current|] == end.current;
      } else if end.current != "" {
        assert path == end.output + [end.current];
        assert path[..|path|-1] == end.output;
        LosslessRun(START, input);
      }
    }
  }

  /** Tokenising undoes joining exactly on the joinable paths. */
  lemma {:induction false} JoinUndoneIff(path: seq<string>)
    ensures Tokenized(JoinPath(path)) == Tokens(path) <==> Joinable(path)
  {
    if Joinable(path) {
      JoinableIsUndone(path);
    } else if Tokenized(JoinPath(path)) == Tokens(path) {
      UndoneIsJoinable(path);
    }
  }
}
