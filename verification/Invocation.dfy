/**
 The two front ends of the registry: command text, tokenised and matched greedily against the tree, and
 structured invocations.  Both end in the same place, a node together with its arguments.
 */
module Invocation {
  import opened CommandValues
  import opened NamedValues
  import opened CommandTree
  import opened CommandRegistry
  import Tokenizer

  datatype CommandInvocation = CommandInvocation(
    path: seq<string>,
    positional: seq<CommandValue>,
    named: seq<NamedValue>,
    raw: string)

  /** What a front end makes of its input: an answer of its own, or a node to invoke. */
  datatype Reading<N> =
    | ParseError
    | NoCommand
    | HelpRequest(topic: seq<string>)
    | UnknownCommand(token: string)
    | IncompleteCommand(path: seq<string>)
    | MissingValue(key: string)
    | NoPath
    | UnknownPath(path: seq<string>)
    | Invoke(node: N, invocation: CommandInvocation)

  // ----- arguments

  datatype Arguments = Arguments(named: seq<NamedValue>, positional: seq<CommandValue>) | MissingKeyValue(key: string)

  function Find(text: string, c: char): (i: nat)
    ensures i <= |text|
    ensures i < |text| ==> text[i] == c
    ensures forall j :: 0 <= j < i ==> text[j] != c
  {
    if text == "" || text[0] == c then 0
    else
      var later := Find(text[1..], c);
      assert forall j :: 0 < j < 1 + later ==> text[j] == text[1..][j-1];
      1 + later
  }

  predicate IsOption(token: string) {
    "--" <= token
  }

  function OptionKey(token: string): string
    requires IsOption(token)
  {
    if Find(token, '=') < |token| then
      assert token[0] == '-' && token[1] == '-';
      token[2..Find(token, '=')]
    else token[2..]
  }

  /** The argument tokens from left to right.  A repeated key keeps its first value. */
  function ParseArguments(tokens: seq<string>, named: seq<NamedValue>, positional: seq<CommandValue>): Arguments
    decreases |tokens|
  {
    if tokens == [] then Arguments(named, positional)
    else if !IsOption(tokens[0]) then ParseArguments(tokens[1..], named, positional + [Text(tokens[0])])
    else
      var token, key, equals := tokens[0], OptionKey(tokens[0]), Find(tokens[0], '=');
      if equals < |token| then ParseArguments(tokens[1..], Emplace(named, key, Text(token[equals+1..])), positional)
      else if |tokens| == 1 then MissingKeyValue(key)
      else ParseArguments(tokens[2..], Emplace(named, key, Text(tokens[1])), positional)
  }

  // ----- text

  /** The greedy walk: the node reached, and how many tokens led there. */
  ghost function Walk<N>(g: Tree<N>, n: N, tokens: seq<string>): (reached: (N, nat))
    requires Closed(g) && n in g
    ensures reached.0 in g && reached.1 <= |tokens|
    decreases |tokens|
  {
    if tokens == [] || FindChild(g, n, tokens[0]).None? then (n, 0)
    else
      var (m, count) := Walk(g, FindChild(g, n, tokens[0]).value, tokens[1..]);
      (m, 1 + count)
  }

  ghost function InterpretTokens<N>(g: Tree<N>, root: N, tokens: seq<string>, raw: string): Reading<N>
    requires Closed(g) && root in g
  {
    var (node, index) := Walk(g, root, tokens);
    if node == root then UnknownCommand(if tokens == [] then "" else tokens[0])
    else if g[node].children != [] && !g[node].executable && index == |tokens| then IncompleteCommand(tokens[..index])
    else
      match ParseArguments(tokens[index..], [], [])
      case MissingKeyValue(key) => MissingValue(key)
      case Arguments(named, positional) => Invoke(node, CommandInvocation(tokens[..index], positional, named, raw))
  }

  ghost function InterpretText<N>(g: Tree<N>, root: N, input: string): Reading<N>
    requires Closed(g) && root in g
  {
    var result := Tokenizer.Tokenized(input);
    if result.UnterminatedQuote? then ParseError
    else if result.tokens == [] then NoCommand
    else if result.tokens[0] == "help" || result.tokens[0] == "?" then HelpRequest(result.tokens[1..])
    else InterpretTokens(g, root, result.tokens, input)
  }

  ghost function InterpretStructured<N>(g: Tree<N>, root: N, invocation: CommandInvocation): Reading<N>
    requires Closed(g) && root in g
  {
    if invocation.path == [] then NoPath
    else
      var node := Resolve(g, root, invocation.path);
      if node.None? then UnknownPath(invocation.path) else Invoke(node.value, invocation)
  }

  // ----- the code

  /** The first loop of `InvokeTokens`. */
  method WalkDown(registry: CommandRegistry, tokens: seq<string>)
    returns (node: CommandNode, index: nat, path: seq<string>)
    requires registry.Shaped()
    ensures Walk(registry.Tree(), registry.root, tokens) == (node, index)
    ensures path == tokens[..index]
  {
    ghost var g := registry.Tree();
    ghost var all := Walk(g, registry.root, tokens);
    assert tokens[0..] == tokens;
    node, index := registry.root, 0;
    path := [];
    while index < |tokens|
      invariant index <= |tokens| && node in g && path == tokens[..index]
      invariant all.0 == Walk(g, node, tokens[index..]).0 && all.1 == index + Walk(g, node, tokens[index..]).1
    {
      var child := registry.FindChild(node, tokens[index]);
      if child == null {
        return;
      }
      node := child;
      path := path + [tokens[index]];
      index := index + 1;
    }
  }

  method ReadArguments(tokens: seq<string>) returns (arguments: Arguments)
    ensures arguments == ParseArguments(tokens, [], [])
  {
    var named: seq<NamedValue>, positional: seq<CommandValue>, index := [], [], 0;
    while index < |tokens|
      invariant 0 <= index <= |tokens|
      invariant ParseArguments(tokens, [], []) == ParseArguments(tokens[index..], named, positional)
    {
      ghost var rest := tokens[index..];
      assert rest[0] == tokens[index] && rest[1..] == tokens[index+1..];
      var token := tokens[index];
      index := index + 1;
      if IsOption(token) {
        var equals := Find(token, '=');
        var key := OptionKey(token);
        var value;
        if equals < |token| {
          value := token[equals+1..];
        } else {
          if |tokens| <= index {
            return MissingKeyValue(key);
          }
          assert rest[1] == tokens[index] && rest[2..] == tokens[index+1..];
          value := tokens[index];
          index := index + 1;
        }
        named := Emplace(named, key, Text(value));
      } else {
        positional := positional + [Text(token)];
      }
    }
    arguments := Arguments(named, positional);
  }

  method InvokeTokens(registry: CommandRegistry, tokens: seq<string>, raw: string)
    returns (reading: Reading<CommandNode>)
    requires registry.Shaped()
    ensures reading == InterpretTokens(registry.Tree(), registry.root, tokens, raw)
  {
    var node, index, path := WalkDown(registry, tokens);
    assert registry.Tree()[node] == node.Info();
    if node == registry.root {
      return UnknownCommand(if tokens == [] then "" else tokens[0]);
    }
    if node.children != [] && !node.executable && index == |tokens| {
      return IncompleteCommand(path);
    }
    var arguments := ReadArguments(tokens[index..]);
    if arguments.MissingKeyValue? {
      return MissingValue(arguments.key);
    }
    reading := Invoke(node, CommandInvocation(path, arguments.positional, arguments.named, raw));
  }

  method InvokeText(registry: CommandRegistry, input: string) returns (reading: Reading<CommandNode>)
    requires registry.Shaped()
    ensures reading == InterpretText(registry.Tree(), registry.root, input)
  {
    var result := Tokenizer.Tokenize(input);
    if result.UnterminatedQuote? {
      return ParseError;
    }
    if result.tokens == [] {
      return NoCommand;
    }
    if result.tokens[0] == "help" || result.tokens[0] == "?" {
      return HelpRequest(result.tokens[1..]);
    }
    reading := InvokeTokens(registry, result.tokens, input);
  }

  method InvokeStructured(registry: CommandRegistry, invocation: CommandInvocation)
    returns (reading: Reading<CommandNode>)
    requires registry.Shaped()
    ensures reading == InterpretStructured(registry.Tree(), registry.root, invocation)
  {
    if invocation.path == [] {
      return NoPath;
    }
    var node := registry.Resolve(invocation.path);
    if node == null {
      return UnknownPath(invocation.path);
    }
    reading := Invoke(node, invocation);
  }
}

/** Text and structured invocation mean the same. */
module FrontEnds {
  import opened Prelude
  import opened CommandValues
  import opened CommandParameters
  import opened NamedValues
  import opened ParameterBinding
  import opened CommandTree
  import opened Invocation
  import Tokenizer

  /** Arguments that are all text. */
  datatype TextArguments = TextArguments(path: seq<string>, named: seq<(string, string)>, positional: seq<string>)

  function Values(texts: seq<string>): seq<CommandValue> {
    seq(|texts|, i requires 0 <= i < |texts| => Text(texts[i]))
  }

  function NamedTexts(named: seq<(string, string)>): seq<NamedValue> {
    seq(|named|, i requires 0 <= i < |named| => (named[i].0, Text(named[i].1)))
  }

  function OptionToken(key: string, value: string): string {
    "--" + key + "=" + value
  }

  function OptionTokens(named: seq<(string, string)>): seq<string> {
    seq(|named|, i requires 0 <= i < |named| => OptionToken(named[i].0, named[i].1))
  }

  function ArgumentTokens(a: TextArguments): seq<string> {
    OptionTokens(a.named) + a.positional
  }

  /** `path --k=v ... positionals`, every special character behind a backslash. */
  function AsText(a: TextArguments): string {
    Tokenizer.Render(a.path + ArgumentTokens(a))
  }

  function AsInvocation(a: TextArguments, raw: string): CommandInvocation {
    CommandInvocation(a.path, Values(a.positional), NamedTexts(a.named), raw)
  }

  /** What text can say: no empty tokens, no key with an equals sign, no positional that looks like an
      option, and nothing after the path that would be taken for a further step down the tree. */
  ghost predicate Expressible<N>(g: Tree<N>, root: N, a: TextArguments)
    requires Closed(g) && root in g
  {
    && a.path != [] && a.path[0] != "help" && a.path[0] != "?"
    && "" !in a.path && "" !in a.positional
    && (forall i :: 0 <= i < |a.named| ==> '=' !in a.named[i].0)
    && (forall i :: 0 <= i < |a.positional| ==> !IsOption(a.positional[i]))
    && Sorted(NamedTexts(a.named))
    && (Resolve(g, root, a.path).Some? && ArgumentTokens(a) != [] ==>
          FindChild(g, Resolve(g, root, a.path).value, ArgumentTokens(a)[0]).None?)
  }

  lemma {:induction false} WalkResolves<N>(g: Tree<N>, n: N, path: seq<string>, rest: seq<string>)
    requires Closed(g) && n in g && Resolve(g, n, path).Some?
    requires rest != [] ==> FindChild(g, Resolve(g, n, path).value, rest[0]).None?
    ensures Walk(g, n, path + rest) == (Resolve(g, n, path).value, |path|)
    decreases |path|
  {
    if path == [] {
      assert path + rest == rest;
    } else {
      assert (path + rest)[1..] == path[1..] + rest && (path + rest)[0] == path[0];
      WalkResolves(g, FindChild(g, n, path[0]).value, path[1..], rest);
    }
  }

  lemma {:induction false} OptionTokenParts(key: string, value: string)
    requires '=' !in key
    ensures var token := OptionToken(key, value);
            && IsOption(token) && OptionKey(token) == key
            && Find(token, '=') == 2 + |key| < |token| && token[Find(token, '=')+1..] == value
    ensures IsOption("--" + key) && Find("--" + key, '=') == |"--" + key| && OptionKey("--" + key) == key
  {
    var token := OptionToken(key, value);
    assert token[2 + |key|] == '=';
    forall j | 0 <= j < 2 + |key| ensures token[j] != '=' {
      assert j >= 2 ==> token[j] == key[j-2];
    }
    assert token[2..2+|key|] == key && token[3+|key|..] == value;
    var bare := "--" + key;
    forall j | 0 <= j < |bare| ensures bare[j] != '=' {
      assert j >= 2 ==> bare[j] == key[j-2];
    }
    assert bare[2..] == key;
  }

  /** Reading the rendered options: each is put among the named values. */
  lemma {:induction false} OptionsParsed(named: seq<(string, string)>, rest: seq<string>, given: seq<NamedValue>,
                                         positional: seq<CommandValue>)
    requires forall i :: 0 <= i < |named| ==> '=' !in named[i].0
    ensures ParseArguments(OptionTokens(named) + rest, given, positional) ==
            ParseArguments(rest, EmplaceAll(given, NamedTexts(named)), positional)
    decreases |named|
  {
    var tokens := OptionTokens(named) + rest;
    if named == [] {
      assert tokens == rest && NamedTexts(named) == [];
    } else {
      OptionTokenParts(named[0].0, named[0].1);
      assert tokens[0] == OptionToken(named[0].0, named[0].1);
      assert tokens[1..] == OptionTokens(named[1..]) + rest;
      assert NamedTexts(named)[0] == (named[0].0, Text(named[0].1)) && NamedTexts(named)[1..] == NamedTexts(named[1..]);
      OptionsParsed(named[1..], rest, Emplace(given, named[0].0, Text(named[0].1)), positional);
    }
  }

  lemma {:induction false} PositionalsParsed(positional: seq<string>, named: seq<NamedValue>, given: seq<CommandValue>)
    requires forall i :: 0 <= i < |positional| ==> !IsOption(positional[i])
    ensures ParseArguments(positional, named, given) == Arguments(named, given + Values(positional))
    decreases |positional|
  {
    if positional == [] {
      assert given + Values(positional) == given;
    } else {
      PositionalsParsed(positional[1..], named, given + [Text(positional[0])]);
      assert (given + [Text(positional[0])]) + Values(positional[1..]) == given + Values(positional);
    }
  }

  lemma {:induction false} ArgumentsParsed(a: TextArguments, given: seq<CommandValue>)
    requires forall i :: 0 <= i < |a.named| ==> '=' !in a.named[i].0
    requires forall i :: 0 <= i < |a.positional| ==> !IsOption(a.positional[i])
    requires Sorted(NamedTexts(a.named))
    ensures ParseArguments(ArgumentTokens(a), [], given) ==
            Arguments(NamedTexts(a.named), given + Values(a.positional))
  {
    OptionsParsed(a.named, a.positional, [], given);
    assert [] + NamedTexts(a.named) == NamedTexts(a.named);
    EmplaceAllSorted([], NamedTexts(a.named));
    PositionalsParsed(a.positional, NamedTexts(a.named), given);
  }

  lemma {:induction false} RenderedTokens(a: TextArguments)
    requires "" !in a.path && "" !in a.positional
    ensures Tokenizer.Tokenized(AsText(a)) == Tokenizer.Tokens(a.path + ArgumentTokens(a))
  {
    var tokens := a.path + ArgumentTokens(a);
    assert forall i :: 0 <= i < |a.named| ==> OptionTokens(a.named)[i] != "";
    assert "" !in tokens;
    Tokenizer.RenderRoundTrip(tokens);
  }

  /** The text says what the structure says: same node, same path, same named values, same positionals.
      Only a bare group, a node with children and no callback that is given no arguments, is answered
      differently: the text is called incomplete, the structure is passed on to be bound. */
  lemma {:induction false} TextMeansStructure<N>(g: Tree<N>, root: N, a: TextArguments, raw: string)
    requires TreeShaped(g, root) && Expressible(g, root, a) && Resolve(g, root, a.path).Some?
    ensures var node := Resolve(g, root, a.path).value;
            && InterpretStructured(g, root, AsInvocation(a, raw)) == Invoke(node, AsInvocation(a, raw))
            && InterpretText(g, root, AsText(a)) ==
               if g[node].children != [] && !g[node].executable && ArgumentTokens(a) == []
               then IncompleteCommand(a.path)
               else Invoke(node, AsInvocation(a, AsText(a)))
  {
    var tokens := a.path + ArgumentTokens(a);
    var node := Resolve(g, root, a.path).value;
    RenderedTokens(a);
    assert tokens[0] == a.path[0];
    WalkResolves(g, root, a.path, ArgumentTokens(a));
    assert tokens[|a.path|..] == ArgumentTokens(a) && tokens[..|a.path|] == a.path;
    ArgumentsParsed(a, []);
    assert [] + Values(a.positional) == Values(a.positional);
    ResolvedIsNotRoot(g, root, root, a.path);
  }

  // ----- what text is answered before any command is looked for

  /** Text that ends inside a quote is a parse error, and nothing else is; blank text is no command. */
  lemma {:induction false} UnreadableText<N>(g: Tree<N>, root: N, input: string)
    requires Closed(g) && root in g
    ensures InterpretText(g, root, input) == ParseError <==>
            Tokenizer.ModeAfter(Tokenizer.PLAIN, input).quote != Tokenizer.NO_QUOTE
    ensures (forall k :: 0 <= k < |input| ==> input[k] in Tokenizer.BLANKS) ==>
              InterpretText(g, root, input) == NoCommand
  {
    Tokenizer.FailsIffInsideQuote(input);
    if forall k :: 0 <= k < |input| ==> input[k] in Tokenizer.BLANKS {
      Tokenizer.BlankText(input);
    }
  }

  /** A structured invocation is refused for an empty path, and for one that leads nowhere; otherwise it is
      passed on as it is. */
  lemma {:induction false} StructureIsPassedOn<N>(g: Tree<N>, root: N, invocation: CommandInvocation)
    requires Closed(g) && root in g
    ensures var reading := InterpretStructured(g, root, invocation);
            && (reading == NoPath <==> invocation.path == [])
            && (reading.Invoke? <==> invocation.path != [] && Resolve(g, root, invocation.path).Some?)
            && (reading.Invoke? ==>
                  reading.invocation == invocation && Resolve(g, root, invocation.path) == Some(reading.node))
            && (!reading.Invoke? && invocation.path != [] ==> reading == UnknownPath(invocation.path))
  {
  }

  /** A first token `help` or `?` asks for help on the rest, and no other does. */
  lemma {:induction false} HelpText<N>(g: Tree<N>, root: N, tokens: seq<string>)
    requires Closed(g) && root in g && tokens != [] && "" !in tokens
    ensures tokens[0] == "help" || tokens[0] == "?" ==>
              InterpretText(g, root, Tokenizer.Render(tokens)) == HelpRequest(tokens[1..])
    ensures tokens[0] != "help" && tokens[0] != "?" ==>
              !InterpretText(g, root, Tokenizer.Render(tokens)).HelpRequest?
  {
    Tokenizer.RenderRoundTrip(tokens);
  }

  lemma {:induction false} ParseConcat(front: seq<string>, back: seq<string>, named: seq<NamedValue>,
                                       positional: seq<CommandValue>)
    requires ParseArguments(front, named, positional).Arguments?
    ensures var first := ParseArguments(front, named, positional);
            ParseArguments(front + back, named, positional) == ParseArguments(back, first.named, first.positional)
    decreases |front|
  {
    var all := front + back;
    if front == [] {
      assert all == back;
    } else {
      assert all[0] == front[0] && all[1..] == front[1..] + back;
      if !IsOption(front[0]) {
        ParseConcat(front[1..], back, named, positional + [Text(front[0])]);
      } else {
        var token, key, equals := front[0], OptionKey(front[0]), Find(front[0], '=');
        if equals < |token| {
          ParseConcat(front[1..], back, Emplace(named, key, Text(token[equals+1..])), positional);
        } else {
          assert all[1] == front[1] && all[2..] == front[2..] + back;
          ParseConcat(front[2..], back, Emplace(named, key, Text(front[1])), positional);
        }
      }
    }
  }

  // ----- what is an option

  /** A token is an option exactly when it starts with two dashes; any other, with one dash or none, is a
      positional. */
  lemma {:induction false} DashesMakeOptions(token: string)
    ensures IsOption(token) <==> 2 <= |token| && token[0] == '-' && token[1] == '-'
    ensures !(2 <= |token| && token[0] == '-' && token[1] == '-') ==>
              ParseArguments([token], [], []) == Arguments([], [Text(token)])
  {
    assert IsOption(token) ==> token[0] == "--"[0] && token[1] == "--"[1];
    if 2 <= |token| && token[0] == '-' && token[1] == '-' {
      assert token[..2] == "--";
    }
    assert [token][1..] == [] && [] + [Text(token)] == [Text(token)];
  }

  /** An option without equals sign takes the next token for its value, whatever that looks like; at the end it
      lacks one, whatever came before. */
  lemma {:induction false} OptionTakesNext(front: seq<string>, key: string, value: string)
    requires '=' !in key && ParseArguments(front, [], []).Arguments?
    ensures ParseArguments(front + ["--" + key], [], []) == MissingKeyValue(key)
    ensures var before := ParseArguments(front, [], []);
            ParseArguments(front + ["--" + key, value], [], []) ==
            Arguments(Emplace(before.named, key, Text(value)), before.positional)
  {
    var before := ParseArguments(front, [], []);
    OptionTokenParts(key, value);
    ParseConcat(front, ["--" + key], [], []);
    ParseConcat(front, ["--" + key, value], [], []);
    assert ["--" + key, value][2..] == [];
  }

  /** What the invocation of a reading comes to before the callback runs; only the raw text, which
      neither binding nor validation looks at, is left out. */
  datatype Response<N> = Refused(reading: Reading<N>) | Answered(node: N, path: seq<string>, result: BindingResult)

  ghost function Respond<N>(platform: Platform, g: Tree<N>, reading: Reading<N>): Response<N> {
    if reading.Invoke? && reading.node in g then
      Answered(reading.node, reading.invocation.path,
            BindingOf(platform, g[reading.node].parameters, g[reading.node].executable,
                      reading.invocation.named, reading.invocation.positional))
    else Refused(reading)
  }

  /** On whatever text can express, the two front ends give the same response, bindings or error, exactly
      when the path leads to a command and this is not an argument-less invocation of a bare group. */
  lemma {:induction false} FrontEndsAgreeIff<N>(platform: Platform, g: Tree<N>, root: N, a: TextArguments, raw: string)
    requires TreeShaped(g, root) && Expressible(g, root, a)
    ensures Respond(platform, g, InterpretText(g, root, AsText(a))) ==
            Respond(platform, g, InterpretStructured(g, root, AsInvocation(a, raw)))
            <==>
            && Resolve(g, root, a.path).Some?
            && var node := g[Resolve(g, root, a.path).value];
               !(node.children != [] && !node.executable && a.named == [] && a.positional == [])
  {
    if Resolve(g, root, a.path).Some? {
      TextMeansStructure(g, root, a, raw);
      assert ArgumentTokens(a) == [] <==> a.named == [] && a.positional == [];
    }
  }

  // ----- a path that leads nowhere

  lemma {:induction false} WalkStops<N>(g: Tree<N>, n: N, path: seq<string>, rest: seq<string>)
    requires Closed(g) && n in g && Resolve(g, n, path).None?
    ensures var (m, k) := Walk(g, n, path);
            && Walk(g, n, path + rest) == (m, k) && k < |path|
            && Resolve(g, n, path[..k]) == Some(m) && FindChild(g, m, path[k]).None?
    decreases |path|
  {
    assert (path + rest)[0] == path[0] && (path + rest)[1..] == path[1..] + rest;
    var child := FindChild(g, n, path[0]);
    if child.Some? {
      WalkStops(g, child.value, path[1..], rest);
      var k := Walk(g, child.value, path[1..]).1;
      assert path[..k+1][1..] == path[1..][..k];
    }
  }

  lemma {:induction false} ParsePositionals(front: seq<string>, a: TextArguments)
    requires forall i :: 0 <= i < |front| ==> !IsOption(front[i])
    requires forall i :: 0 <= i < |a.named| ==> '=' !in a.named[i].0
    requires forall i :: 0 <= i < |a.positional| ==> !IsOption(a.positional[i])
    requires Sorted(NamedTexts(a.named))
    ensures ParseArguments(front + ArgumentTokens(a), [], []) ==
            Arguments(NamedTexts(a.named), Values(front + a.positional))
  {
    PositionalsParsed(front, [], []);
    assert [] + Values(front) == Values(front);
    ParseConcat(front, ArgumentTokens(a), [], []);
    ArgumentsParsed(a, Values(front));
    assert Values(front) + Values(a.positional) == Values(front + a.positional);
  }

  /** The two front ends part on a path of which only a beginning leads to a command: structure calls it
      unknown, text invokes the command it gets to and passes the rest of the path as positionals. */
  lemma {:induction false} PathRestBecomesPositional<N>(g: Tree<N>, root: N, a: TextArguments, raw: string)
    requires TreeShaped(g, root) && Expressible(g, root, a) && Resolve(g, root, a.path).None?
    requires forall i :: 0 <= i < |a.path| ==> !IsOption(a.path[i])
    ensures InterpretStructured(g, root, AsInvocation(a, raw)) == UnknownPath(a.path)
    ensures var (node, k) := Walk(g, root, a.path);
            && k < |a.path| && Resolve(g, root, a.path[..k]) == Some(node)
            && InterpretText(g, root, AsText(a)) ==
               if k == 0 then UnknownCommand(a.path[0])
               else
                 Invoke(node, CommandInvocation(a.path[..k], Values(a.path[k..] + a.positional),
                                                NamedTexts(a.named), AsText(a)))
  {
    var tokens := a.path + ArgumentTokens(a);
    var (node, k) := Walk(g, root, a.path);
    RenderedTokens(a);
    WalkStops(g, root, a.path, ArgumentTokens(a));
    assert tokens[0] == a.path[0];
    ResolvedIsNotRoot(g, root, root, a.path[..k]);
    assert tokens[k..] == a.path[k..] + ArgumentTokens(a) && tokens[..k] == a.path[..k];
    ParsePositionals(a.path[k..], a);
  }

  // ----- --k v and --k=v

  /** Between complete arguments, a key without an equals sign may be joined to its value by one or be
      followed by it; the value may be anything, even if it looks like an option itself. */
  lemma {:induction false} OptionFormsEqual(front: seq<string>, key: string, value: string, back: seq<string>)
    requires '=' !in key && ParseArguments(front, [], []).Arguments?
    ensures ParseArguments(front + ["--" + key, value] + back, [], []) ==
            ParseArguments(front + [OptionToken(key, value)] + back, [], [])
  {
    var first := ParseArguments(front, [], []);
    var two, one := ["--" + key, value] + back, [OptionToken(key, value)] + back;
    OptionTokenParts(key, value);
    ParseConcat(front, two, [], []);
    ParseConcat(front, one, [], []);
    assert front + ["--" + key, value] + back == front + two;
    assert front + [OptionToken(key, value)] + back == front + one;
    assert two[0] == "--" + key && two[1] == value && two[2..] == back;
    assert one[0] == OptionToken(key, value) && one[1..] == back;
  }

  /** The same for whole commands, as long as neither form is taken for a step down the tree. */
  lemma {:induction false} OptionFormsInterchangeable<N>(g: Tree<N>, root: N, path: seq<string>, front: seq<string>,
                                                         key: string, value: string, back: seq<string>, raw: string)
    requires TreeShaped(g, root) && path != [] && Resolve(g, root, path).Some?
    requires '=' !in key && ParseArguments(front, [], []).Arguments?
    requires var node := Resolve(g, root, path).value;
             if front != [] then FindChild(g, node, front[0]).None?
             else FindChild(g, node, "--" + key).None? && FindChild(g, node, OptionToken(key, value)).None?
    ensures InterpretTokens(g, root, path + (front + ["--" + key, value] + back), raw) ==
            InterpretTokens(g, root, path + (front + [OptionToken(key, value)] + back), raw)
  {
    var two, one := front + ["--" + key, value] + back, front + [OptionToken(key, value)] + back;
    assert two[0] == if front != [] then front[0] else "--" + key;
    assert one[0] == if front != [] then front[0] else OptionToken(key, value);
    WalkResolves(g, root, path, two);
    WalkResolves(g, root, path, one);
    assert (path + two)[|path|..] == two && (path + two)[..|path|] == path;
    assert (path + one)[|path|..] == one && (path + one)[..|path|] == path;
    OptionFormsEqual(front, key, value, back);
    ResolvedIsNotRoot(g, root, root, path);
  }
}
