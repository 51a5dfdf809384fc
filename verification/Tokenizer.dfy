/** The command tokenizer (crates/core/src/command_cli.rs:176-214): quotes, escapes and
    whitespace, as a state machine and by position. */
module Tokenizer {
  import opened Wrappers
  import opened Text

  datatype Lexer = Lexer(tokens: seq<string>, current: string, inQuotes: bool, escape: bool)

  const START := Lexer([], "", false, false)

  /** A finished word joins the tokens unless it is empty. */
  function Flush(l: Lexer): (r: seq<string>) {
    if l.current == "" then l.tokens else l.tokens + [l.current]
  }

  function Step(l: Lexer, c: char): (r: Lexer) {
    if l.escape then l.(current := l.current + [c], escape := false)
    else if c == '\\' then l.(escape := true)
    else if c == '"' then l.(inQuotes := !l.inQuotes)
    else if IsWhitespace(c) && !l.inQuotes then l.(tokens := Flush(l), current := "")
    else l.(current := l.current + [c])
  }

  function Run(l: Lexer, input: string): (r: Lexer) {
    if input == "" then l else Step(Run(l, input[..|input| - 1]), input[|input| - 1])
  }

  /** The tokens of an input, or none when a quote is left open; a trailing backslash is dropped. */
  function Tokens(input: string): (r: Option<seq<string>>) {
    var l := Run(START, input);
    if l.inQuotes then None else Some(Flush(l))
  }

  method Tokenize(input: string) returns (r: Option<seq<string>>)
    ensures r == Tokens(input)
  {
    var tokens: seq<string>, current, inQuotes, escape := [], "", false, false;
    for i := 0 to |input|
      invariant Lexer(tokens, current, inQuotes, escape) == Run(START, input[..i])
    {
      var c := input[i];
      assert input[..i + 1][..i] == input[..i];
      if escape {
        current := current + [c];
        escape := false;
        continue;
      }
      if c == '\\' {
        escape := true;
      } else if c == '"' {
        inQuotes := !inQuotes;
      } else if IsWhitespace(c) && !inQuotes {
        if current != "" {
          tokens := tokens + [current];
          current := "";
        }
      } else {
        current := current + [c];
      }
    }
    assert input[..|input|] == input;
    if inQuotes {
      return None;
    }
    if current != "" {
      tokens := tokens + [current];
    }
    r := Some(tokens);
  }

  // ---- the meaning of each position

  predicate Escaped(input: string, i: nat)
    requires i <= |input|
  {
    i > 0 && input[i - 1] == '\\' && !Escaped(input, i - 1)
  }

  predicate ActiveQuote(input: string, i: nat)
    requires i < |input|
  {
    input[i] == '"' && !Escaped(input, i)
  }

  /** The number of active quotes among the first `n` characters. */
  function QuotesBefore(input: string, n: nat): (r: nat)
    requires n <= |input|
  {
    if n == 0 then 0 else QuotesBefore(input, n - 1) + if ActiveQuote(input, n - 1) then 1 else 0
  }

  predicate Separator(input: string, i: nat)
    requires i < |input|
  {
    IsWhitespace(input[i]) && !Escaped(input, i) && QuotesBefore(input, i) % 2 == 0
  }

  /** The characters that reach a token: all but active quotes, active backslashes and separators. */
  predicate Reaches(input: string, i: nat)
    requires i < |input|
  {
    Escaped(input, i) || (input[i] != '\\' && input[i] != '"' && !Separator(input, i))
  }

  function Kept(input: string, n: nat): (r: string)
    requires n <= |input|
  {
    if n == 0 then ""
    else if Reaches(input, n - 1) then Kept(input, n - 1) + [input[n - 1]]
    else Kept(input, n - 1)
  }

  function Flatten(tokens: seq<string>): (r: string) {
    if tokens == [] then "" else Flatten(tokens[..|tokens| - 1]) + tokens[|tokens| - 1]
  }

  lemma FlattenPush(tokens: seq<string>, t: string)
    ensures Flatten(tokens + [t]) == Flatten(tokens) + t
  {
    assert (tokens + [t])[..|tokens|] == tokens;
  }

  lemma FlattenFlush(l: Lexer)
    ensures Flatten(Flush(l)) == Flatten(l.tokens) + l.current
  {
    FlattenPush(l.tokens, l.current);
  }

  /** The machine's flags, by position. */
  lemma {:induction false} RunFlags(input: string, n: nat)
    requires n <= |input|
    ensures var l := Run(START, input[..n]);
            l.escape == Escaped(input, n) && l.inQuotes == (QuotesBefore(input, n) % 2 == 1)
  {
    if n > 0 {
      RunFlags(input, n - 1);
      assert input[..n][..n - 1] == input[..n - 1];
    }
  }

  /** What the machine holds, finished or not. */
  function Held(l: Lexer): (r: string) {
    Flatten(l.tokens) + l.current
  }

  lemma StepHeld(l: Lexer, c: char)
    ensures Held(Step(l, c)) ==
            if l.escape || (c != '\\' && c != '"' && !(IsWhitespace(c) && !l.inQuotes)) then Held(l) + [c] else Held(l)
  {
    FlattenFlush(l);
    assert Flatten(l.tokens) + (l.current + [c]) == Flatten(l.tokens) + l.current + [c];
  }

  /** The machine holds the characters that reach a token. */
  lemma {:induction false} RunHeld(input: string, n: nat)
    requires n <= |input|
    ensures Held(Run(START, input[..n])) == Kept(input, n)
  {
    if n > 0 {
      RunHeld(input, n - 1);
      RunFlags(input, n - 1);
      StepHeld(Run(START, input[..n - 1]), input[n - 1]);
      assert input[..n][..n - 1] == input[..n - 1];
    }
  }

  lemma {:induction false} RunNonEmpty(input: string)
    ensures "" !in Run(START, input).tokens
  {
    if input != "" {
      RunNonEmpty(input[..|input| - 1]);
    }
  }

  /** An input is refused exactly when it has an odd number of active quotes; otherwise
      its tokens are non-empty and together hold every character that reaches one. */
  lemma TokensConserve(input: string)
    ensures Tokens(input).None? <==> QuotesBefore(input, |input|) % 2 == 1
    ensures Tokens(input).Some? ==> Flatten(Tokens(input).value) == Kept(input, |input|) && "" !in Tokens(input).value
  {
    RunFlags(input, |input|);
    RunHeld(input, |input|);
    RunNonEmpty(input);
    assert input[..|input|] == input;
    FlattenFlush(Run(START, input));
  }

  // ---- token boundaries

  lemma {:induction false} RunConcat(l: Lexer, a: string, b: string)
    ensures Run(l, a + b) == Run(Run(l, a), b)
  {
    if b == "" {
      assert a + b == a;
    } else {
      var n := |b| - 1;
      RunConcat(l, a, b[..n]);
      assert (a + b)[..|a + b| - 1] == a + b[..n];
    }
  }

  lemma RunPush(l: Lexer, a: string, c: char)
    ensures Run(l, a + [c]) == Step(Run(l, a), c)
  {
    assert (a + [c])[..|a|] == a;
  }

  /** Tokens already finished ride along. */
  lemma {:induction false} RunAfter(done: seq<string>, input: string)
    ensures var l := Run(START, input);
            Run(START.(tokens := done), input) == l.(tokens := done + l.tokens)
  {
    if input != "" {
      RunAfter(done, input[..|input| - 1]);
    }
  }

  /** A separator splits the input: its tokens are those before it and those after it. */
  lemma SeparatorSplits(a: string, c: char, b: string)
    requires Separator(a + [c] + b, |a|)
    ensures Tokens(a).Some?
    ensures Tokens(a + [c] + b) ==
            if Tokens(b).None? then None else Some(Tokens(a).value + Tokens(b).value)
  {
    var input := a + [c] + b;
    RunFlags(input, |a|);
    assert input[..|a|] == a;
    RunPush(START, a, c);
    RunConcat(START, a + [c], b);
    RunAfter(Tokens(a).value, b);
    var l := Run(START, b);
    assert Tokens(a).value + (l.tokens + [l.current]) == Tokens(a).value + l.tokens + [l.current];
  }

  /** Without separators there is at most one token. */
  lemma {:induction false} NoSeparator(input: string, n: nat)
    requires n <= |input| && forall i :: 0 <= i < n ==> !Separator(input, i)
    ensures Run(START, input[..n]).tokens == [] && Run(START, input[..n]).current == Kept(input, n)
  {
    if n > 0 {
      NoSeparator(input, n - 1);
      RunFlags(input, n - 1);
      assert !Separator(input, n - 1);
      assert input[..n][..n - 1] == input[..n - 1];
    }
  }

  lemma OneToken(input: string)
    requires forall i :: 0 <= i < |input| ==> !Separator(input, i)
    requires Tokens(input).Some?
    ensures Tokens(input).value == if Kept(input, |input|) == "" then [] else [Kept(input, |input|)]
  {
    NoSeparator(input, |input|);
    assert input[..|input|] == input;
  }

  /** A backslash with nothing after it is dropped. */
  lemma TrailingBackslash(input: string)
    requires !Escaped(input, |input|)
    ensures Tokens(input + "\\") == Tokens(input)
  {
    RunFlags(input, |input|);
    assert input[..|input|] == input;
    RunPush(START, input, '\\');
  }

  // ---- quoting

  function EscapeChar(c: char): (r: string) {
    if c == '"' || c == '\\' then ['\\', c] else [c]
  }

  function EscapeText(s: string): (r: string) {
    if s == "" then "" else EscapeText(s[..|s| - 1]) + EscapeChar(s[|s| - 1])
  }

  function Quote(s: string): (r: string) {
    ['"'] + EscapeText(s) + ['"']
  }

  function QuoteAll(tokens: seq<string>): (r: string) {
    if tokens == [] then ""
    else if |tokens| == 1 then Quote(tokens[0])
    else QuoteAll(tokens[..|tokens| - 1]) + " " + Quote(tokens[|tokens| - 1])
  }

  lemma RunEscapeChar(l: Lexer, c: char)
    requires l.inQuotes && !l.escape
    ensures Run(l, EscapeChar(c)) == l.(current := l.current + [c])
  {
    RunPush(l, "", c);
    assert "" + [c] == [c];
    RunPush(l, "", '\\');
    assert "" + ['\\'] == ['\\'];
    RunPush(l, ['\\'], c);
    assert ['\\'] + [c] == ['\\', c];
  }

  lemma RunEscapedPush(l: Lexer, text: string, word: string, c: char)
    requires l.inQuotes && !l.escape && Run(l, text) == l.(current := word)
    ensures Run(l, text + EscapeChar(c)) == l.(current := word + [c])
  {
    RunConcat(l, text, EscapeChar(c));
    RunEscapeChar(l.(current := word), c);
  }

  lemma AppendLast(word: string, s: string)
    requires s != ""
    ensures word + s == (word + s[..|s| - 1]) + [s[|s| - 1]]
  {
  }

  lemma {:induction false} RunEscaped(l: Lexer, s: string)
    requires l.inQuotes && !l.escape
    ensures Run(l, EscapeText(s)) == l.(current := l.current + s)
  {
    if s == "" {
      assert l.current + s == l.current;
    } else {
      var init := s[..|s| - 1];
      RunEscaped(l, init);
      RunEscapedPush(l, EscapeText(init), l.current + init, s[|s| - 1]);
      AppendLast(l.current, s);
    }
  }

  lemma RunQuoted(l: Lexer, s: string)
    requires !l.inQuotes && !l.escape && l.current == ""
    ensures Run(l, Quote(s)) == l.(current := s)
  {
    var open := l.(inQuotes := true);
    RunPush(l, "", '"');
    assert "" + ['"'] == ['"'];
    RunConcat(l, ['"'], EscapeText(s));
    RunEscaped(open, s);
    RunPush(l, ['"'] + EscapeText(s), '"');
    assert "" + s == s;
  }

  lemma {:induction false} RunQuoteAll(tokens: seq<string>)
    requires tokens != [] && "" !in tokens
    ensures Run(START, QuoteAll(tokens)) == START.(tokens := tokens[..|tokens| - 1], current := tokens[|tokens| - 1])
  {
    var n := |tokens| - 1;
    var init, last := tokens[..n], tokens[n];
    if n == 0 {
      RunQuoted(START, last);
      assert init == [];
    } else {
      RunQuoteAll(init);
      LastFlushed(init);
      RunSpace(QuoteAll(init), init);
      RunConcat(START, QuoteAll(init) + " ", Quote(last));
      RunQuoted(START.(tokens := init), last);
    }
  }

  /** A space after a word finishes it. */
  lemma RunSpace(text: string, tokens: seq<string>)
    requires var l := Run(START, text); !l.inQuotes && !l.escape && Flush(l) == tokens
    ensures Run(START, text + " ") == START.(tokens := tokens)
  {
    RunPush(START, text, ' ');
  }

  lemma LastFlushed(tokens: seq<string>)
    requires tokens != [] && "" !in tokens
    ensures Flush(START.(tokens := tokens[..|tokens| - 1], current := tokens[|tokens| - 1])) == tokens
  {
    assert tokens[|tokens| - 1] in tokens;
  }

  /** Quoting is inverted by tokenizing, for every list of non-empty strings. */
  lemma QuoteInverse(tokens: seq<string>)
    requires "" !in tokens
    ensures Tokens(QuoteAll(tokens)) == Some(tokens)
  {
    if tokens != [] {
      RunQuoteAll(tokens);
      LastFlushed(tokens);
    }
  }
}
