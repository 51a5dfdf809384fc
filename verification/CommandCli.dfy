/** The command language (crates/core/src/command_cli.rs:1-174). */
module CommandCli {
  import opened Wrappers
  import opened Text
  import opened Tokenizer

  datatype Namespace = Account | Profile | Repo

  datatype CommandArg = Positional(text: string) | KeyValue(key: string, value: string)

  datatype ParsedCommand = ParsedCommand(
    namespace: Namespace, action: string, target: Option<string>, args: seq<CommandArg>)

  /** The error classes; message text is dropped. */
  datatype CommandError =
    | MissingPrefix
    | EmptyCommand
    | InvalidNamespace(name: string)
    | UnterminatedQuote
    | InvalidCommand(action: string)
    | InvalidArgs

  // ---- trimming and splitting

  function TrimStart(s: string): (r: string) {
    if s != "" && IsWhitespace(s[0]) then TrimStart(s[1..]) else s
  }

  function TrimEnd(s: string): (r: string) {
    if s != "" && IsWhitespace(s[|s| - 1]) then TrimEnd(s[..|s| - 1]) else s
  }

  function Trim(s: string): (r: string) {
    TrimEnd(TrimStart(s))
  }

  /** `split_once('=')`: before and after the first equals sign. */
  function SplitOnce(s: string): (r: Option<(string, string)>) {
    if s == "" then None
    else if s[0] == '=' then Some(("", s[1..]))
    else
      match SplitOnce(s[1..])
      case None => None
      case Some((k, v)) => Some(([s[0]] + k, v))
  }

  lemma {:induction false} SplitOnceMeaning(s: string)
    ensures SplitOnce(s).None? <==> '=' !in s
    ensures SplitOnce(s).Some? ==>
              var (k, v) := SplitOnce(s).value; '=' !in k && s == k + "=" + v
  {
    if s != "" {
      SplitOnceMeaning(s[1..]);
      assert s == [s[0]] + s[1..];
    }
  }

  lemma {:induction false} SplitOnceJoin(k: string, v: string)
    requires '=' !in k
    ensures SplitOnce(k + "=" + v) == Some((k, v))
  {
    var s := k + "=" + v;
    if k == "" {
      assert s[1..] == v;
    } else {
      SplitOnceJoin(k[1..], v);
      assert s[1..] == k[1..] + "=" + v;
      assert k == [k[0]] + k[1..];
    }
  }

  // ---- parsing

  function ParseNamespace(name: string): (r: Option<Namespace>) {
    if name == "account" then Some(Account)
    else if name == "profile" then Some(Profile)
    else if name == "repo" then Some(Repo)
    else None
  }

  /** Where the tokens after the action go. */
  datatype Operands = Operands(target: Option<string>, args: seq<CommandArg>)

  function Place(o: Operands, namespace: Namespace, token: string): (r: Operands) {
    match SplitOnce(token)
    case Some((k, v)) => o.(args := o.args + [KeyValue(k, v)])
    case None =>
      if o.target.None? && namespace == Repo then o.(target := Some(token))
      else o.(args := o.args + [Positional(token)])
  }

  function PlaceAll(namespace: Namespace, tokens: seq<string>): (r: Operands) {
    if tokens == [] then Operands(None, [])
    else Place(PlaceAll(namespace, tokens[..|tokens| - 1]), namespace, tokens[|tokens| - 1])
  }

  predicate AreKeyValues(args: seq<CommandArg>) {
    forall i :: 0 <= i < |args| ==> args[i].KeyValue?
  }

  predicate IsTargeted(action: string) {
    action == "create" || action == "announce" || action == "sync" || action == "archive" || action == "unarchive"
  }

  predicate IsMaintainerArgs(args: seq<CommandArg>) {
    && |args| == 2 && args[0].Positional? && args[1].Positional?
    && (args[0].text == "add" || args[0].text == "remove")
    && StartsWith(args[1].text, "npub")
  }

  function ValidateShape(namespace: Namespace, action: string, target: Option<string>, args: seq<CommandArg>)
    : (r: Option<CommandError>)
  {
    match namespace
    case Account =>
      if action == "create" || action == "status" || action == "delete" then
        if args == [] then None else Some(InvalidArgs)
      else Some(InvalidCommand(action))
    case Profile =>
      if action == "set" then
        if args != [] && AreKeyValues(args) then None else Some(InvalidArgs)
      else if action == "visibility" then
        if args == [Positional("public")] || args == [Positional("private")] then None else Some(InvalidArgs)
      else Some(InvalidCommand(action))
    case Repo =>
      if IsTargeted(action) then
        if target.Some? && args == [] then None else Some(InvalidArgs)
      else if action == "update" then
        if target.Some? && args != [] then None else Some(InvalidArgs)
      else if action == "maintainers" then
        if target.Some? && IsMaintainerArgs(args) then None else Some(InvalidArgs)
      else Some(InvalidCommand(action))
  }

  const PREFIX := "gittree "

  function ParseTokens(tokens: seq<string>): (r: Result<ParsedCommand, CommandError>) {
    if tokens == [] then Err(EmptyCommand)
    else
      match ParseNamespace(tokens[0])
      case None => Err(InvalidNamespace(tokens[0]))
      case Some(namespace) =>
        if |tokens| < 2 || tokens[1] == "" then Err(InvalidCommand(""))
        else
          var o := PlaceAll(namespace, tokens[2..]);
          match ValidateShape(namespace, tokens[1], o.target, o.args)
          case Some(e) => Err(e)
          case None => Ok(ParsedCommand(namespace, tokens[1], o.target, o.args))
  }

  function Parse(input: string): (r: Result<ParsedCommand, CommandError>) {
    var trimmed := Trim(input);
    if trimmed != "gittree" && !StartsWith(trimmed, PREFIX) then Err(MissingPrefix)
    else
      match Tokens(if trimmed == "gittree" then "" else trimmed[|PREFIX|..])
      case None => Err(UnterminatedQuote)
      case Some(tokens) => ParseTokens(tokens)
  }

  method ParseCliCommand(input: string) returns (r: Result<ParsedCommand, CommandError>)
    ensures r == Parse(input)
  {
    var trimmed := Trim(input);
    if trimmed != "gittree" && !StartsWith(trimmed, PREFIX) {
      return Err(MissingPrefix);
    }
    var maybeTokens := Tokenize(if trimmed == "gittree" then "" else trimmed[|PREFIX|..]);
    if maybeTokens.None? {
      return Err(UnterminatedQuote);
    }
    var tokens := maybeTokens.value;
    if tokens == [] {
      return Err(EmptyCommand);
    }
    var namespace := ParseNamespace(tokens[0]);
    if namespace.None? {
      return Err(InvalidNamespace(tokens[0]));
    }
    if |tokens| < 2 || tokens[1] == "" {
      return Err(InvalidCommand(""));
    }
    var target, args := PlaceTokens(namespace.value, tokens[2..]);
    var error := ValidateShape(namespace.value, tokens[1], target, args);
    if error.Some? {
      return Err(error.value);
    }
    r := Ok(ParsedCommand(namespace.value, tokens[1], target, args));
  }

  /** The loop over the tokens after the action. */
  method PlaceTokens(namespace: Namespace, tokens: seq<string>) returns (target: Option<string>, args: seq<CommandArg>)
    ensures Operands(target, args) == PlaceAll(namespace, tokens)
  {
    target, args := None, [];
    for i := 0 to |tokens|
      invariant Operands(target, args) == PlaceAll(namespace, tokens[..i])
    {
      assert tokens[..i + 1][..i] == tokens[..i];
      var token := tokens[i];
      var pair := SplitOnce(token);
      if pair.Some? {
        args := args + [KeyValue(pair.value.0, pair.value.1)];
        continue;
      }
      if target.None? && namespace == Repo {
        target := Some(token);
      } else {
        args := args + [Positional(token)];
      }
    }
    assert tokens[..|tokens|] == tokens;
  }

  // ---- printing

  function NamespaceName(namespace: Namespace): (r: string)
    ensures ParseNamespace(r) == Some(namespace)
  {
    match namespace
    case Account => "account"
    case Profile => "profile"
    case Repo => "repo"
  }

  function ArgText(arg: CommandArg): (r: string) {
    match arg
    case Positional(text) => text
    case KeyValue(key, value) => key + "=" + value
  }

  function ArgTexts(args: seq<CommandArg>): (r: seq<string>)
    ensures |r| == |args|
  {
    seq(|args|, i requires 0 <= i < |args| => ArgText(args[i]))
  }

  /** Target first, then the arguments in order. */
  function OperandTokens(o: Operands): (r: seq<string>) {
    if o.target.Some? then [o.target.value] + ArgTexts(o.args) else ArgTexts(o.args)
  }

  function CommandTokens(cmd: ParsedCommand): (r: seq<string>) {
    [NamespaceName(cmd.namespace), cmd.action] + OperandTokens(Operands(cmd.target, cmd.args))
  }

  function Print(cmd: ParsedCommand): (r: string) {
    PREFIX + QuoteAll(CommandTokens(cmd))
  }

  // ---- the commands that parse

  predicate IsPlain(s: string) {
    s != "" && '=' !in s
  }

  predicate IsArg(arg: CommandArg) {
    match arg
    case Positional(text) => IsPlain(text)
    case KeyValue(key, _) => '=' !in key
  }

  ghost predicate OperandsOk(namespace: Namespace, o: Operands) {
    && (o.target.Some? ==> namespace == Repo && IsPlain(o.target.value))
    && (forall i :: 0 <= i < |o.args| ==> IsArg(o.args[i]))
    && (namespace == Repo && o.target.None? ==> AreKeyValues(o.args))
  }

  ghost predicate WellFormed(cmd: ParsedCommand) {
    && cmd.action != ""
    && ValidateShape(cmd.namespace, cmd.action, cmd.target, cmd.args).None?
    && OperandsOk(cmd.namespace, Operands(cmd.target, cmd.args))
  }

  lemma {:induction false} PlacedOk(namespace: Namespace, tokens: seq<string>)
    requires "" !in tokens
    ensures OperandsOk(namespace, PlaceAll(namespace, tokens))
  {
    if tokens != [] {
      var n := |tokens| - 1;
      assert tokens[n] in tokens;
      assert "" !in tokens[..n];
      PlacedOk(namespace, tokens[..n]);
      SplitOnceMeaning(tokens[n]);
    }
  }

  /** The first token without an equals sign, or the length of the list. */
  function FirstPlain(tokens: seq<string>): (r: nat)
    ensures r <= |tokens|
    ensures r < |tokens| ==> '=' !in tokens[r]
    ensures forall j :: 0 <= j < r ==> '=' in tokens[j]
  {
    if tokens == [] || '=' !in tokens[0] then 0 else 1 + FirstPlain(tokens[1..])
  }

  lemma {:induction false} FirstPlainPush(tokens: seq<string>, token: string)
    ensures FirstPlain(tokens + [token]) ==
            if FirstPlain(tokens) < |tokens| || '=' !in token then FirstPlain(tokens) else |tokens| + 1
  {
    if tokens == [] {
      assert (tokens + [token])[1..] == [];
    } else {
      FirstPlainPush(tokens[1..], token);
      assert (tokens + [token])[1..] == tokens[1..] + [token];
    }
  }

  lemma PlaceText(o: Operands, namespace: Namespace, token: string)
    ensures var r := Place(o, namespace, token);
            if '=' !in token && o.target.None? && namespace == Repo
            then r == o.(target := Some(token))
            else r.target == o.target && ArgTexts(r.args) == ArgTexts(o.args) + [token]
  {
    SplitOnceMeaning(token);
  }

  /** The tokens with one left out; past the end, all of them. */
  function Without(tokens: seq<string>, i: nat): (r: seq<string>) {
    if i < |tokens| then tokens[..i] + tokens[i + 1..] else tokens
  }

  lemma WithoutPush(tokens: seq<string>, token: string, i: nat)
    ensures i < |tokens| ==> Without(tokens + [token], i) == Without(tokens, i) + [token]
    ensures i == |tokens| ==> Without(tokens + [token], i) == tokens
    ensures i > |tokens| ==> Without(tokens + [token], i) == tokens + [token]
  {
  }

  /** Where the target of a command stands among its operands. */
  function TargetIndex(namespace: Namespace, tokens: seq<string>): (r: nat) {
    if namespace == Repo then FirstPlain(tokens) else |tokens|
  }

  lemma TargetIndexPush(namespace: Namespace, tokens: seq<string>, token: string)
    ensures var i := TargetIndex(namespace, tokens);
            TargetIndex(namespace, tokens + [token]) ==
            if i < |tokens| || (namespace == Repo && '=' !in token) then i else |tokens| + 1
    ensures TargetIndex(namespace, tokens) <= |tokens|
  {
    FirstPlainPush(tokens, token);
  }

  /** The operands hold the target and spell the other tokens in order. */
  predicate Spells(namespace: Namespace, tokens: seq<string>, o: Operands) {
    var i := TargetIndex(namespace, tokens);
    && o.target == (if i < |tokens| then Some(tokens[i]) else None)
    && ArgTexts(o.args) == Without(tokens, i)
  }

  lemma SpellsNext(namespace: Namespace, tokens: seq<string>, token: string, o: Operands)
    requires Spells(namespace, tokens, o)
    ensures Spells(namespace, tokens + [token], Place(o, namespace, token))
  {
    TargetIndexPush(namespace, tokens, token);
    PlaceText(o, namespace, token);
    WithoutPush(tokens, token, TargetIndex(namespace, tokens + [token]));
  }

  ghost predicate PlacedSpells(namespace: Namespace, tokens: seq<string>) {
    Spells(namespace, tokens, PlaceAll(namespace, tokens))
  }

  lemma NothingSpelled(namespace: Namespace)
    ensures PlacedSpells(namespace, [])
  {
  }

  lemma {:induction false} AllSpelled(namespace: Namespace, tokens: seq<string>)
    ensures PlacedSpells(namespace, tokens)
  {
    if tokens == [] {
      NothingSpelled(namespace);
    } else {
      var init, last := tokens[..|tokens| - 1], tokens[|tokens| - 1];
      AllSpelled(namespace, init);
      AlsoSpelled(namespace, init, last);
      assert tokens == init + [last];
    }
  }

  lemma AlsoSpelled(namespace: Namespace, tokens: seq<string>, token: string)
    requires PlacedSpells(namespace, tokens)
    ensures PlacedSpells(namespace, tokens + [token])
  {
    PlacePush(namespace, tokens, token);
    SpellsNext(namespace, tokens, token, PlaceAll(namespace, tokens));
  }

  /** Nothing is lost or reordered: a repo command's target is its first plain token, and
      the arguments spell all other tokens in order. */
  lemma PlacementConserves(namespace: Namespace, tokens: seq<string>)
    ensures var o, i := PlaceAll(namespace, tokens), TargetIndex(namespace, tokens);
            && o.target == (if i < |tokens| then Some(tokens[i]) else None)
            && ArgTexts(o.args) == Without(tokens, i)
  {
    AllSpelled(namespace, tokens);
  }

  lemma ParsedWellFormed(input: string)
    requires Parse(input).Ok?
    ensures WellFormed(Parse(input).value)
    ensures Parse(input).value.target.Some? <==> Parse(input).value.namespace == Repo
  {
    var trimmed := Trim(input);
    var rest := if trimmed == "gittree" then "" else trimmed[|PREFIX|..];
    TokensConserve(rest);
    var tokens := Tokens(rest).value;
    assert "" !in tokens[2..];
    PlacedOk(ParseNamespace(tokens[0]).value, tokens[2..]);
  }

  lemma PlacePush(namespace: Namespace, tokens: seq<string>, token: string)
    ensures PlaceAll(namespace, tokens + [token]) == Place(PlaceAll(namespace, tokens), namespace, token)
  {
    assert (tokens + [token])[..|tokens|] == tokens;
  }

  lemma PlaceArg(o: Operands, namespace: Namespace, arg: CommandArg)
    requires IsArg(arg)
    requires arg.Positional? && namespace == Repo ==> o.target.Some?
    ensures Place(o, namespace, ArgText(arg)) == o.(args := o.args + [arg])
  {
    match arg
    case Positional(text) => SplitOnceMeaning(text);
    case KeyValue(key, value) => SplitOnceJoin(key, value);
  }

  lemma ArgTextsPush(args: seq<CommandArg>)
    requires args != []
    ensures ArgTexts(args) == ArgTexts(args[..|args| - 1]) + [ArgText(args[|args| - 1])]
  {
  }

  lemma OperandTokensPush(o: Operands)
    requires o.args != []
    ensures var n := |o.args| - 1;
            OperandTokens(o) == OperandTokens(o.(args := o.args[..n])) + [ArgText(o.args[n])]
  {
    ArgTextsPush(o.args);
  }

  lemma PlaceTarget(namespace: Namespace, o: Operands)
    requires o.args == [] && OperandsOk(namespace, o)
    ensures PlaceAll(namespace, OperandTokens(o)) == o
  {
    if o.target.Some? {
      SplitOnceMeaning(o.target.value);
      PlacePush(namespace, [], o.target.value);
      assert OperandTokens(o) == [] + [o.target.value];
    }
  }

  lemma OperandsInit(namespace: Namespace, o: Operands)
    requires OperandsOk(namespace, o) && o.args != []
    ensures var n := |o.args| - 1;
            && OperandsOk(namespace, o.(args := o.args[..n]))
            && IsArg(o.args[n])
            && (o.args[n].Positional? && namespace == Repo ==> o.target.Some?)
  {
  }

  /** Printed operands are placed back where they came from. */
  lemma {:induction false} PlacePrinted(namespace: Namespace, o: Operands)
    requires OperandsOk(namespace, o)
    ensures PlaceAll(namespace, OperandTokens(o)) == o
    decreases |o.args|
  {
    if o.args == [] {
      PlaceTarget(namespace, o);
    } else {
      var init := o.(args := o.args[..|o.args| - 1]);
      OperandsInit(namespace, o);
      PlacePrinted(namespace, init);
      OperandTokensPush(o);
      PlaceNext(namespace, OperandTokens(init), o);
    }
  }

  lemma PlaceNext(namespace: Namespace, tokens: seq<string>, o: Operands)
    requires o.args != [] && IsArg(o.args[|o.args| - 1])
    requires o.args[|o.args| - 1].Positional? && namespace == Repo ==> o.target.Some?
    requires PlaceAll(namespace, tokens) == o.(args := o.args[..|o.args| - 1])
    ensures PlaceAll(namespace, tokens + [ArgText(o.args[|o.args| - 1])]) == o
  {
    var n := |o.args| - 1;
    PlacePush(namespace, tokens, ArgText(o.args[n]));
    PlaceArg(o.(args := o.args[..n]), namespace, o.args[n]);
    assert o.args == o.args[..n] + [o.args[n]];
  }

  lemma OperandTokensNonEmpty(namespace: Namespace, o: Operands)
    requires OperandsOk(namespace, o)
    ensures "" !in OperandTokens(o)
  {
    forall i | 0 <= i < |o.args| ensures ArgTexts(o.args)[i] != "" {
      assert IsArg(o.args[i]);
    }
  }

  lemma TrimFixed(s: string)
    requires s != "" && !IsWhitespace(s[0]) && !IsWhitespace(s[|s| - 1])
    ensures Trim(s) == s
  {
  }

  lemma QuoteAllEnds(tokens: seq<string>)
    requires tokens != []
    ensures QuoteAll(tokens) != "" && QuoteAll(tokens)[|QuoteAll(tokens)| - 1] == '"'
  {
  }

  lemma PrintedTrims(cmd: ParsedCommand)
    ensures Trim(Print(cmd)) == Print(cmd)
    ensures StartsWith(Print(cmd), PREFIX) && Print(cmd)[|PREFIX|..] == QuoteAll(CommandTokens(cmd))
    ensures Print(cmd) != "gittree"
  {
    QuoteAllEnds(CommandTokens(cmd));
    TrimFixed(Print(cmd));
  }

  lemma ParsePrintedTokens(cmd: ParsedCommand)
    requires WellFormed(cmd)
    ensures ParseTokens(CommandTokens(cmd)) == Ok(cmd) && "" !in CommandTokens(cmd)
  {
    var o := Operands(cmd.target, cmd.args);
    PlacePrinted(cmd.namespace, o);
    OperandTokensNonEmpty(cmd.namespace, o);
    assert CommandTokens(cmd)[2..] == OperandTokens(o);
  }

  lemma ParsePrinted(cmd: ParsedCommand)
    requires WellFormed(cmd)
    ensures Parse(Print(cmd)) == Ok(cmd)
  {
    ParsePrintedTokens(cmd);
    QuoteInverse(CommandTokens(cmd));
    PrintedTrims(cmd);
  }

  /** The canonical form of a command parses back to it exactly when some input parses to it. */
  lemma CanonicalForm(cmd: ParsedCommand)
    ensures Parse(Print(cmd)) == Ok(cmd) <==> WellFormed(cmd)
    ensures WellFormed(cmd) <==> exists input :: Parse(input) == Ok(cmd)
  {
    if WellFormed(cmd) {
      ParsePrinted(cmd);
    }
    forall input | Parse(input) == Ok(cmd) ensures WellFormed(cmd) {
      ParsedWellFormed(input);
    }
  }

  /** "update" is meant to take key=value arguments, but any argument will do. */
  lemma UpdateTakesPositionals(target: string, text: string)
    requires IsPlain(target) && IsPlain(text)
    ensures var cmd := ParsedCommand(Repo, "update", Some(target), [Positional(text)]);
            Parse(Print(cmd)) == Ok(cmd)
  {
    ParsePrinted(ParsedCommand(Repo, "update", Some(target), [Positional(text)]));
  }

  // ---- the table of commands

  ghost predicate IsOperand(arg: CommandArg) {
    match arg
    case Positional(text) => text != "" && '=' !in text
    case KeyValue(key, _) => '=' !in key
  }

  /** An account command. */
  ghost predicate IsAccountCommand(action: string, args: seq<CommandArg>) {
    action in {"create", "status", "delete"} && args == []
  }

  /** A profile command. */
  ghost predicate IsProfileCommand(action: string, args: seq<CommandArg>) {
    || (action == "set" && |args| >= 1 && forall i :: 0 <= i < |args| ==> args[i].KeyValue?)
    || (action == "visibility" && (args == [Positional("public")] || args == [Positional("private")]))
  }

  /** What may follow the target of a repo command. */
  ghost predicate IsRepoCommand(action: string, args: seq<CommandArg>) {
    || (action in {"create", "announce", "sync", "archive", "unarchive"} && args == [])
    || (action == "update" && |args| >= 1)
    || (action == "maintainers" && exists sub, npub ::
          && args == [Positional(sub), Positional(npub)]
          && (sub == "add" || sub == "remove") && "npub" <= npub)
  }

  /** The commands of the language. */
  ghost predicate IsListed(cmd: ParsedCommand) {
    && (forall i :: 0 <= i < |cmd.args| ==> IsOperand(cmd.args[i]))
    && match cmd.namespace
       case Account => cmd.target.None? && IsAccountCommand(cmd.action, cmd.args)
       case Profile => cmd.target.None? && IsProfileCommand(cmd.action, cmd.args)
       case Repo => && cmd.target.Some? && cmd.target.value != "" && '=' !in cmd.target.value
                    && IsRepoCommand(cmd.action, cmd.args)
  }

  lemma ShapeMeaning(namespace: Namespace, action: string, target: Option<string>, args: seq<CommandArg>)
    ensures ValidateShape(namespace, action, target, args).None? <==>
            match namespace
            case Account => IsAccountCommand(action, args)
            case Profile => IsProfileCommand(action, args)
            case Repo => target.Some? && IsRepoCommand(action, args)
  {
    if IsMaintainerArgs(args) {
      assert args == [Positional(args[0].text), Positional(args[1].text)];
    }
  }

  lemma ListedMeaning(cmd: ParsedCommand)
    ensures WellFormed(cmd) <==> IsListed(cmd)
  {
    ShapeMeaning(cmd.namespace, cmd.action, cmd.target, cmd.args);
    forall i | 0 <= i < |cmd.args| ensures IsArg(cmd.args[i]) <==> IsOperand(cmd.args[i]) {
      match cmd.args[i]
      case Positional(_) =>
      case KeyValue(_, _) =>
    }
  }

  /** Exactly the listed commands are what some input parses to. */
  lemma CommandTable(cmd: ParsedCommand)
    ensures (exists input :: Parse(input) == Ok(cmd)) <==> IsListed(cmd)
  {
    CanonicalForm(cmd);
    ListedMeaning(cmd);
  }

  // ---- exactly when each error is reported

  /** Trimming removes exactly the white space at both ends. */
  lemma TrimMeaning(s: string)
    ensures exists i, j :: Trims(s, Trim(s), i, j)
  {
    var i := TrimStartAt(s);
    var j := TrimEndAt(TrimStart(s));
    var t := s[i..];
    assert Trim(s) == t[..j];
    assert Trim(s) == s[i..i + j];
    forall k | i + j <= k < |s| ensures IsWhitespace(s[k]) {
      assert s[k] == t[k - i];
    }
    assert Trims(s, Trim(s), i, i + j);
  }

  ghost predicate Trims(s: string, t: string, i: int, j: int) {
    && 0 <= i <= j <= |s| && t == s[i..j]
    && (forall k :: 0 <= k < i || j <= k < |s| ==> IsWhitespace(s[k]))
    && (i < j ==> !IsWhitespace(s[i]) && !IsWhitespace(s[j - 1]))
  }

  lemma {:induction false} TrimStartAt(s: string) returns (i: nat)
    ensures i <= |s| && TrimStart(s) == s[i..] && (i < |s| ==> !IsWhitespace(s[i]))
    ensures forall k :: 0 <= k < i ==> IsWhitespace(s[k])
  {
    if s != "" && IsWhitespace(s[0]) {
      var n := TrimStartAt(s[1..]);
      i := n + 1;
      assert s[1..][n..] == s[i..];
      forall k | 0 <= k < i ensures IsWhitespace(s[k]) {
        assert k > 0 ==> s[k] == s[1..][k - 1];
      }
    } else {
      i := 0;
    }
  }

  lemma {:induction false} TrimEndAt(s: string) returns (j: nat)
    ensures j <= |s| && TrimEnd(s) == s[..j] && (j > 0 ==> !IsWhitespace(s[j - 1]))
    ensures forall k :: j <= k < |s| ==> IsWhitespace(s[k])
  {
    if s != "" && IsWhitespace(s[|s| - 1]) {
      var init := s[..|s| - 1];
      j := TrimEndAt(init);
      assert init[..j] == s[..j];
      forall k | j <= k < |s| ensures IsWhitespace(s[k]) {
        assert k < |s| - 1 ==> s[k] == init[k];
      }
    } else {
      j := |s|;
    }
  }

  /** What follows the word that every command begins with. */
  ghost function AfterPrefix(input: string): (r: Option<string>) {
    var trimmed := Trim(input);
    if trimmed == "gittree" then Some("")
    else if "gittree " <= trimmed then Some(trimmed[8..])
    else None
  }

  ghost predicate IsKnownAction(namespace: string, action: string) {
    || (namespace == "account" && action in {"create", "status", "delete"})
    || (namespace == "profile" && action in {"set", "visibility"})
    || (namespace == "repo"
        && action in {"create", "announce", "sync", "archive", "unarchive", "update", "maintainers"})
  }

  /** Before the tokens are looked at. */
  lemma TextErrors(input: string)
    ensures Parse(input) == Err(MissingPrefix) <==> AfterPrefix(input).None?
    ensures AfterPrefix(input).Some? ==>
              (Parse(input) == Err(UnterminatedQuote) <==> Tokens(AfterPrefix(input).value).None?)
    ensures AfterPrefix(input).Some? && Tokens(AfterPrefix(input).value).Some? ==>
              Parse(input) == ParseTokens(Tokens(AfterPrefix(input).value).value)
  {
    assert |PREFIX| == 8;
  }

  /** A list of non-empty tokens is refused for its namespace, its action, or its arguments;
      the last exactly when the action is known and what it is given makes no listed command. */
  lemma TokenErrors(tokens: seq<string>)
    requires "" !in tokens
    ensures ParseTokens(tokens) == Err(EmptyCommand) <==> tokens == []
    ensures forall name :: ParseTokens(tokens) == Err(InvalidNamespace(name)) <==>
                           tokens != [] && tokens[0] == name && name !in {"account", "profile", "repo"}
    ensures forall action :: ParseTokens(tokens) == Err(InvalidCommand(action)) <==>
                             && tokens != [] && tokens[0] in {"account", "profile", "repo"}
                             && (if |tokens| == 1 then action == ""
                                 else tokens[1] == action && !IsKnownAction(tokens[0], action))
    ensures ParseTokens(tokens) == Err(InvalidArgs) <==>
            && |tokens| >= 2 && IsKnownAction(tokens[0], tokens[1])
            && var namespace := ParseNamespace(tokens[0]).value;
               var o := PlaceAll(namespace, tokens[2..]);
               !IsListed(ParsedCommand(namespace, tokens[1], o.target, o.args))
  {
    if |tokens| >= 2 && ParseNamespace(tokens[0]).Some? {
      var namespace := ParseNamespace(tokens[0]).value;
      var o := PlaceAll(namespace, tokens[2..]);
      assert tokens[1] in tokens && "" !in tokens[2..];
      PlacedOk(namespace, tokens[2..]);
      ListedMeaning(ParsedCommand(namespace, tokens[1], o.target, o.args));
      ShapeErrors(namespace, tokens[1], o.target, o.args);
    }
  }

  lemma ShapeErrors(namespace: Namespace, action: string, target: Option<string>, args: seq<CommandArg>)
    ensures var e := ValidateShape(namespace, action, target, args);
            && (e.Some? ==> e.value == InvalidArgs || e.value == InvalidCommand(action))
            && (e == Some(InvalidCommand(action)) <==> !IsKnownAction(NamespaceName(namespace), action))
  {
  }
}
