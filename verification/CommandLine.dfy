/** Flags, positional arguments and dispatch of a command line. */
module CommandLine {
  import opened CommandLexer
  import opened Sequences

  predicate StartsWith(s: string, prefix: string): (r: bool)
    ensures r ==> |prefix| <= |s|
  {
    |prefix| <= |s| && s[..|prefix|] == prefix
  }

  /** The first '=' of a flag expression, or its length. */
  function EqualsAt(s: string): nat {
    FirstOf(s, '=')
  }

  // ---- what each token is used for

  predicate IsInline(token: string) {
    StartsWith(token, "--") && '=' in token[2..]
  }

  /** A flag that takes the next token as its value, unless that one starts with a dash. */
  predicate IsBare(token: string) {
    if StartsWith(token, "--") then '=' !in token[2..] else StartsWith(token, "-") && |token| > 1
  }

  function Key(token: string): string
    requires IsInline(token) || IsBare(token)
  {
    if StartsWith(token, "--") then token[2..][..EqualsAt(token[2..])] else token[1..]
  }

  predicate IsValue(tokens: seq<string>, i: nat) {
    0 < i < |tokens| && IsBare(tokens[i - 1]) && !StartsWith(tokens[i], "-")
  }

  predicate IsFlag(token: string) {
    IsInline(token) || IsBare(token)
  }

  predicate IsPositional(tokens: seq<string>, i: nat)
    requires i < |tokens|
  {
    !IsFlag(tokens[i]) && !IsValue(tokens, i)
  }

  /** What the flag at position i is set to. */
  function Given(tokens: seq<string>, i: nat): string
    requires i < |tokens| && IsFlag(tokens[i])
  {
    if IsInline(tokens[i]) then tokens[i][2..][EqualsAt(tokens[i][2..]) + 1..]
    else if IsValue(tokens, i + 1) then tokens[i + 1]
    else "true"
  }

  function Positionals(tokens: seq<string>, n: nat): seq<string>
    requires n <= |tokens|
  {
    if n == 0 then []
    else Positionals(tokens, n - 1) + (if IsPositional(tokens, n - 1) then [tokens[n - 1]] else [])
  }

  function Flags(tokens: seq<string>, n: nat): map<string, string>
    requires n <= |tokens|
  {
    if n == 0 then map[]
    else if IsFlag(tokens[n - 1]) then Flags(tokens, n - 1)[Key(tokens[n - 1]) := Given(tokens, n - 1)]
    else Flags(tokens, n - 1)
  }

  ghost predicate Sets(tokens: seq<string>, i: nat, k: string) {
    i < |tokens| && IsFlag(tokens[i]) && Key(tokens[i]) == k
  }

  /** A key is set exactly when some flag token names it, and the last such token decides. */
  lemma {:induction false} LastFlagWins(tokens: seq<string>, n: nat, k: string)
    requires n <= |tokens|
    ensures k in Flags(tokens, n) <==> exists i :: 0 <= i < n && Sets(tokens, i, k)
    ensures forall i | 0 <= i < n && Sets(tokens, i, k) && (forall j | i < j < n :: !Sets(tokens, j, k)) ::
              k in Flags(tokens, n) && Flags(tokens, n)[k] == Given(tokens, i)
  {
    hide Given, Key;
    if n == 0 {
    } else {
      LastFlagWins(tokens, n - 1, k);
      assert Sets(tokens, n - 1, k) <==> IsFlag(tokens[n - 1]) && Key(tokens[n - 1]) == k;
    }
  }

  function CountFlags(tokens: seq<string>, n: nat): nat
    requires n <= |tokens|
  {
    if n == 0 then 0 else CountFlags(tokens, n - 1) + if IsFlag(tokens[n - 1]) then 1 else 0
  }

  /** The bare flags whose value is a token of its own. */
  function CountValued(tokens: seq<string>, n: nat): nat
    requires n <= |tokens|
  {
    if n == 0 then 0 else CountValued(tokens, n - 1) + if IsBare(tokens[n - 1]) && IsValue(tokens, n) then 1 else 0
  }

  /** Every token is a flag, the value of the one flag before it, or positional, and only one of them. */
  lemma {:induction false} EachTokenUsedOnce(tokens: seq<string>, n: nat)
    requires n <= |tokens|
    ensures CountFlags(tokens, n) + CountValued(tokens, n) + |Positionals(tokens, n)| ==
            n + if IsValue(tokens, n) then 1 else 0
  {
    hide StartsWith;
    if n == 0 {
    } else {
      EachTokenUsedOnce(tokens, n - 1);
      ValueIsNoFlag(tokens, n - 1);
    }
  }

  lemma ValueIsNoFlag(tokens: seq<string>, i: nat)
    requires i < |tokens|
    ensures IsValue(tokens, i) ==> !IsFlag(tokens[i])
    ensures !(IsInline(tokens[i]) && IsBare(tokens[i]))
  {
    if StartsWith(tokens[i], "--") {
      assert tokens[i][..1] == tokens[i][..2][..1];
    }
  }

  /** Moving past one token, and past the value of a bare flag. */
  lemma Advance(tokens: seq<string>, i: nat)
    requires i < |tokens| && !IsValue(tokens, i)
    ensures Positionals(tokens, i + 1) ==
            if IsFlag(tokens[i]) then Positionals(tokens, i) else Positionals(tokens, i) + [tokens[i]]
    ensures Flags(tokens, i + 1) ==
            if IsFlag(tokens[i]) then Flags(tokens, i)[Key(tokens[i]) := Given(tokens, i)] else Flags(tokens, i)
    ensures IsValue(tokens, i + 1) <==> IsBare(tokens[i]) && i + 1 < |tokens| && !StartsWith(tokens[i + 1], "-")
    ensures IsValue(tokens, i + 1) ==> !IsValue(tokens, i + 2)
    ensures IsValue(tokens, i + 1) ==> Positionals(tokens, i + 2) == Positionals(tokens, i + 1)
    ensures IsValue(tokens, i + 1) ==> Flags(tokens, i + 2) == Flags(tokens, i + 1)
  {
    hide StartsWith, Key, Given;
    if IsValue(tokens, i + 1) {
      ValueIsNoFlag(tokens, i + 1);
    }
  }

  /** What the parser finds in a flag token. */
  lemma FlagParts(token: string)
    ensures StartsWith(token, "--") ==> (IsInline(token) <==> EqualsAt(token[2..]) < |token| - 2)
    ensures StartsWith(token, "--") ==> IsBare(token) == !IsInline(token)
    ensures StartsWith(token, "--") && IsBare(token) ==> Key(token) == token[2..]
    ensures !StartsWith(token, "--") ==> !IsInline(token) && (IsBare(token) <==> StartsWith(token, "-") && |token| > 1)
  {
    if StartsWith(token, "--") {
      HasEquals(token[2..]);
      assert IsBare(token) ==> token[2..][..EqualsAt(token[2..])] == token[2..];
    }
  }

  method ParseFlags(tokens: seq<string>) returns (positional: seq<string>, flags: map<string, string>)
    ensures positional == Positionals(tokens, |tokens|)
    ensures flags == Flags(tokens, |tokens|)
  {
    hide Positionals, Flags, IsValue, IsBare, IsInline, EqualsAt, StartsWith;
    positional, flags := [], map[];
    NoTokens(tokens);
    var i := 0;
    while i < |tokens|
      invariant i <= |tokens| && !IsValue(tokens, i)
      invariant positional == Positionals(tokens, i) && flags == Flags(tokens, i)
    {
      var token := tokens[i];
      Advance(tokens, i);
      FlagParts(token);
      if StartsWith(token, "--") {
        var expression := token[2..];
        var at := EqualsAt(expression);
        if at < |expression| {
          flags := flags[expression[..at] := expression[at + 1..]];
        } else if i + 1 < |tokens| && !StartsWith(tokens[i + 1], "-") {
          i := i + 1;
          flags := flags[expression := tokens[i]];
        } else {
          flags := flags[expression := "true"];
        }
      } else if StartsWith(token, "-") && |token| > 1 {
        var expression := token[1..];
        if i + 1 < |tokens| && !StartsWith(tokens[i + 1], "-") {
          i := i + 1;
          flags := flags[expression := tokens[i]];
        } else {
          flags := flags[expression := "true"];
        }
      } else {
        positional := positional + [token];
      }
      i := i + 1;
    }
  }

  lemma NoTokens(tokens: seq<string>)
    ensures Positionals(tokens, 0) == [] && Flags(tokens, 0) == map[] && !IsValue(tokens, 0)
  {
  }

  lemma HasEquals(s: string)
    ensures EqualsAt(s) < |s| <==> '=' in s
  {
  }

  // ---- dispatch

  datatype Outcome = Ignored | Run(name: string) | NoRunCommand | UnknownCommand(name: string)

  class CommandContext {
    var rawLine: string
    var commandName: string
    var args: seq<string>
    var flags: map<string, string>

    constructor ()
    {
      rawLine, commandName, args, flags := "", "", [], map[];
    }

    /** Hands the line to the command it names; a line that starts with no slash is a task for `run`. */
    method Dispatch(line: string, isRegistered: string -> bool) returns (outcome: Outcome)
      modifies this
      ensures rawLine == line
      ensures var tokens := Read(line).Words();
              if tokens == [] then outcome == Ignored && unchanged(`commandName, `args, `flags)
              else if tokens[0] == "" || tokens[0][0] != '/' then
                if isRegistered("run")
                then outcome == Run("run") && commandName == "run" && args == tokens && flags == map[]
                else outcome == NoRunCommand && unchanged(`commandName, `args, `flags)
              else
                && commandName == tokens[0][1..] && args == Positionals(tokens[1..], |tokens| - 1)
                && flags == Flags(tokens[1..], |tokens| - 1)
                && outcome == if isRegistered(commandName) then Run(commandName) else UnknownCommand(commandName)
    {
      rawLine := line;
      var tokens := Tokenize(line);
      if tokens == [] {
        return Ignored;
      }
      var first := tokens[0];
      if first == "" || first[0] != '/' {
        if isRegistered("run") {
          commandName, args, flags := "run", tokens, map[];
          return Run("run");
        }
        return NoRunCommand;
      }
      var name := first[1..];
      var positional, parsed := ParseFlags(tokens[1..]);
      commandName, args, flags := name, positional, parsed;
      outcome := if isRegistered(name) then Run(name) else UnknownCommand(name);
    }
  }

  // ---- writing a command so that it is understood

  /** How an argument may be written: as a word, or as a flag with an inline value, with a value in the next
      token, or with none; the last two with two dashes or with one. */
  datatype Argument =
    | Word(text: string)
    | Inline(key: string, value: string)
    | Setting(long: bool, key: string, value: string)
    | Switch(long: bool, key: string)
  {
    predicate Valid() {
      match this
      case Word(text) => text != "" && (text == "-" || text[0] != '-')
      case Inline(key, _) => '=' !in key
      case Setting(long, key, value) => IsName(long, key) && value != "" && value[0] != '-'
      case Switch(long, key) => IsName(long, key)
    }

    function Tokens(): (tokens: seq<string>)
      ensures |tokens| == if Setting? then 2 else 1
    {
      match this
      case Word(text) => [text]
      case Inline(key, value) => ["--" + key + "=" + value]
      case Setting(long, key, value) => [(if long then "--" else "-") + key, value]
      case Switch(long, key) => [(if long then "--" else "-") + key]
    }

    /** What the flag is set to. */
    function Meant(): string {
      if Word? then "" else if Switch? then "true" else value
    }
  }

  predicate IsName(long: bool, key: string) {
    if long then '=' !in key else key != "" && key[0] != '-'
  }

  /** No flag without a value stands before a token that would be taken for its value. */
  predicate Fits(arguments: seq<Argument>) {
    && (forall i | 0 <= i < |arguments| :: arguments[i].Valid())
    && forall i | 0 < i < |arguments| :: !(Switches(arguments, i - 1) && arguments[i].Word? && arguments[i].text != "-")
  }

  predicate Switches(arguments: seq<Argument>, i: nat)
    requires i < |arguments|
  {
    arguments[i].Switch?
  }

  function TokensOf(arguments: seq<Argument>): (tokens: seq<string>) {
    if arguments == [] then [] else arguments[0].Tokens() + TokensOf(arguments[1..])
  }

  function WordsOf(arguments: seq<Argument>, n: nat): seq<string>
    requires n <= |arguments|
  {
    if n == 0 then []
    else WordsOf(arguments, n - 1) + (if arguments[n - 1].Word? then [arguments[n - 1].text] else [])
  }

  /** What the flags are set to; the last one given for a key counts. */
  function OptionsOf(arguments: seq<Argument>, n: nat): map<string, string>
    requires n <= |arguments|
  {
    if n == 0 then map[]
    else if arguments[n - 1].Word? then OptionsOf(arguments, n - 1)
    else OptionsOf(arguments, n - 1)[arguments[n - 1].key := arguments[n - 1].Meant()]
  }

  lemma FirstEquals(key: string, value: string)
    requires '=' !in key
    ensures EqualsAt(key + "=" + value) == |key|
  {
    var s := key + "=" + value;
    assert s[|key|] == '=' && forall j | 0 <= j < |key| :: s[j] == key[j];
  }

  lemma Dashes(s: string)
    ensures StartsWith(s, "-") <==> |s| >= 1 && s[0] == '-'
    ensures StartsWith(s, "--") <==> |s| >= 2 && s[0] == '-' && s[1] == '-'
  {
    if |s| >= 2 {
      assert s[..2] == [s[0], s[1]];
    }
  }

  /** What the first token of an argument is. */
  lemma FirstToken(a: Argument)
    requires a.Valid()
    ensures var token := a.Tokens()[0];
            && token != "" && (IsInline(token) <==> a.Inline?) && (IsBare(token) <==> a.Setting? || a.Switch?)
            && (!a.Word? ==> Key(token) == a.key) && (StartsWith(token, "-") <==> !a.Word? || a.text == "-")
            && (a.Inline? ==> token[2..][EqualsAt(token[2..]) + 1..] == a.value)
  {
    var token := a.Tokens()[0];
    Dashes(token);
    match a
    case Word(text) =>
    case Inline(key, value) =>
      FirstEquals(key, value);
      assert token[2..] == key + "=" + value;
      assert (key + "=" + value)[|key|] == '=';
      assert (key + "=" + value)[|key| + 1..] == value;
    case Setting(long, key, _) => BareToken(long, key);
    case Switch(long, key) => BareToken(long, key);
  }

  lemma BareToken(long: bool, key: string)
    requires IsName(long, key)
    ensures var token := (if long then "--" else "-") + key; IsBare(token) && !IsInline(token) && Key(token) == key
  {
    var token := (if long then "--" else "-") + key;
    Dashes(token);
    if long {
      assert token[2..] == key;
      assert key[..EqualsAt(key)] == key;
    } else {
      assert token[1..] == key;
    }
  }

  lemma {:induction false} TokensAppend(a: seq<Argument>, b: seq<Argument>)
    ensures TokensOf(a + b) == TokensOf(a) + TokensOf(b)
  {
    if a == [] {
      assert a + b == b;
    } else {
      assert (a + b)[1..] == a[1..] + b;
      TokensAppend(a[1..], b);
    }
  }

  function Start(arguments: seq<Argument>, n: nat): nat
    requires n <= |arguments|
  {
    |TokensOf(arguments[..n])|
  }

  /** Where the tokens of one argument are. */
  lemma TokensAt(arguments: seq<Argument>, n: nat)
    requires n < |arguments|
    ensures var i, j := Start(arguments, n), Start(arguments, n + 1);
            i < j <= |TokensOf(arguments)| && TokensOf(arguments)[i..j] == arguments[n].Tokens()
    ensures Start(arguments, 0) == 0 && Start(arguments, |arguments|) == |TokensOf(arguments)|
  {
    TokensAppend(arguments[..n], [arguments[n]]);
    TokensAppend(arguments[..n + 1], arguments[n + 1..]);
    assert arguments[..n + 1] == arguments[..n] + [arguments[n]];
    assert arguments == arguments[..n + 1] + arguments[n + 1..];
    assert TokensOf([arguments[n]]) == arguments[n].Tokens() + [];
    assert arguments[..|arguments|] == arguments;
  }

  lemma TokensStart(arguments: seq<Argument>)
    ensures Start(arguments, 0) == 0 && Start(arguments, |arguments|) == |TokensOf(arguments)|
  {
    assert arguments[..|arguments|] == arguments;
  }

  /** Whether the token after an argument's first one is its value. */
  lemma ValueFollows(arguments: seq<Argument>, n: nat)
    requires Fits(arguments) && n < |arguments|
    ensures var tokens, i := TokensOf(arguments), Start(arguments, n);
            && i < |tokens| && tokens[i] == arguments[n].Tokens()[0]
            && Start(arguments, n + 1) == i + |arguments[n].Tokens()|
            && (IsValue(tokens, i + 1) <==> arguments[n].Setting?)
            && (arguments[n].Setting? ==> i + 1 < |tokens| && tokens[i + 1] == arguments[n].value)
  {
    hide TokensOf, Start, IsBare, IsInline, StartsWith, Key;
    var tokens, i, j := TokensOf(arguments), Start(arguments, n), Start(arguments, n + 1);
    TokensAt(arguments, n);
    TokensStart(arguments);
    FirstToken(arguments[n]);
    assert tokens[i..j][0] == tokens[i];
    if arguments[n].Setting? {
      assert tokens[i..j][1] == tokens[i + 1];
      Dashes(tokens[i + 1]);
    } else if n + 1 < |arguments| {
      TokensAt(arguments, n + 1);
      assert tokens[j..Start(arguments, n + 2)][0] == tokens[j];
      FirstToken(arguments[n + 1]);
      assert Switches(arguments, n + 1 - 1) <==> arguments[n].Switch?;
    }
  }

  lemma {:induction false} ArgumentsRead(arguments: seq<Argument>, n: nat)
    requires Fits(arguments) && n <= |arguments|
    ensures var tokens, i := TokensOf(arguments), Start(arguments, n);
            && i <= |tokens| && !IsValue(tokens, i)
            && Positionals(tokens, i) == WordsOf(arguments, n) && Flags(tokens, i) == OptionsOf(arguments, n)
  {
    hide TokensOf, Start, IsBare, IsInline, StartsWith, Key, Positionals, Flags, IsValue, Fits, Argument.Tokens;
    TokensStart(arguments);
    var tokens := TokensOf(arguments);
    if n == 0 {
      NoTokens(tokens);
    } else {
      var a, i := arguments[n - 1], Start(arguments, n - 1);
      ArgumentsRead(arguments, n - 1);
      ValueFollows(arguments, n - 1);
      AreValid(arguments, n - 1);
      FirstToken(a);
      Advance(tokens, i);
      TokenCount(a);
    }
  }

  lemma AreValid(arguments: seq<Argument>, i: nat)
    requires Fits(arguments) && i < |arguments|
    ensures arguments[i].Valid()
  {
  }

  lemma TokenCount(a: Argument)
    ensures |a.Tokens()| == if a.Setting? then 2 else 1
    ensures a.Word? ==> a.Tokens()[0] == a.text
  {
  }

  /** Arguments written as tokens are read back as the words and the flags they mean. */
  lemma ArgumentsParse(arguments: seq<Argument>)
    requires Fits(arguments)
    ensures var tokens := TokensOf(arguments);
            && Positionals(tokens, |tokens|) == WordsOf(arguments, |arguments|)
            && Flags(tokens, |tokens|) == OptionsOf(arguments, |arguments|)
  {
    TokensStart(arguments);
    ArgumentsRead(arguments, |arguments|);
  }

  /** One argument less. */
  lemma FitsPrepend(a: Argument, rest: seq<Argument>)
    requires a.Valid() && Fits(rest)
    requires rest != [] && a.Switch? ==> !rest[0].Word? || rest[0].text == "-"
    ensures Fits([a] + rest) && TokensOf([a] + rest) == a.Tokens() + TokensOf(rest)
  {
    hide Argument.Valid, Argument.Tokens;
    var all := [a] + rest;
    assert all[1..] == rest;
    forall i | 0 < i < |all|
      ensures !(Switches(all, i - 1) && all[i].Word? && all[i].text != "-")
    {
      assert i > 1 ==> (Switches(rest, i - 1 - 1) <==> Switches(all, i - 1));
    }
  }

  /** Every list of tokens is some list of arguments, so there is no other way for flags to be given. */
  lemma {:induction false} EveryTokenReads(tokens: seq<string>) returns (arguments: seq<Argument>)
    requires forall i | 0 <= i < |tokens| :: tokens[i] != ""
    ensures Fits(arguments) && TokensOf(arguments) == tokens
  {
    hide Argument.Valid, Argument.Tokens, StartsWith, TokensOf, Fits, IsBare, Key;
    if tokens == [] {
      arguments := [];
      NoArguments();
    } else {
      var a := ArgumentAt(tokens);
      var n := |a.Tokens()|;
      assert forall i | 0 <= i < |tokens[n..]| :: tokens[n..][i] != "";
      var rest := EveryTokenReads(tokens[n..]);
      if rest != [] && a.Switch? {
        TokensAt(rest, 0);
        TokensStart(rest);
        AreValid(rest, 0);
        FirstToken(rest[0]);
        assert tokens[1..][0..Start(rest, 1)][0] == tokens[1];
      }
      FitsPrepend(a, rest);
      arguments := [a] + rest;
    }
  }

  lemma NoArguments()
    ensures Fits([]) && TokensOf([]) == []
  {
  }

  lemma ArgumentAt(tokens: seq<string>) returns (a: Argument)
    requires tokens != [] && forall i | 0 <= i < |tokens| :: tokens[i] != ""
    ensures a.Valid() && |a.Tokens()| <= |tokens| && a.Tokens() == tokens[..|a.Tokens()|]
    ensures a.Switch? && |tokens| > 1 ==> StartsWith(tokens[1], "-")
  {
    var token := tokens[0];
    Dashes(token);
    FlagParts(token);
    if |tokens| > 1 {
      Dashes(tokens[1]);
    }
    var taken := |tokens| > 1 && !StartsWith(tokens[1], "-");
    if IsInline(token) {
      var e := EqualsAt(token[2..]);
      a := Inline(token[2..][..e], token[2..][e + 1..]);
      assert token == "--" + token[2..][..e] + "=" + token[2..][e + 1..];
    } else if IsBare(token) {
      var long := StartsWith(token, "--");
      var key := if long then token[2..] else token[1..];
      assert token == (if long then "--" else "-") + key;
      a := if taken then Setting(long, key, tokens[1]) else Switch(long, key);
    } else {
      a := Word(token);
    }
  }

  /** A slash command written in any quoting that yields its name and arguments is read back as exactly these. */
  lemma CommandComesBack(words: seq<seq<Element>>, name: string, arguments: seq<Argument>)
    requires forall i | 0 <= i < |words| :: IsWord(words[i])
    requires Fits(arguments)
    requires Values(words) == ["/" + name] + TokensOf(arguments)
    ensures var tokens := Read(TextOf(Line(words))).Words();
            && tokens != [] && tokens[0] == "/" + name
            && Positionals(tokens[1..], |tokens| - 1) == WordsOf(arguments, |arguments|)
            && Flags(tokens[1..], |tokens| - 1) == OptionsOf(arguments, |arguments|)
  {
    hide Positionals, Flags, WordsOf, OptionsOf, TokensOf, Values, Line, TextOf, Read, Done, Current, IsWord, Fits;
    WordsComeBack(words);
    ReadElements(Line(words));
    assert "" + "" == "";
    ArgumentsParse(arguments);
    assert (["/" + name] + TokensOf(arguments))[1..] == TokensOf(arguments);
  }

  lemma {:induction false} TokensNotEmpty(arguments: seq<Argument>)
    requires forall i | 0 <= i < |arguments| :: arguments[i].Valid()
    ensures forall i | 0 <= i < |TokensOf(arguments)| :: TokensOf(arguments)[i] != ""
  {
    if arguments == [] {
    } else {
      TokensNotEmpty(arguments[1..]);
    }
  }

  /** Escaping every character is one such quoting. */
  lemma EscapedCommandComesBack(name: string, arguments: seq<Argument>)
    requires Fits(arguments)
    ensures var tokens := Read(EscapedLine(["/" + name] + TokensOf(arguments))).Words();
            && tokens != [] && tokens[0] == "/" + name
            && Positionals(tokens[1..], |tokens| - 1) == WordsOf(arguments, |arguments|)
            && Flags(tokens[1..], |tokens| - 1) == OptionsOf(arguments, |arguments|)
  {
    hide Positionals, Flags, WordsOf, OptionsOf, TokensOf, Read, EscapedLine, Argument.Tokens, Argument.Valid;
    var tokens := ["/" + name] + TokensOf(arguments);
    TokensNotEmpty(arguments);
    EscapedLineYields(tokens);
    ArgumentsParse(arguments);
    assert tokens[1..] == TokensOf(arguments);
  }

  /** The forms a flag can take, in characters. */
  lemma FlagForms(key: string, value: string)
    requires '=' !in key && value != "" && value[0] != '-'
    ensures Flags(["--" + key + "=" + value], 1) == map[key := value]
    ensures Flags(["--" + key, value], 2) == map[key := value] && Positionals(["--" + key, value], 2) == []
    ensures Flags(["--" + key], 1) == map[key := "true"]
    ensures key != "" && key[0] != '-' ==>
              && Flags(["-" + key, value], 2) == map[key := value] && Positionals(["-" + key, value], 2) == []
              && Flags(["-" + key], 1) == map[key := "true"]
  {
    OneFlag(Inline(key, value));
    OneFlag(Setting(true, key, value));
    OneFlag(Switch(true, key));
    if key != "" && key[0] != '-' {
      OneFlag(Setting(false, key, value));
      OneFlag(Switch(false, key));
    }
  }

  lemma OneFlag(a: Argument)
    requires a.Valid() && !a.Word?
    ensures var tokens := a.Tokens();
            Flags(tokens, |tokens|) == map[a.key := a.Meant()] && Positionals(tokens, |tokens|) == []
  {
    hide Flags, Positionals;
    assert TokensOf([a]) == a.Tokens();
    ArgumentsParse([a]);
    assert WordsOf([a], 1) == [] && OptionsOf([a], 1) == map[a.key := a.Meant()];
  }
}
