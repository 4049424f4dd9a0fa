/** The index tokenizer: maximal runs of word characters, in lower case, at least two characters long. */
module Tokenizer {
  import opened Bytes

  predicate IsWord(c: Byte) {
    48 <= c <= 57 || 65 <= c <= 90 || 97 <= c <= 122 || c == 95
  }

  function LowerByte(c: Byte): Byte {
    if 65 <= c <= 90 then c + 32 else c
  }

  function Lower(s: Text): Text {
    if s == [] then [] else Lower(s[..|s| - 1]) + [LowerByte(s[|s| - 1])]
  }

  /** The end of the run of word characters at position i. */
  function RunEnd(s: Text, i: nat): (e: nat)
    requires i <= |s|
    ensures i <= e <= |s| && (e < |s| ==> !IsWord(s[e]))
    ensures forall j | i <= j < e :: IsWord(s[j])
    decreases |s| - i
  {
    if i < |s| && IsWord(s[i]) then RunEnd(s, i + 1) else i
  }

  /** The token a run yields, if it is long enough. */
  function TokenOf(run: Text): seq<Text> {
    if |run| >= 2 then [Lower(run)] else []
  }

  function TokensFrom(s: Text, i: nat): seq<Text>
    requires i <= |s|
    decreases |s| - i
  {
    if i == |s| then []
    else if !IsWord(s[i]) then TokensFrom(s, i + 1)
    else TokenOf(s[i..RunEnd(s, i)]) + TokensFrom(s, RunEnd(s, i))
  }

  function Tokens(s: Text): seq<Text> {
    TokensFrom(s, 0)
  }

  /** What the scan has produced, what it is collecting, and what lies ahead make up all tokens. */
  ghost predicate Scanning(s: Text, i: nat, run: nat, tokens: seq<Text>, current: Text) {
    && run <= i <= |s| && current == Lower(s[run..i])
    && (forall j | run <= j < i :: IsWord(s[j]))
    && tokens + TokensFrom(s, run) == Tokens(s)
  }

  lemma {:induction false} LowerLength(s: Text)
    ensures |Lower(s)| == |s|
  {
    if s == [] {
    } else {
      LowerLength(s[..|s| - 1]);
    }
  }

  lemma {:induction false} RunContinues(s: Text, run: nat, i: nat)
    requires run <= i <= |s| && forall j | run <= j < i :: IsWord(s[j])
    ensures RunEnd(s, run) == RunEnd(s, i)
    decreases i - run
  {
    if run == i {
    } else {
      RunContinues(s, run + 1, i);
    }
  }

  lemma ExtendRun(s: Text, i: nat, run: nat, tokens: seq<Text>, current: Text)
    requires Scanning(s, i, run, tokens, current) && i < |s| && IsWord(s[i])
    ensures Scanning(s, i + 1, run, tokens, current + [LowerByte(s[i])])
  {
    assert s[run..i + 1][..i - run] == s[run..i];
  }

  function Flush(tokens: seq<Text>, current: Text): seq<Text> {
    if |current| >= 2 then tokens + [current] else tokens
  }

  /** A run ends at a position that holds no word character, or at the end of the text. */
  lemma EndRun(s: Text, i: nat, run: nat, tokens: seq<Text>, current: Text)
    requires Scanning(s, i, run, tokens, current) && (i < |s| ==> !IsWord(s[i]))
    ensures i < |s| ==> Scanning(s, i + 1, i + 1, Flush(tokens, current), [])
    ensures i == |s| ==> Flush(tokens, current) == Tokens(s)
  {
    LowerLength(s[run..i]);
    RunContinues(s, run, i);
    if run < i {
      assert (tokens + TokenOf(s[run..i])) + TokensFrom(s, i) == tokens + (TokenOf(s[run..i]) + TokensFrom(s, i));
    }
    assert tokens + [] == tokens && Flush(tokens, current) + [] == Flush(tokens, current);
  }

  lemma StartScan(s: Text)
    ensures Scanning(s, 0, 0, [], [])
  {
    assert [] + Tokens(s) == Tokens(s);
  }

  // ---- letter case, and tokens by position

  predicate IsLetterDigitOrUnderscore(c: Byte) {
    || 'a' as int <= c <= 'z' as int || 'A' as int <= c <= 'Z' as int || '0' as int <= c <= '9' as int || c == '_' as int
  }

  /** Equal, or the two cases of one letter. */
  predicate SameLetter(a: Byte, b: Byte) {
    || a == b
    || ('A' as int <= a <= 'Z' as int && b - a == 'a' as int - 'A' as int)
    || ('A' as int <= b <= 'Z' as int && a - b == 'a' as int - 'A' as int)
  }

  predicate SameUpToCase(s: Text, t: Text) {
    |s| == |t| && forall i | 0 <= i < |s| :: SameLetter(s[i], t[i])
  }

  predicate NoCapital(s: Text) {
    forall i | 0 <= i < |s| :: !('A' as int <= s[i] <= 'Z' as int)
  }

  /** Folding is the one way to write a text without capitals that is the same up to case. */
  lemma {:induction false} LowerFolds(s: Text)
    ensures SameUpToCase(Lower(s), s) && NoCapital(Lower(s))
    ensures forall i | 0 <= i < |s| :: Lower(s)[i] == LowerByte(s[i])
  {
    if s == [] {
    } else {
      LowerFolds(s[..|s| - 1]);
    }
  }

  lemma OneFolding(s: Text, t: Text)
    requires SameUpToCase(s, t) && NoCapital(s) && NoCapital(t)
    ensures s == t
  {
  }

  /** Two texts fold to the same if and only if they agree up to the case of letters. */
  lemma SameWhenFolded(s: Text, t: Text)
    ensures Lower(s) == Lower(t) <==> SameUpToCase(s, t)
  {
    hide Lower, LowerByte;
    LowerFolds(s);
    LowerFolds(t);
    if SameUpToCase(s, t) {
      OneFolding(Lower(s), Lower(t));
    }
    if Lower(s) == Lower(t) {
      forall i | 0 <= i < |s|
        ensures SameLetter(s[i], t[i])
      {
        assert SameLetter(Lower(s)[i], s[i]) && SameLetter(Lower(t)[i], t[i]);
      }
    }
  }

  lemma LowerSlice(s: Text, i: nat, j: nat)
    requires i <= j <= |s|
    ensures |Lower(s)| == |s| && Lower(s)[i..j] == Lower(s[i..j])
  {
    hide Lower, LowerByte;
    LowerFolds(s);
    LowerFolds(s[i..j]);
  }

  /** The positions of a run. */
  datatype Span = Span(from: int, to: int)

  /** From a to b, nothing but letters, digits and underscores, and none beside them. */
  predicate IsRun(s: Text, a: int, b: int) {
    && 0 <= a < b <= |s| && (forall j | a <= j < b :: IsLetterDigitOrUnderscore(s[j]))
    && (a > 0 ==> !IsLetterDigitOrUnderscore(s[a - 1])) && (b < |s| ==> !IsLetterDigitOrUnderscore(s[b]))
  }

  /** The token is the folded text of a run of at least two bytes that begins at position i or later. */
  predicate IsTokenOf(s: Text, i: int, run: Span, token: Text) {
    && i <= run.from && run.to - run.from >= 2 && IsRun(s, run.from, run.to)
    && NoCapital(token) && SameUpToCase(token, s[run.from..run.to])
  }

  /** One token for each such run, in order. */
  ghost predicate AreRuns(s: Text, i: int, runs: seq<Span>, tokens: seq<Text>) {
    && |runs| == |tokens|
    && (forall k | 0 <= k < |runs| :: IsTokenOf(s, i, runs[k], tokens[k]))
    && (forall k, m | 0 <= k < m < |runs| :: runs[k].to <= runs[m].from)
    && HasRuns(s, i, runs)
  }

  ghost predicate HasRuns(s: Text, i: int, runs: seq<Span>) {
    forall a, b | IsRun(s, a, b) && i <= a && b - a >= 2 :: exists k :: 0 <= k < |runs| && runs[k].from == a && runs[k].to == b
  }

  lemma {:induction false} TokenRuns(s: Text, i: nat) returns (runs: seq<Span>)
    requires i <= |s| && (0 < i < |s| && IsWord(s[i]) ==> !IsWord(s[i - 1]))
    ensures AreRuns(s, i, runs, TokensFrom(s, i))
    decreases |s| - i
  {
    hide Lower, AreRuns, IsRun;
    if i == |s| {
      runs := [];
      NoRunsLeft(s);
    } else if !IsWord(s[i]) {
      runs := TokenRuns(s, i + 1);
      NoRunHere(s, i, runs, TokensFrom(s, i + 1));
    } else {
      var e := RunEnd(s, i);
      var later := TokenRuns(s, e);
      RunFromHere(s, i, e);
      OneMoreRun(s, i, e, later, TokensFrom(s, e));
      runs := (if e - i >= 2 then [Span(i, e)] else []) + later;
    }
  }

  lemma NoRunsLeft(s: Text)
    ensures AreRuns(s, |s|, [], TokensFrom(s, |s|))
  {
  }

  lemma NoRunHere(s: Text, i: nat, runs: seq<Span>, tokens: seq<Text>)
    requires i < |s| && !IsWord(s[i]) && AreRuns(s, i + 1, runs, tokens)
    ensures AreRuns(s, i, runs, tokens)
  {
    assert forall b :: !IsRun(s, i, b);
  }

  lemma OneMoreRun(s: Text, i: nat, e: nat, later: seq<Span>, tokens: seq<Text>)
    requires i <= e <= |s| && IsRun(s, i, e) && AreRuns(s, e, later, tokens)
    requires forall a, b | IsRun(s, a, b) && i <= a :: (a == i && b == e) || e <= a
    ensures AreRuns(s, i, (if e - i >= 2 then [Span(i, e)] else []) + later, TokenOf(s[i..e]) + tokens)
  {
    hide Lower, IsRun, IsTokenOf, HasRuns, AreRuns;
    LaterTokens(s, i, e, later, tokens);
    HasOneMore(s, i, e, later);
    if e - i >= 2 {
      FirstToken(s, i, e);
      Prepended(s, i, Span(i, e), Lower(s[i..e]), later, tokens);
    } else {
      assert [] + later == later && [] + tokens == tokens;
      Shifted(s, i, e, later, tokens);
    }
  }

  lemma LaterTokens(s: Text, i: nat, e: nat, later: seq<Span>, tokens: seq<Text>)
    requires i <= e && AreRuns(s, e, later, tokens)
    ensures |later| == |tokens| && forall k | 0 <= k < |later| :: e <= later[k].from && IsTokenOf(s, i, later[k], tokens[k])
    ensures forall k, m | 0 <= k < m < |later| :: later[k].to <= later[m].from
    ensures HasRuns(s, e, later)
  {
    hide IsTokenOf, HasRuns;
    forall k | 0 <= k < |later|
      ensures e <= later[k].from && IsTokenOf(s, i, later[k], tokens[k])
    {
      LaterToken(s, i, e, later[k], tokens[k]);
    }
  }

  lemma Shifted(s: Text, i: nat, e: nat, later: seq<Span>, tokens: seq<Text>)
    requires i <= e && AreRuns(s, e, later, tokens) && HasRuns(s, i, later)
    ensures AreRuns(s, i, later, tokens)
  {
    hide IsTokenOf, HasRuns;
    LaterTokens(s, i, e, later, tokens);
  }

  lemma Prepended(s: Text, i: nat, run: Span, token: Text, later: seq<Span>, tokens: seq<Text>)
    requires |later| == |tokens| && IsTokenOf(s, i, run, token) && HasRuns(s, i, [run] + later)
    requires forall k | 0 <= k < |later| :: run.to <= later[k].from && IsTokenOf(s, i, later[k], tokens[k])
    requires forall k, m | 0 <= k < m < |later| :: later[k].to <= later[m].from
    ensures AreRuns(s, i, [run] + later, [token] + tokens)
  {
    hide IsTokenOf, HasRuns;
    var runs, all := [run] + later, [token] + tokens;
    assert runs[0] == run && all[0] == token;
    assert forall k | 0 < k < |runs| :: runs[k] == later[k - 1] && all[k] == tokens[k - 1];
  }

  lemma LaterToken(s: Text, i: int, e: int, run: Span, token: Text)
    requires i <= e && IsTokenOf(s, e, run, token)
    ensures e <= run.from && IsTokenOf(s, i, run, token)
  {
  }

  lemma FirstToken(s: Text, i: nat, e: nat)
    requires i <= e <= |s| && IsRun(s, i, e) && e - i >= 2
    ensures IsTokenOf(s, i, Span(i, e), Lower(s[i..e]))
  {
    hide Lower;
    LowerFolds(s[i..e]);
  }

  lemma HasOneMore(s: Text, i: nat, e: nat, later: seq<Span>)
    requires HasRuns(s, e, later) && forall a, b | IsRun(s, a, b) && i <= a :: (a == i && b == e) || e <= a
    ensures HasRuns(s, i, (if e - i >= 2 then [Span(i, e)] else []) + later)
  {
    hide IsRun;
    var runs := (if e - i >= 2 then [Span(i, e)] else []) + later;
    forall a, b | IsRun(s, a, b) && i <= a && b - a >= 2
      ensures exists k :: 0 <= k < |runs| && runs[k].from == a && runs[k].to == b
    {
      if a == i && b == e {
        assert runs[0] == Span(i, e);
      } else {
        var k :| 0 <= k < |later| && later[k].from == a && later[k].to == b;
        assert runs[|runs| - |later| + k] == later[k];
      }
    }
  }

  /** The run at position i ends where the scan says, and the next one begins after it. */
  lemma RunFromHere(s: Text, i: nat, e: nat)
    requires i < |s| && IsWord(s[i]) && (i > 0 ==> !IsWord(s[i - 1])) && e == RunEnd(s, i)
    ensures IsRun(s, i, e)
    ensures forall a, b | IsRun(s, a, b) && i <= a :: (a == i && b == e) || e <= a
  {
    assert e > i;
    assert forall j | i <= j < e :: IsLetterDigitOrUnderscore(s[j]);
    forall a, b | IsRun(s, a, b) && i <= a
      ensures (a == i && b == e) || e <= a
    {
    }
  }

  /** The tokens are the maximal runs of at least two letters, digits or underscores, folded, in order. */
  method Tokenize(s: Text) returns (tokens: seq<Text>, ghost runs: seq<Span>)
    ensures tokens == Tokens(s)
    ensures AreRuns(s, 0, runs, tokens)
  {
    hide Scanning, AreRuns;
    runs := TokenRuns(s, 0);
    tokens := [];
    var current: Text := [];
    ghost var run := 0;
    StartScan(s);
    for i := 0 to |s|
      invariant Scanning(s, i, run, tokens, current)
    {
      if IsWord(s[i]) {
        ExtendRun(s, i, run, tokens, current);
        current := current + [LowerByte(s[i])];
      } else {
        EndRun(s, i, run, tokens, current);
        if current != [] {
          if |current| >= 2 {
            tokens := tokens + [current];
          }
          current := [];
        }
        run := i + 1;
      }
    }
    EndRun(s, |s|, run, tokens, current);
    if current != [] && |current| >= 2 {
      tokens := tokens + [current];
    }
  }
}
