/** The two scoring passes of a code search: one over the postings, one over the symbol table. */
module SymbolSearch {
  import opened Wrappers
  import opened Bytes
  import opened RankFusion
  import opened SymbolTable
  import opened Tokenizer

  ghost predicate Positive(scores: map<Path, real>) {
    forall p | p in scores :: scores[p] > 0.0
  }

  predicate Contains(s: Text, part: Text) {
    Find(s, part, 0).Some?
  }

  // ---- symbols

  function Weight(name: Text, token: Text): real {
    if name == token then 10.0 else if Contains(name, token) then 3.0 else 0.0
  }

  /** The symbols' weights against a token, counting only names in `done`. */
  function ScanNames(symbols: seq<Symbol>, token: Text, done: set<Text>): (r: real)
    ensures r >= 0.0
  {
    if symbols == [] then 0.0
    else ScanNames(symbols[..|symbols| - 1], token, done) +
         (if Lower(symbols[|symbols| - 1].name) in done then Weight(Lower(symbols[|symbols| - 1].name), token) else 0.0)
  }

  /** The symbols' weights against a token: a scan of one file. */
  function ScanFile(symbols: seq<Symbol>, token: Text): (r: real)
    ensures r >= 0.0
  {
    if symbols == [] then 0.0
    else ScanFile(symbols[..|symbols| - 1], token) + Weight(Lower(symbols[|symbols| - 1].name), token)
  }

  /** A file's symbol score: the weights of its symbols against all query tokens. */
  function SymbolScore(symbols: seq<Symbol>, tokens: seq<Text>): (r: real)
    ensures r >= 0.0
  {
    if tokens == [] then 0.0
    else SymbolScore(symbols, tokens[..|tokens| - 1]) + ScanFile(symbols, tokens[|tokens| - 1])
  }

  lemma ContainsItself(s: Text)
    ensures Contains(s, s)
  {
    assert s[0..0 + |s|] == s;
    assert OccursAt(s, s, 0);
  }

  lemma {:induction false} ScanFileWhenNamed(symbols: seq<Symbol>, token: Text)
    ensures ScanFile(symbols, token) > 0.0 <==> exists i :: 0 <= i < |symbols| && Contains(Lower(symbols[i].name), token)
  {
    hide Contains, Lower;
    if symbols == [] {
    } else {
      var most := symbols[..|symbols| - 1];
      ScanFileWhenNamed(most, token);
      ContainsItself(token);
      assert forall i | 0 <= i < |most| :: symbols[i] == most[i];
    }
  }

  /** A file has a symbol score exactly when one of its symbols' names contains a query token. */
  lemma {:induction false} ScoredWhenNamed(symbols: seq<Symbol>, tokens: seq<Text>)
    ensures SymbolScore(symbols, tokens) > 0.0 <==>
            exists i, j :: 0 <= i < |symbols| && 0 <= j < |tokens| && Contains(Lower(symbols[i].name), tokens[j])
  {
    hide Contains, Lower, ScanFile;
    if tokens == [] {
    } else {
      var most := tokens[..|tokens| - 1];
      ScoredWhenNamed(symbols, most);
      ScanFileWhenNamed(symbols, tokens[|tokens| - 1]);
      assert forall j | 0 <= j < |most| :: tokens[j] == most[j];
    }
  }

  /** The positions of a list that a test passes. */
  ghost function Places<T>(s: seq<T>, test: T -> bool): set<int> {
    set i | 0 <= i < |s| && test(s[i])
  }

  lemma OnePlaceMore<T>(s: seq<T>, test: T -> bool)
    requires s != []
    ensures |Places(s, test)| == |Places(s[..|s| - 1], test)| + if test(s[|s| - 1]) then 1 else 0
  {
    var most, last := s[..|s| - 1], |s| - 1;
    assert Places(s, test) == Places(most, test) + if test(s[last]) then {last} else {};
    assert last !in Places(most, test);
  }

  ghost predicate Holds(name: Text, token: Text) {
    exists a, b :: name == a + token + b
  }

  /** A symbol's folded name is the token, or it holds the token and more. */
  ghost function IsNamed(token: Text): Symbol -> bool {
    (symbol: Symbol) => Lower(symbol.name) == token
  }

  ghost function IsNamedAround(token: Text): Symbol -> bool {
    (symbol: Symbol) => Lower(symbol.name) != token && Holds(Lower(symbol.name), token)
  }

  lemma WeighName(name: Text, token: Text)
    ensures Weight(name, token) == if name == token then 10.0 else if Holds(name, token) then 3.0 else 0.0
  {
    FindSplits(name, token);
  }

  /** In one file, a token scores ten for each symbol of that name, and three for each whose name holds it. */
  lemma {:induction false} ScanFileCounts(symbols: seq<Symbol>, token: Text)
    ensures ScanFile(symbols, token) ==
            10.0 * |Places(symbols, IsNamed(token))| as real + 3.0 * |Places(symbols, IsNamedAround(token))| as real
  {
    hide Lower, Holds, Weight;
    if symbols == [] {
    } else {
      ScanFileCounts(symbols[..|symbols| - 1], token);
      OnePlaceMore(symbols, IsNamed(token));
      OnePlaceMore(symbols, IsNamedAround(token));
      WeighName(Lower(symbols[|symbols| - 1].name), token);
    }
  }

  /** Over several tokens, scores add up. */
  lemma {:induction false} SymbolScoresAdd(symbols: seq<Symbol>, tokens: seq<Text>, more: seq<Text>)
    ensures SymbolScore(symbols, tokens + more) == SymbolScore(symbols, tokens) + SymbolScore(symbols, more)
    ensures |more| == 1 ==> SymbolScore(symbols, more) == ScanFile(symbols, more[0])
  {
    hide ScanFile;
    if more == [] {
      assert tokens + more == tokens;
    } else {
      var most := more[..|more| - 1];
      SymbolScoresAdd(symbols, tokens, most);
      assert (tokens + more)[..|tokens + more| - 1] == tokens + most;
    }
  }

  function Times(n: nat, w: real): real {
    if n == 0 then 0.0 else Times(n - 1, w) + w
  }

  lemma {:induction false} TimesNothing(n: nat)
    ensures Times(n, 0.0) == 0.0
  {
    if n == 0 {
    } else {
      TimesNothing(n - 1);
    }
  }

  /** Scanning one more name adds its weight once for each symbol of that name. */
  lemma {:induction false} ScanOneMore(symbols: seq<Symbol>, token: Text, done: set<Text>, name: Text)
    requires name !in done
    ensures ScanNames(symbols, token, done + {name})
         == ScanNames(symbols, token, done) + Times(|Keep(symbols, Named(name))|, Weight(name, token))
  {
    hide Weight;
    if symbols == [] {
    } else {
      ScanOneMore(symbols[..|symbols| - 1], token, done, name);
    }
  }

  lemma {:induction false} ScanNoName(symbols: seq<Symbol>, token: Text)
    ensures ScanNames(symbols, token, {}) == 0.0
  {
    if symbols == [] {
    } else {
      ScanNoName(symbols[..|symbols| - 1], token);
    }
  }

  lemma {:induction false} ScanAllNames(symbols: seq<Symbol>, token: Text, done: set<Text>)
    requires forall n | n !in done :: Keep(symbols, Named(n)) == []
    ensures ScanNames(symbols, token, done) == ScanFile(symbols, token)
  {
    hide Weight;
    if symbols == [] {
    } else {
      var most, last := symbols[..|symbols| - 1], symbols[|symbols| - 1];
      forall n | n !in done
        ensures Keep(most, Named(n)) == []
      {
        assert Keep(symbols, Named(n)) == [];
      }
      ScanAllNames(most, token, done);
      assert Keep(symbols, Named(Lower(last.name))) != [];
    }
  }

  /** Every listed symbol of a file has added `w` to the file's score. */
  ghost predicate Credited(before: map<Path, real>, scores: map<Path, real>, list: seq<Symbol>, w: real) {
    forall p :: ScoreAt(scores, p) == ScoreAt(before, p) + Times(|Keep(list, OfFile(p))|, w)
  }

  lemma CreditStep(before: map<Path, real>, scores: map<Path, real>, list: seq<Symbol>, s: Symbol, w: real)
    requires Credited(before, scores, list, w)
    ensures Credited(before, scores[s.file := ScoreAt(scores, s.file) + w], list + [s], w)
  {
    hide Keep;
    forall p
      ensures Times(|Keep(list + [s], OfFile(p))|, w) ==
              Times(|Keep(list, OfFile(p))|, w) + if s.file == p then w else 0.0
    {
      KeepPush(list, s, OfFile(p));
    }
  }

  lemma CreditedNothing(scores: map<Path, real>, w: real)
    ensures Credited(scores, scores, [], w)
  {
  }

  method Credit(before: map<Path, real>, list: seq<Symbol>, w: real) returns (scores: map<Path, real>)
    requires w > 0.0 && Positive(before)
    ensures Credited(before, scores, list, w) && Positive(scores)
  {
    hide Credited;
    scores := before;
    CreditedNothing(before, w);
    for i := 0 to |list|
      invariant Credited(before, scores, list[..i], w) && Positive(scores)
    {
      CreditStep(before, scores, list[..i], list[i], w);
      assert list[..i + 1] == list[..i] + [list[i]];
      scores := scores[list[i].file := ScoreAt(scores, list[i].file) + w];
    }
    assert list[..|list|] == list;
  }

  function SymbolsOf(files: map<Path, ParsedFile>, p: Path): seq<Symbol> {
    if p in files then files[p].symbols else []
  }

  ghost predicate AllAgree(t: Table, files: map<Path, ParsedFile>) {
    forall p :: Agrees(t, p, SymbolsOf(files, p))
  }

  /** The names in `done` have been weighed against the token, for every file. */
  ghost predicate Weighed(before: map<Path, real>, scores: map<Path, real>, files: map<Path, ParsedFile>,
                          token: Text, done: set<Text>)
  {
    forall p :: ScoreAt(scores, p) == ScoreAt(before, p) + ScanNames(SymbolsOf(files, p), token, done)
  }

  /** The score of every file against the tokens so far. */
  ghost predicate Scored(scores: map<Path, real>, files: map<Path, ParsedFile>, tokens: seq<Text>) {
    forall p :: ScoreAt(scores, p) == SymbolScore(SymbolsOf(files, p), tokens)
  }

  lemma WeighOne(before: map<Path, real>, now: map<Path, real>, next: map<Path, real>, t: Table,
                 files: map<Path, ParsedFile>, token: Text, done: set<Text>, name: Text)
    requires AllAgree(t, files) && name in t && name !in done
    requires Weighed(before, now, files, token, done)
    requires if name == token then Credited(now, next, t[name], 10.0)
             else if Contains(name, token) then Credited(now, next, t[name], 3.0)
             else next == now
    ensures Weighed(before, next, files, token, done + {name})
  {
    hide Keep, SymbolsOf, ScanNames, Contains;
    forall p
      ensures ScoreAt(next, p) == ScoreAt(before, p) + ScanNames(SymbolsOf(files, p), token, done + {name})
    {
      assert Agrees(t, p, SymbolsOf(files, p));
      assert Keep(ListAt(t, name), OfFile(p)) == Keep(SymbolsOf(files, p), Named(name));
      ScanOneMore(SymbolsOf(files, p), token, done, name);
      TimesNothing(|Keep(SymbolsOf(files, p), Named(name))|);
    }
  }

  /** Names that are not in the table are the names of no symbol. */
  lemma TableHasAllNames(t: Table, files: map<Path, ParsedFile>, token: Text, p: Path)
    requires AllAgree(t, files)
    ensures ScanNames(SymbolsOf(files, p), token, t.Keys) == ScanFile(SymbolsOf(files, p), token)
  {
    hide SymbolsOf, ScanNames, ScanFile;
    assert Agrees(t, p, SymbolsOf(files, p));
    forall n | n !in t.Keys
      ensures Keep(SymbolsOf(files, p), Named(n)) == []
    {
      assert Keep(ListAt(t, n), OfFile(p)) == Keep(SymbolsOf(files, p), Named(n));
    }
    ScanAllNames(SymbolsOf(files, p), token, t.Keys);
  }

  lemma WeighAll(before: map<Path, real>, scores: map<Path, real>, t: Table, files: map<Path, ParsedFile>, token: Text)
    requires AllAgree(t, files) && Weighed(before, scores, files, token, t.Keys)
    ensures TokenScored(before, scores, files, token)
  {
    hide AllAgree, SymbolsOf, ScanNames, ScanFile, ScoreAt;
    forall p
      ensures ScanNames(SymbolsOf(files, p), token, t.Keys) == ScanFile(SymbolsOf(files, p), token)
    {
      TableHasAllNames(t, files, token, p);
    }
  }

  ghost predicate TokenScored(before: map<Path, real>, scores: map<Path, real>, files: map<Path, ParsedFile>, token: Text) {
    forall p :: ScoreAt(scores, p) == ScoreAt(before, p) + ScanFile(SymbolsOf(files, p), token)
  }

  lemma WeighedNothing(scores: map<Path, real>, files: map<Path, ParsedFile>, token: Text)
    ensures Weighed(scores, scores, files, token, {})
  {
    forall p
      ensures ScanNames(SymbolsOf(files, p), token, {}) == 0.0
    {
      ScanNoName(SymbolsOf(files, p), token);
    }
  }

  method ScoreToken(t: Table, files: map<Path, ParsedFile>, token: Text, before: map<Path, real>)
    returns (scores: map<Path, real>)
    requires AllAgree(t, files) && Positive(before)
    ensures TokenScored(before, scores, files, token) && Positive(scores)
  {
    hide AllAgree, Credited, Weighed, TokenScored, Contains, Positive;
    scores := before;
    var rest := t;
    ghost var done: set<Text> := {};
    WeighedNothing(before, files, token);
    while rest != map[]
      invariant done !! rest.Keys && done + rest.Keys == t.Keys
      invariant forall n | n in rest :: rest[n] == t[n]
      invariant Weighed(before, scores, files, token, done) && Positive(scores)
      decreases |rest|
    {
      var name :| name in rest;
      ghost var now := scores;
      if name == token {
        scores := Credit(scores, rest[name], 10.0);
      } else if Contains(name, token) {
        scores := Credit(scores, rest[name], 3.0);
      }
      WeighOne(before, now, scores, t, files, token, done, name);
      done := done + {name};
      rest := rest - {name};
    }
    WeighAll(before, scores, t, files, token);
  }

  method ScoreSymbols(t: Table, files: map<Path, ParsedFile>, tokens: seq<Text>) returns (scores: map<Path, real>)
    requires AllAgree(t, files)
    ensures Scored(scores, files, tokens) && Positive(scores)
  {
    hide AllAgree, ScanFile;
    scores := map[];
    for i := 0 to |tokens|
      invariant Scored(scores, files, tokens[..i]) && Positive(scores)
    {
      scores := ScoreToken(t, files, tokens[i], scores);
      assert tokens[..i + 1][..i] == tokens[..i];
    }
    assert tokens[..|tokens|] == tokens;
  }

  // ---- postings

  /** The value of each posting is the one the ranking function gives; it is not modelled further. */
  type Ranking = (Text, Path) -> real

  function LexicalScore(inv: Postings, tokens: seq<Text>, bm25: Ranking, p: Path): real {
    if tokens == [] then 0.0
    else LexicalScore(inv, tokens[..|tokens| - 1], bm25, p) +
         (if PostingAt(inv, tokens[|tokens| - 1], p).Some? then bm25(tokens[|tokens| - 1], p) else 0.0)
  }

  /** A token adds its value for the file where it is posted; over several tokens, values add up. */
  lemma {:induction false} LexicalScoresAdd(inv: Postings, tokens: seq<Text>, more: seq<Text>, bm25: Ranking, p: Path)
    ensures LexicalScore(inv, tokens + more, bm25, p) == LexicalScore(inv, tokens, bm25, p) + LexicalScore(inv, more, bm25, p)
    ensures |more| == 1 ==> LexicalScore(inv, more, bm25, p) ==
                            if more[0] in inv && p in inv[more[0]] then bm25(more[0], p) else 0.0
  {
    if more == [] {
      assert tokens + more == tokens;
    } else {
      var most := more[..|more| - 1];
      LexicalScoresAdd(inv, tokens, most, bm25, p);
      assert (tokens + more)[..|tokens + more| - 1] == tokens + most;
    }
  }

  ghost predicate Mentioned(inv: Postings, tokens: seq<Text>, p: Path) {
    exists i :: 0 <= i < |tokens| && PostingAt(inv, tokens[i], p).Some?
  }

  ghost predicate ScoredLexically(scores: map<Path, real>, inv: Postings, tokens: seq<Text>, bm25: Ranking) {
    forall p :: (p in scores <==> Mentioned(inv, tokens, p)) && ScoreAt(scores, p) == LexicalScore(inv, tokens, bm25, p)
  }

  /** One more token: the files outside `rest` have its value added. */
  ghost predicate Adding(before: map<Path, real>, scores: map<Path, real>, inv: Postings, token: Text, bm25: Ranking,
                         rest: map<Path, nat>)
  {
    forall p :: var added := PostingAt(inv, token, p).Some? && p !in rest;
      && (p in scores <==> p in before || added)
      && ScoreAt(scores, p) == ScoreAt(before, p) + (if added then bm25(token, p) else 0.0)
  }

  lemma MentionedPush(inv: Postings, tokens: seq<Text>, token: Text, p: Path)
    ensures Mentioned(inv, tokens + [token], p) <==> Mentioned(inv, tokens, p) || PostingAt(inv, token, p).Some?
  {
    assert (tokens + [token])[|tokens|] == token;
    assert forall i | 0 <= i < |tokens| :: (tokens + [token])[i] == tokens[i];
  }

  lemma Added(before: map<Path, real>, scores: map<Path, real>, inv: Postings, tokens: seq<Text>, token: Text, bm25: Ranking)
    requires ScoredLexically(before, inv, tokens, bm25)
    requires Adding(before, scores, inv, token, bm25, map[])
    ensures ScoredLexically(scores, inv, tokens + [token], bm25)
  {
    hide PostingAt, Mentioned;
    forall p
      ensures (p in scores <==> Mentioned(inv, tokens + [token], p))
      ensures ScoreAt(scores, p) == LexicalScore(inv, tokens + [token], bm25, p)
    {
      MentionedPush(inv, tokens, token, p);
      assert (tokens + [token])[..|tokens|] == tokens;
    }
  }

  lemma AddOne(before: map<Path, real>, scores: map<Path, real>, inv: Postings, token: Text, bm25: Ranking,
               rest: map<Path, nat>, p: Path)
    requires Adding(before, scores, inv, token, bm25, rest)
    requires p in rest && PostingAt(inv, token, p).Some?
    ensures Adding(before, scores[p := ScoreAt(scores, p) + bm25(token, p)], inv, token, bm25, rest - {p})
  {
    hide PostingAt;
  }

  method AddToken(before: map<Path, real>, inv: Postings, token: Text, bm25: Ranking) returns (scores: map<Path, real>)
    ensures Adding(before, scores, inv, token, bm25, map[])
  {
    hide Adding;
    scores := before;
    var rest := if token in inv then inv[token] else map[];
    AddNone(before, inv, token, bm25, rest);
    while rest != map[]
      invariant forall p | p in rest :: token in inv && p in inv[token]
      invariant Adding(before, scores, inv, token, bm25, rest)
      decreases |rest|
    {
      var p :| p in rest;
      AddOne(before, scores, inv, token, bm25, rest, p);
      scores := scores[p := ScoreAt(scores, p) + bm25(token, p)];
      rest := rest - {p};
    }
  }

  lemma AddNone(before: map<Path, real>, inv: Postings, token: Text, bm25: Ranking, rest: map<Path, nat>)
    requires rest == if token in inv then inv[token] else map[]
    ensures Adding(before, before, inv, token, bm25, rest)
  {
  }

  method ScoreTerms(inv: Postings, tokens: seq<Text>, bm25: Ranking) returns (scores: map<Path, real>)
    ensures ScoredLexically(scores, inv, tokens, bm25)
  {
    hide ScoredLexically, Adding;
    scores := map[];
    NothingScored(inv, bm25);
    for i := 0 to |tokens|
      invariant ScoredLexically(scores, inv, tokens[..i], bm25)
    {
      ghost var before := scores;
      scores := AddToken(scores, inv, tokens[i], bm25);
      Added(before, scores, inv, tokens[..i], tokens[i], bm25);
      assert tokens[..i + 1] == tokens[..i] + [tokens[i]];
    }
    assert tokens[..|tokens|] == tokens;
  }

  lemma NothingScored(inv: Postings, bm25: Ranking)
    ensures ScoredLexically(map[], inv, [], bm25)
  {
  }
}
