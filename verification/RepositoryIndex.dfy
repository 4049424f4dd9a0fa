/** The repository index: incremental indexing, symbol lookup and search. The parser is any function from a
    path and a content to a parse; it stamps the path on each symbol. */
module RepositoryIndexes {
  import opened Wrappers
  import opened Bytes
  import opened Checksums
  import opened RankFusion
  import opened Sequences
  import opened SymbolSearch
  import opened SymbolTable
  import opened Tokenizer

  type Parser = (Path, Text) -> ParsedFile

  ghost predicate Stamps(parse: Parser) {
    forall p, content, i | 0 <= i < |parse(p, content).symbols| :: parse(p, content).symbols[i].file == p
  }

  /** A content that was indexed under a path; the history of an index begins at its last clearing. */
  datatype Entry = Entry(path: Path, content: Text)

  /** The occurrences of a term in the last content under this path that held it. */
  ghost function LastCount(history: seq<Entry>, term: Text, p: Path): Option<nat> {
    if history == [] then None
    else
      var last := history[|history| - 1];
      if last.path == p && term in Tokens(last.content) then Some(multiset(Tokens(last.content))[term])
      else LastCount(history[..|history| - 1], term, p)
  }

  ghost function LastContent(history: seq<Entry>, p: Path): Option<Text> {
    if history == [] then None
    else if history[|history| - 1].path == p then Some(history[|history| - 1].content)
    else LastContent(history[..|history| - 1], p)
  }

  datatype Index = Index(files: map<Path, ParsedFile>, contents: map<Path, Text>, table: Table, inverted: Postings,
                         lengths: map<Path, int>)
  {
    predicate NeedsIndexing(p: Path, content: Text) {
      p in files ==> files[p].checksum != Checksum(content)
    }

    /** Each file is recorded as the parser reads its content, with the checksum and token count of that content. */
    ghost predicate Current(parse: Parser) {
      && files.Keys == contents.Keys == lengths.Keys
      && forall p | p in files :: RecordedAs(parse, p, contents[p])
    }

    ghost predicate RecordedAs(parse: Parser, p: Path, content: Text)
      requires p in files && p in lengths
    {
      files[p] == parse(p, content).(checksum := Checksum(content)) && lengths[p] == |Tokens(content)|
    }

    ghost predicate PostingsMatch(history: seq<Entry>) {
      forall term, p :: PostingAt(inverted, term, p) == LastCount(history, term, p)
    }

    ghost predicate FromHistory(history: seq<Entry>) {
      forall p | p in contents :: LastContent(history, p) == Some(contents[p])
    }

    ghost predicate Consistent(parse: Parser, history: seq<Entry>) {
      Current(parse) && AllAgree(table, files) && PostingsMatch(history) && FromHistory(history)
    }

    /** A one-byte substitution is never mistaken for the indexed content. */
    lemma SubstitutionIsNoticed(parse: Parser, p: Path, content: Text, i: nat)
      requires p in files && p in contents && p in lengths
      requires AreBytes(contents[p]) && AreBytes(content) && DifferAt(contents[p], content, i)
      ensures Current(parse) ==> NeedsIndexing(p, content)
    {
      hide Checksum, Tokens;
      if Current(parse) {
        assert RecordedAs(parse, p, contents[p]);
      }
      OneByteChangesChecksum(contents[p], content, i);
    }

    /** A new path is always indexed, and an indexed content that comes again never. */
    lemma SameContentIsSkipped(parse: Parser, p: Path, content: Text)
      requires Current(parse)
      ensures p !in files ==> NeedsIndexing(p, content)
      ensures p in contents && contents[p] == content ==> !NeedsIndexing(p, content)
    {
      hide Checksum, Tokens;
      if p in files {
        assert RecordedAs(parse, p, contents[p]);
      }
    }

    /** Every indexed file has, for each term of its content, a posting with the exact number of occurrences. */
    lemma PostingsComplete(history: seq<Entry>, p: Path, term: Text)
      requires PostingsMatch(history) && FromHistory(history) && p in contents && term in Tokens(contents[p])
      ensures PostingAt(inverted, term, p) == Some(multiset(Tokens(contents[p]))[term])
    {
      LastCountOfContent(history, term, p);
    }

    /** A file turns up for a term exactly when some content since the last clearing held the term under
        that path, whether or not the file is still indexed with it. */
    lemma PostingsOutlive(history: seq<Entry>, p: Path, term: Text)
      requires PostingsMatch(history)
      ensures PostingAt(inverted, term, p).Some? <==>
              exists i :: 0 <= i < |history| && history[i].path == p && term in Tokens(history[i].content)
    {
      LastCountExists(history, term, p);
    }
  }

  /** Removing a file leaves its postings: a search for one of its terms goes on finding it. */
  lemma RemovedFileStaysPosted(history: seq<Entry>, before: Index, after: Index, p: Path, term: Text)
    requires before.PostingsMatch(history) && before.FromHistory(history) && p in before.contents
    requires term in Tokens(before.contents[p]) && after.inverted == before.inverted && p !in after.contents
    ensures Mentioned(after.inverted, [term], p)
  {
    before.PostingsComplete(history, p, term);
    assert [term][0] == term;
  }

  lemma {:induction false} LastCountOfContent(history: seq<Entry>, term: Text, p: Path)
    requires LastContent(history, p).Some? && term in Tokens(LastContent(history, p).value)
    ensures LastCount(history, term, p) == Some(multiset(Tokens(LastContent(history, p).value))[term])
  {
    if history[|history| - 1].path == p {
    } else {
      LastCountOfContent(history[..|history| - 1], term, p);
    }
  }

  lemma {:induction false} LastCountExists(history: seq<Entry>, term: Text, p: Path)
    ensures LastCount(history, term, p).Some? <==>
            exists i :: 0 <= i < |history| && history[i].path == p && term in Tokens(history[i].content)
  {
    hide Tokens;
    if history == [] {
    } else {
      var most := history[..|history| - 1];
      LastCountExists(most, term, p);
      assert forall i | 0 <= i < |most| :: history[i] == most[i];
    }
  }

  // ---- searching

  /** The files in the order of their scores, with exactly those that have one. */
  ghost predicate IsLexicalRanking(ranked: seq<Path>, inv: Postings, tokens: seq<Text>, bm25: Ranking) {
    && Distinct(ranked)
    && (forall p :: p in ranked <==> Mentioned(inv, tokens, p))
    && (forall i, j | 0 <= i < j < |ranked| ::
          LexicalScore(inv, tokens, bm25, ranked[i]) >= LexicalScore(inv, tokens, bm25, ranked[j]))
  }

  ghost predicate IsSymbolRanking(ranked: seq<Path>, files: map<Path, ParsedFile>, tokens: seq<Text>) {
    && Distinct(ranked)
    && (forall p :: p in ranked <==> SymbolScore(SymbolsOf(files, p), tokens) > 0.0)
    && (forall i, j | 0 <= i < j < |ranked| ::
          SymbolScore(SymbolsOf(files, ranked[i]), tokens) >= SymbolScore(SymbolsOf(files, ranked[j]), tokens))
  }

  lemma RanksLexically(ranked: seq<Path>, scores: map<Path, real>, inv: Postings, tokens: seq<Text>, bm25: Ranking)
    requires Ranks(ranked, scores) && ScoredLexically(scores, inv, tokens, bm25)
    ensures IsLexicalRanking(ranked, inv, tokens, bm25)
  {
    hide LexicalScore, Mentioned;
    assert forall i | 0 <= i < |ranked| :: ranked[i] in scores;
  }

  lemma RanksSymbols(ranked: seq<Path>, scores: map<Path, real>, files: map<Path, ParsedFile>, tokens: seq<Text>)
    requires Ranks(ranked, scores) && Scored(scores, files, tokens) && Positive(scores)
    ensures IsSymbolRanking(ranked, files, tokens)
  {
    hide SymbolScore, SymbolsOf;
    assert forall i | 0 <= i < |ranked| :: ranked[i] in scores;
  }

  /** A returned file: its fused score, and the beginning of its content, empty if it is no longer indexed. */
  datatype SearchResult = SearchResult(path: Path, score: real, snippet: Text)

  function PathsOf(results: seq<SearchResult>): (paths: seq<Path>)
    ensures |paths| == |results| && forall i | 0 <= i < |results| :: paths[i] == results[i].path
  {
    seq(|results|, i requires 0 <= i < |results| => results[i].path)
  }

  function Snippet(contents: map<Path, Text>, p: Path): Text {
    if p !in contents then [] else if |contents[p]| < 200 then contents[p] else contents[p][..200]
  }

  /** The snippet is the beginning of the content, at most two hundred bytes of it and all of a shorter one. */
  lemma SnippetIsBeginning(contents: map<Path, Text>, p: Path)
    ensures p in contents ==> Snippet(contents, p) <= contents[p] && |Snippet(contents, p)| <= 200
    ensures p in contents && |Snippet(contents, p)| < 200 ==> Snippet(contents, p) == contents[p]
    ensures p !in contents ==> Snippet(contents, p) == []
  {
  }

  /** The paths under which anything has been indexed since the last clearing. */
  ghost function PathsIn(history: seq<Entry>): set<Path> {
    set i | 0 <= i < |history| :: history[i].path
  }

  lemma {:induction false} LastContentExists(history: seq<Entry>, p: Path)
    requires LastContent(history, p).Some?
    ensures p in PathsIn(history)
  {
    if history[|history| - 1].path == p {
    } else {
      LastContentExists(history[..|history| - 1], p);
    }
  }

  /** A ranking holds only files that have been indexed since the last clearing. */
  lemma RankedWithinHistory(history: seq<Entry>, index: Index, lexical: seq<Path>, symbol: seq<Path>, tokens: seq<Text>,
                            bm25: Ranking, p: Path)
    requires index.PostingsMatch(history) && index.FromHistory(history) && index.files.Keys == index.contents.Keys
    requires IsLexicalRanking(lexical, index.inverted, tokens, bm25) && IsSymbolRanking(symbol, index.files, tokens)
    requires p in lexical || p in symbol
    ensures p in PathsIn(history)
  {
    hide PostingAt, LexicalScore, Tokens;
    if p in lexical {
      assert Mentioned(index.inverted, tokens, p);
      var i :| 0 <= i < |tokens| && PostingAt(index.inverted, tokens[i], p).Some?;
      index.PostingsOutlive(history, p, tokens[i]);
    } else {
      NoSymbolsNoScore(tokens);
      assert p in index.files;
      LastContentExists(history, p);
    }
  }

  lemma {:induction false} NoSymbolsNoScore(tokens: seq<Text>)
    ensures SymbolScore([], tokens) == 0.0
  {
    if tokens == [] {
    } else {
      NoSymbolsNoScore(tokens[..|tokens| - 1]);
    }
  }

  // ---- what indexing and removing a file keep

  /** The table once a file's old entries are gone. */
  ghost predicate Cleared(before: Table, t: Table, files: map<Path, ParsedFile>, p: Path) {
    if p in files then Purged(before, t, p, files[p].symbols) else t == before
  }

  /** The file's old entries are gone, its new symbols stand at the end of their lists, in order, and all other
      entries are in place. */
  ghost predicate Replaced(before: Table, t: Table, p: Path, symbols: seq<Symbol>) {
    forall n :: ListAt(t, n) == Keep(ListAt(before, n), NotOfFile(p)) + Keep(symbols, Named(n))
  }

  lemma ClearedAgrees(before: Table, t: Table, files: map<Path, ParsedFile>, p: Path)
    requires AllAgree(before, files) && Cleared(before, t, files, p)
    ensures AllAgree(t, files - {p})
    ensures Replaced(before, t, p, [])
  {
    hide Agrees, Purged, Keep;
    assert Agrees(before, p, SymbolsOf(files, p));
    if p in files {
      PurgedAgrees(before, t, p, files[p].symbols);
    } else {
      NothingToPurge(before, p);
    }
    forall q
      ensures Agrees(t, q, SymbolsOf(files - {p}, q))
    {
      assert Agrees(before, q, SymbolsOf(files, q));
    }
    NoSymbols();
  }

  lemma NothingToPurge(t: Table, p: Path)
    requires Agrees(t, p, [])
    ensures forall n :: ListAt(t, n) == Keep(ListAt(t, n), NotOfFile(p))
  {
    hide Keep;
    NoSymbols();
    forall n
      ensures ListAt(t, n) == Keep(ListAt(t, n), NotOfFile(p))
    {
      assert Keep(ListAt(t, n), OfFile(p)) == Keep([], Named(n));
      KeepNone(ListAt(t, n), p);
    }
  }

  lemma PushedAllAgree(before: Table, t: Table, files: map<Path, ParsedFile>, p: Path, parsed: ParsedFile)
    requires AllAgree(before, files - {p}) && Pushed(before, t, parsed.symbols)
    requires forall i | 0 <= i < |parsed.symbols| :: parsed.symbols[i].file == p
    ensures AllAgree(t, files[p := parsed])
  {
    hide Agrees, Pushed;
    assert Agrees(before, p, SymbolsOf(files - {p}, p));
    PushedAgrees(before, t, p, parsed.symbols);
    var files' := files[p := parsed];
    forall q
      ensures Agrees(t, q, SymbolsOf(files', q))
    {
      assert Agrees(before, q, SymbolsOf(files - {p}, q));
    }
  }

  lemma ReplacedByPushing(before: Table, purged: Table, t: Table, p: Path, symbols: seq<Symbol>)
    requires Replaced(before, purged, p, []) && Pushed(purged, t, symbols)
    ensures Replaced(before, t, p, symbols)
  {
    hide Keep;
    NoSymbols();
    forall n
      ensures ListAt(t, n) == Keep(ListAt(before, n), NotOfFile(p)) + Keep(symbols, Named(n))
    {
      assert Keep(ListAt(before, n), NotOfFile(p)) + [] == Keep(ListAt(before, n), NotOfFile(p));
    }
  }

  lemma PostedMatches(history: seq<Entry>, before: Index, after: Index, p: Path, content: Text)
    requires before.PostingsMatch(history) && Posted(before.inverted, after.inverted, p, Tokens(content))
    ensures after.PostingsMatch(history + [Entry(p, content)])
  {
    hide PostingAt, Tokens;
    var history' := history + [Entry(p, content)];
    assert history'[..|history|] == history;
    forall term, q
      ensures PostingAt(after.inverted, term, q) == LastCount(history', term, q)
    {
      assert PostingAt(before.inverted, term, q) == LastCount(history, term, q);
    }
  }

  lemma IndexedFromHistory(history: seq<Entry>, before: Index, after: Index, p: Path, content: Text)
    requires before.FromHistory(history) && after.contents == before.contents[p := content]
    ensures after.FromHistory(history + [Entry(p, content)])
  {
    assert (history + [Entry(p, content)])[..|history|] == history;
  }

  lemma IndexedStays(parse: Parser, history: seq<Entry>, before: Index, purged: Table, after: Index, p: Path, content: Text)
    requires Stamps(parse) && before.Consistent(parse, history) && Cleared(before.table, purged, before.files, p)
    requires Pushed(purged, after.table, parse(p, content).symbols)
    requires Posted(before.inverted, after.inverted, p, Tokens(content))
    requires after.files == before.files[p := parse(p, content).(checksum := Checksum(content))]
    requires after.contents == before.contents[p := content]
    requires after.lengths == before.lengths[p := |Tokens(content)|]
    ensures after.Consistent(parse, history + [Entry(p, content)])
    ensures Replaced(before.table, after.table, p, parse(p, content).symbols)
  {
    hide AllAgree, Index.PostingsMatch, Index.FromHistory, Cleared, Pushed, Posted, Checksum, Tokens, Replaced;
    ClearedAgrees(before.table, purged, before.files, p);
    ReplacedByPushing(before.table, purged, after.table, p, parse(p, content).symbols);
    PushedAllAgree(purged, after.table, before.files, p, after.files[p]);
    PostedMatches(history, before, after, p, content);
    IndexedFromHistory(history, before, after, p, content);
    forall q | q in after.files
      ensures after.RecordedAs(parse, q, after.contents[q])
    {
      if q != p {
        assert before.RecordedAs(parse, q, before.contents[q]);
      }
    }
  }

  lemma RemovedStays(parse: Parser, history: seq<Entry>, before: Index, after: Index, p: Path)
    requires before.Consistent(parse, history) && Cleared(before.table, after.table, before.files, p)
    requires after.files == before.files - {p} && after.contents == before.contents - {p}
    requires after.lengths == before.lengths - {p} && after.inverted == before.inverted
    ensures after.Consistent(parse, history)
    ensures Replaced(before.table, after.table, p, [])
  {
    hide AllAgree, Cleared, Replaced, Checksum, Tokens, PostingAt, LastCount;
    ClearedAgrees(before.table, after.table, before.files, p);
    forall q | q in after.files
      ensures after.RecordedAs(parse, q, after.contents[q])
    {
      assert before.RecordedAs(parse, q, before.contents[q]);
    }
  }

  // ---- looking symbols up

  predicate Matches(exact: bool, name: Text, target: Text) {
    if exact then name == target else Contains(name, target)
  }

  /** Part of the name is the same up to the case of letters. */
  predicate ContainsUpToCase(name: Text, part: Text) {
    exists i :: 0 <= i <= |name| && SameAt(name, part, i)
  }

  predicate SameAt(name: Text, part: Text, i: nat) {
    i + |part| <= |name| && SameUpToCase(name[i..i + |part|], part)
  }

  lemma FoundUpToCase(target: Text)
    ensures forall name :: Matches(true, Lower(name), Lower(target)) <==> SameUpToCase(name, target)
    ensures forall name :: Matches(false, Lower(name), Lower(target)) <==> ContainsUpToCase(name, target)
  {
    hide Lower, SameUpToCase, ContainsUpToCase, Contains;
    forall name
      ensures Lower(name) == Lower(target) <==> SameUpToCase(name, target)
      ensures Contains(Lower(name), Lower(target)) <==> ContainsUpToCase(name, target)
    {
      SameWhenFolded(name, target);
      ContainsWhenFolded(name, target);
    }
  }

  lemma ContainsWhenFolded(name: Text, part: Text)
    ensures Contains(Lower(name), Lower(part)) <==> ContainsUpToCase(name, part)
  {
    hide Lower, SameUpToCase;
    LowerLength(name);
    LowerLength(part);
    forall i | 0 <= i <= |name|
      ensures OccursAt(Lower(name), Lower(part), i) <==> SameAt(name, part, i)
    {
      if i + |part| <= |name| {
        LowerSlice(name, i, i + |part|);
        SameWhenFolded(name[i..i + |part|], part);
      }
    }
    if Contains(Lower(name), Lower(part)) {
      var i := Find(Lower(name), Lower(part), 0).value;
      assert OccursAt(Lower(name), Lower(part), i);
    }
    if i :| 0 <= i <= |name| && SameAt(name, part, i) {
      assert OccursAt(Lower(name), Lower(part), i);
    }
  }

  lemma ListedUnder(t: Table, files: map<Path, ParsedFile>, name: Text)
    requires AllAgree(t, files)
    ensures forall s :: multiset(ListAt(t, name))[s] ==
                        if Lower(s.name) == name then multiset(SymbolsOf(files, s.file))[s] else 0
  {
    hide Agrees, SymbolsOf, ListAt;
    forall s
      ensures multiset(ListAt(t, name))[s] == if Lower(s.name) == name then multiset(SymbolsOf(files, s.file))[s] else 0
    {
      assert Agrees(t, s.file, SymbolsOf(files, s.file));
      ListedExactly(t, SymbolsOf(files, s.file), name, s);
    }
  }

  /** The symbols under the matching names outside `rest` have been collected. */
  ghost predicate Collected(results: seq<Symbol>, t: Table, files: map<Path, ParsedFile>, target: Text, rest: set<Text>) {
    forall s :: multiset(results)[s] ==
                if Contains(Lower(s.name), target) && Lower(s.name) in t && Lower(s.name) !in rest
                then multiset(SymbolsOf(files, s.file))[s] else 0
  }

  lemma CollectStep(results: seq<Symbol>, t: Table, files: map<Path, ParsedFile>, target: Text, rest: set<Text>, n: Text)
    requires AllAgree(t, files) && Collected(results, t, files, target, rest) && n in rest && n in t
    ensures Collected(if Contains(n, target) then results + t[n] else results, t, files, target, rest - {n})
  {
    hide AllAgree, Contains, SymbolsOf;
    ListedUnder(t, files, n);
  }

  lemma CollectedAll(results: seq<Symbol>, t: Table, files: map<Path, ParsedFile>, target: Text)
    requires AllAgree(t, files) && Collected(results, t, files, target, {})
    ensures forall s :: multiset(results)[s] ==
                        if Contains(Lower(s.name), target) then multiset(SymbolsOf(files, s.file))[s] else 0
  {
    hide AllAgree, Contains, SymbolsOf;
    forall s
      ensures multiset(results)[s] ==
              if Contains(Lower(s.name), target) then multiset(SymbolsOf(files, s.file))[s] else 0
    {
      ListedUnder(t, files, Lower(s.name));
    }
  }

  ghost predicate Shares(query: seq<Text>, tokens: seq<Text>) {
    exists i :: 0 <= i < |query| && query[i] in tokens
  }

  lemma SharedIsMentioned(history: seq<Entry>, index: Index, tokens: seq<Text>, p: Path)
    requires index.PostingsMatch(history) && index.FromHistory(history) && p in index.contents
    requires Shares(tokens, Tokens(index.contents[p]))
    ensures Mentioned(index.inverted, tokens, p)
  {
    hide PostingAt, Tokens;
    var i :| 0 <= i < |tokens| && tokens[i] in Tokens(index.contents[p]);
    index.PostingsComplete(history, p, tokens[i]);
  }

  /** With room for every path indexed since the last clearing, an indexed file that holds a query token is
      among the results. */
  lemma SharedAreFound(history: seq<Entry>, index: Index, lexical: seq<Path>, symbol: seq<Path>, topK: nat,
                       results: seq<Path>, tokens: seq<Text>, bm25: Ranking, p: Path)
    requires index.PostingsMatch(history) && index.FromHistory(history) && index.files.Keys == index.contents.Keys
    requires IsFusedResult(lexical, symbol, topK, results) && topK >= |PathsIn(history)|
    requires IsLexicalRanking(lexical, index.inverted, tokens, bm25) && IsSymbolRanking(symbol, index.files, tokens)
    requires p in index.files && Shares(tokens, Tokens(index.contents[p]))
    ensures p in results
  {
    hide Shares, Score, LexicalScore, SymbolScore, Mentioned, Index.PostingsMatch, Index.FromHistory, Tokens, PathsIn,
         IsLexicalRanking, IsSymbolRanking;
    SharedIsMentioned(history, index, tokens, p);
    assert p in lexical by {
      InLexicalRanking(lexical, index.inverted, tokens, bm25, p);
    }
    if p !in results {
      forall i | 0 <= i < |results|
        ensures results[i] in PathsIn(history) - {p}
      {
        assert results[i] in results;
        RankedWithinHistory(history, index, lexical, symbol, tokens, bm25, results[i]);
      }
      RankedWithinHistory(history, index, lexical, symbol, tokens, bm25, p);
      DistinctWithin(results, PathsIn(history) - {p});
    }
  }

  lemma InLexicalRanking(lexical: seq<Path>, inv: Postings, tokens: seq<Text>, bm25: Ranking, p: Path)
    requires IsLexicalRanking(lexical, inv, tokens, bm25)
    ensures p in lexical <==> Mentioned(inv, tokens, p)
  {
  }

  class RepositoryIndex {
    const parse: Parser
    var files: map<Path, ParsedFile>
    var fileContents: map<Path, Text>
    var symbolTable: Table
    var invertedIndex: Postings
    var fileDocLengths: map<Path, int>
    ghost var history: seq<Entry>

    ghost function View(): Index
      reads this
    {
      Index(files, fileContents, symbolTable, invertedIndex, fileDocLengths)
    }

    ghost predicate Valid()
      reads this
    {
      Stamps(parse) && View().Consistent(parse, history)
    }

    constructor (parse: Parser)
      requires Stamps(parse)
      ensures Valid() && this.parse == parse && View() == Index(map[], map[], map[], map[], map[]) && history == []
    {
      this.parse := parse;
      files, fileContents, symbolTable, invertedIndex, fileDocLengths := map[], map[], map[], map[], map[];
      history := [];
    }

    method IndexFile(p: Path, content: Text) returns (indexed: bool)
      requires Valid()
      modifies this
      ensures Valid()
      ensures indexed == old(View()).NeedsIndexing(p, content)
      ensures !indexed ==> View() == old(View()) && history == old(history)
      ensures indexed ==> fileContents == old(fileContents)[p := content]
      ensures indexed ==> Replaced(old(symbolTable), symbolTable, p, parse(p, content).symbols)
      ensures indexed ==> Posted(old(invertedIndex), invertedIndex, p, Tokens(content))
      ensures indexed ==> history == old(history) + [Entry(p, content)]
    {
      hide AllAgree, Index.Current, Index.PostingsMatch, Index.FromHistory, AreRuns, Tokens, Checksum, Purged, Pushed, Posted,
           Replaced;
      var checksum := ComputeChecksum(content);
      if p in files && files[p].checksum == checksum {
        return false;
      }
      ghost var before := View();
      if p in files {
        symbolTable := Purge(symbolTable, p, files[p].symbols);
      }
      var parsed := parse(p, content);
      parsed := parsed.(checksum := checksum);
      ghost var purged := symbolTable;
      symbolTable := Push(symbolTable, parsed.symbols);
      var tokens, runs := Tokenize(content);
      fileDocLengths := fileDocLengths[p := |tokens|];
      invertedIndex := PostTerms(invertedIndex, p, tokens);
      files := files[p := parsed];
      fileContents := fileContents[p := content];
      IndexedStays(parse, history, before, purged, View(), p, content);
      history := history + [Entry(p, content)];
      indexed := true;
    }

    method RemoveFile(p: Path)
      requires Valid()
      modifies this
      ensures Valid() && history == old(history)
      ensures fileContents == old(fileContents) - {p} && invertedIndex == old(invertedIndex)
      ensures Replaced(old(symbolTable), symbolTable, p, [])
    {
      hide AllAgree, Index.PostingsMatch, Index.FromHistory, Index.RecordedAs, Purged, Replaced, Tokens, Checksum, Stamps;
      if p !in files {
        assert fileContents - {p} == fileContents;
        ClearedAgrees(symbolTable, symbolTable, files, p);
        return;
      }
      ghost var before := View();
      symbolTable := Purge(symbolTable, p, files[p].symbols);
      files := files - {p};
      fileContents := fileContents - {p};
      fileDocLengths := fileDocLengths - {p};
      RemovedStays(parse, history, before, View(), p);
    }

    method Clear()
      requires Valid()
      modifies this
      ensures Valid() && View() == Index(map[], map[], map[], map[], map[]) && history == []
    {
      files, fileContents, symbolTable, invertedIndex, fileDocLengths := map[], map[], map[], map[], map[];
      history := [];
    }

    /** Finds a name, or every name it is part of, whatever the case of its letters: a permutation of the
        matching symbols of all indexed files. */
    method FindSymbol(name: Text, exact: bool) returns (results: seq<Symbol>)
      requires Valid()
      ensures forall s :: multiset(results)[s] ==
                if Matches(exact, Lower(s.name), Lower(name)) then multiset(SymbolsOf(files, s.file))[s] else 0
      ensures forall s :: multiset(results)[s] ==
                if (if exact then SameUpToCase(s.name, name) else ContainsUpToCase(s.name, name))
                then multiset(SymbolsOf(files, s.file))[s] else 0
    {
      hide Index.Current, Index.PostingsMatch, Index.FromHistory, AllAgree, SameUpToCase, ContainsUpToCase;
      FoundUpToCase(name);
      var target := Lower(name);
      results := [];
      if exact {
        if target in symbolTable {
          results := symbolTable[target];
        }
        ListedUnder(symbolTable, files, target);
      } else {
        var rest := symbolTable;
        while rest != map[]
          invariant forall n | n in rest :: n in symbolTable && rest[n] == symbolTable[n]
          invariant Collected(results, symbolTable, files, target, rest.Keys)
          decreases |rest|
        {
          var n :| n in rest;
          CollectStep(results, symbolTable, files, target, rest.Keys, n);
          if Contains(n, target) {
            results := results + rest[n];
          }
          rest := rest - {n};
        }
        CollectedAll(results, symbolTable, files, target);
      }
    }

    /** Searches with any ranking function for the postings. */
    method SearchCode(query: Text, topK: nat, bm25: Ranking)
      returns (results: seq<SearchResult>, ghost lexical: seq<Path>, ghost symbol: seq<Path>)
      requires Valid()
      ensures files == map[] ==> results == []
      ensures files != map[] ==> IsFusedResult(lexical, symbol, topK, PathsOf(results))
      ensures files != map[] ==> IsLexicalRanking(lexical, invertedIndex, Tokens(query), bm25)
      ensures files != map[] ==> IsSymbolRanking(symbol, files, Tokens(query))
      ensures forall i | 0 <= i < |results| ::
                && results[i].score == Score(lexical, symbol, results[i].path)
                && results[i].snippet == Snippet(fileContents, results[i].path)
      ensures forall p | p in files && Shares(Tokens(query), Tokens(fileContents[p])) && topK >= |PathsIn(history)| ::
                p in PathsOf(results)
    {
      hide IsFusedResult, Scored, ScoredLexically, Distinct, AllAgree, Index.PostingsMatch, Index.FromHistory,
           Index.RecordedAs, Tokens, Shares, Positive, LexicalScore, SymbolScore, Mentioned, SymbolsOf, Stamps, Score, PathsIn;
      if files == map[] {
        return [], [], [];
      }
      var tokens, runs := Tokenize(query);
      var bm25Scores := ScoreTerms(invertedIndex, tokens, bm25);
      var bm25Ranked := RankByScore(bm25Scores);
      RanksLexically(bm25Ranked, bm25Scores, invertedIndex, tokens, bm25);
      var symbolScores := ScoreSymbols(symbolTable, files, tokens);
      var symbolRanked := RankByScore(symbolScores);
      RanksSymbols(symbolRanked, symbolScores, files, tokens);
      lexical, symbol := bm25Ranked, symbolRanked;
      assert Distinct(lexical) && Distinct(symbol);
      var paths, scores := FuseAndRank(bm25Ranked, symbolRanked, topK);
      results := FormResults(paths, scores);
      assert PathsOf(results) == paths;
      forall p | p in files && Shares(tokens, Tokens(fileContents[p])) && topK >= |PathsIn(history)|
        ensures p in paths
      {
        SharedAreFound(history, View(), lexical, symbol, topK, paths, tokens, bm25, p);
      }
    }

    method FormResults(paths: seq<Path>, scores: map<Path, real>) returns (results: seq<SearchResult>)
      requires forall i | 0 <= i < |paths| :: paths[i] in scores
      ensures |results| == |paths|
      ensures forall i | 0 <= i < |paths| ::
                results[i] == SearchResult(paths[i], scores[paths[i]], Snippet(fileContents, paths[i]))
    {
      results := [];
      for i := 0 to |paths|
        invariant |results| == i
        invariant forall j | 0 <= j < i ::
                    results[j] == SearchResult(paths[j], scores[paths[j]], Snippet(fileContents, paths[j]))
      {
        var p := paths[i];
        var snippet := [];
        if p in fileContents {
          snippet := fileContents[p][..if |fileContents[p]| < 200 then |fileContents[p]| else 200];
        }
        results := results + [SearchResult(p, scores[p], snippet)];
      }
    }
  }
}
