/** Cutting a source file into chunks at function boundaries or a size limit. Which lines start a definition is
    up to the caller. */
module CodeChunker {
  import opened Sequences

  type Definition = string -> bool

  predicate IsSpace(c: char) {
    || '\t' <= c <= '\r' || c == ' ' || c == '\U{0085}' || c == '\U{00A0}' || c == '\U{1680}'
    || '\U{2000}' <= c <= '\U{200A}' || c == '\U{2028}' || c == '\U{2029}' || c == '\U{202F}' || c == '\U{205F}'
    || c == '\U{3000}'
  }

  predicate Blank(s: string) {
    forall i | 0 <= i < |s| :: IsSpace(s[i])
  }

  // ---- lines

  function Split(s: string): (lines: seq<string>)
    ensures |lines| > 0
  {
    if FirstOf(s, '\n') == |s| then [s] else [s[..FirstOf(s, '\n')]] + Split(s[FirstOf(s, '\n') + 1..])
  }

  /** The lines from `a` up to `b`, each ended by a newline. */
  function Text(lines: seq<string>, a: nat, b: nat): string
    requires b <= |lines|
  {
    if b <= a then "" else Text(lines, a, b - 1) + lines[b - 1] + "\n"
  }

  lemma {:induction false} TextShift(first: string, lines: seq<string>, b: nat)
    requires b <= |lines|
    ensures Text([first] + lines, 0, b + 1) == first + "\n" + Text(lines, 0, b)
  {
    if b == 0 {
      assert Text([first] + lines, 0, 1) == "" + first + "\n";
    } else {
      TextShift(first, lines, b - 1);
      assert ([first] + lines)[b] == lines[b - 1];
    }
  }

  lemma SplitNext(s: string)
    ensures var i := FirstOf(s, '\n');
            if i == |s| then Split(s) == [s] else Split(s) == [s[..i]] + Split(s[i + 1..])
  {
  }

  /** Splitting loses nothing. */
  lemma {:induction false} SplitText(s: string)
    ensures Text(Split(s), 0, |Split(s)|) == s + "\n"
  {
    hide Split, FirstOf;
    SplitNext(s);
    var i := FirstOf(s, '\n');
    if i == |s| {
      assert Text([s], 0, 1) == "" + s + "\n";
    } else {
      CutAt(s, 0, i);
      SplitText(s[i + 1..]);
      TextShift(s[..i], Split(s[i + 1..]), |Split(s[i + 1..])|);
      Regroup(s[..i] + "\n", s[i + 1..], "\n");
    }
  }

  lemma TextNext(lines: seq<string>, a: nat, b: nat)
    requires a <= b <= |lines|
    ensures Text(lines, a, b) == if a == b then "" else Text(lines, a, b - 1) + lines[b - 1] + "\n"
  {
  }

  lemma {:induction false} TextJoins(lines: seq<string>, a: nat, b: nat, c: nat)
    requires a <= b <= c <= |lines|
    ensures Text(lines, a, b) + Text(lines, b, c) == Text(lines, a, c)
  {
    hide Text;
    TextNext(lines, b, c);
    if b == c {
      assert Text(lines, a, b) + "" == Text(lines, a, b);
    } else {
      TextNext(lines, a, c);
      TextJoins(lines, a, b, c - 1);
      Regroup(Text(lines, a, b), Text(lines, b, c - 1) + lines[c - 1], "\n");
      Regroup(Text(lines, a, b), Text(lines, b, c - 1), lines[c - 1]);
    }
  }

  // ---- where the text is cut

  function Count(s: string, c: char): nat {
    if s == "" then 0 else Count(s[..|s| - 1], c) + if s[|s| - 1] == c then 1 else 0
  }

  /** Opening less closing braces among the first n lines. */
  function Balance(lines: seq<string>, n: nat): int
    requires n <= |lines|
  {
    if n == 0 then 0 else Balance(lines, n - 1) + Count(lines[n - 1], '{') - Count(lines[n - 1], '}')
  }

  /** A definition has begun since the braces were last balanced. */
  predicate InFunction(lines: seq<string>, isDefinition: Definition, n: nat)
    requires n <= |lines|
  {
    n > 0 && (InFunction(lines, isDefinition, n - 1) || isDefinition(lines[n - 1])) && Balance(lines, n) != 0
  }

  /** The braces close at line n what a definition began. */
  predicate Boundary(lines: seq<string>, isDefinition: Definition, n: nat)
    requires 0 < n <= |lines|
  {
    (InFunction(lines, isDefinition, n - 1) || isDefinition(lines[n - 1])) && Balance(lines, n) == 0
  }

  /** A chunk that begins after line a is cut after line n. */
  predicate Cuts(lines: seq<string>, isDefinition: Definition, size: int, a: nat, n: nat)
    requires 0 < n <= |lines|
  {
    (Boundary(lines, isDefinition, n) || |Text(lines, a, n)| > size) && !Blank(Text(lines, a, n))
  }

  datatype Chunk = Chunk(content: string, startLine: int, endLine: nat, kind: string)

  /** The start line recorded for a chunk that holds the first n lines: the first line after line 1 that
      starts a definition, else line 1. */
  function FirstStart(lines: seq<string>, isDefinition: Definition, n: nat): (r: int)
    requires n <= |lines|
    ensures 1 <= r <= n || r == 1
  {
    if n == 0 then 1
    else
      var r := FirstStart(lines, isDefinition, n - 1);
      if r == 1 && isDefinition(lines[n - 1]) then n else r
  }

  function StartLine(lines: seq<string>, isDefinition: Definition, a: nat, n: nat): int
    requires n <= |lines|
  {
    if a == 0 then FirstStart(lines, isDefinition, n) else a + 1
  }

  function ChunkOf(lines: seq<string>, isDefinition: Definition, a: nat, n: nat): Chunk
    requires n <= |lines|
  {
    Chunk(Text(lines, a, n), StartLine(lines, isDefinition, a, n), n,
          if InFunction(lines, isDefinition, n) then "function" else "code_block")
  }

  function EndOf(chunks: seq<Chunk>): nat {
    if chunks == [] then 0 else chunks[|chunks| - 1].endLine
  }

  /** Each chunk runs from the end of the one before it to the first line that cuts it. */
  ghost predicate Chunked(lines: seq<string>, isDefinition: Definition, size: int, chunks: seq<Chunk>) {
    forall k | 0 <= k < |chunks| ::
      var a, n := EndOf(chunks[..k]), chunks[k].endLine;
      && a < n <= |lines| && chunks[k] == ChunkOf(lines, isDefinition, a, n)
      && Cuts(lines, isDefinition, size, a, n) && forall j | a < j < n :: !Cuts(lines, isDefinition, size, a, j)
  }

  /** What remains after the last cut is one more chunk, without a kind, unless it is blank. */
  ghost predicate Finished(lines: seq<string>, isDefinition: Definition, size: int, cut: seq<Chunk>, chunks: seq<Chunk>) {
    var a, n := EndOf(cut), |lines|;
    && Chunked(lines, isDefinition, size, cut) && a <= n
    && (forall j | a < j <= n :: !Cuts(lines, isDefinition, size, a, j))
    && chunks == if Blank(Text(lines, a, n)) then cut else cut + [ChunkOf(lines, isDefinition, a, n).(kind := "")]
  }

  method ChunkCodeFile(content: string, size: int, isDefinition: Definition)
    returns (chunks: seq<Chunk>, ghost cut: seq<Chunk>)
    ensures Blank(content) ==> chunks == []
    ensures !Blank(content) ==> Finished(Split(content), isDefinition, size, cut, chunks)
  {
    hide Chunked, Cuts, Text, Blank, Split, Boundary, InFunction, Balance, FirstStart;
    chunks, cut := [], [];
    if Blank(content) {
      return;
    }
    var lines := Split(content);
    var currentChunk, startLine, braceCount, inFunction := "", 1, 0, false;
    NoLines(lines, isDefinition, size);
    for i := 0 to |lines|
      invariant EndOf(chunks) <= i && Chunked(lines, isDefinition, size, chunks)
      invariant currentChunk == Text(lines, EndOf(chunks), i)
      invariant startLine == StartLine(lines, isDefinition, EndOf(chunks), i)
      invariant braceCount == Balance(lines, i) && inFunction == InFunction(lines, isDefinition, i)
      invariant forall j | EndOf(chunks) < j <= i :: !Cuts(lines, isDefinition, size, EndOf(chunks), j)
    {
      LineRead(lines, isDefinition, size, EndOf(chunks), i + 1);
      var line := lines[i];
      currentChunk := currentChunk + line + "\n";
      braceCount := braceCount + Count(line, '{') - Count(line, '}');
      if isDefinition(line) {
        inFunction := true;
        if startLine == 1 {
          startLine := i + 1;
        }
      }
      var shouldChunk := false;
      if inFunction && braceCount == 0 {
        shouldChunk := true;
        inFunction := false;
      } else if |currentChunk| > size {
        shouldChunk := true;
      }
      if shouldChunk && !Blank(currentChunk) {
        var chunk := Chunk(currentChunk, startLine, i + 1, if inFunction then "function" else "code_block");
        ChunkedPush(lines, isDefinition, size, chunks, i + 1);
        chunks := chunks + [chunk];
        currentChunk := "";
        startLine := i + 2;
      }
    }
    cut := chunks;
    if !Blank(currentChunk) {
      chunks := chunks + [Chunk(currentChunk, startLine, |lines|, "")];
    }
  }

  lemma NoLines(lines: seq<string>, isDefinition: Definition, size: int)
    ensures Chunked(lines, isDefinition, size, []) && Text(lines, 0, 0) == "" && FirstStart(lines, isDefinition, 0) == 1
    ensures Balance(lines, 0) == 0 && !InFunction(lines, isDefinition, 0)
  {
  }

  /** One line further. */
  lemma LineRead(lines: seq<string>, isDefinition: Definition, size: int, a: nat, n: nat)
    requires a < n <= |lines|
    ensures Text(lines, a, n) == Text(lines, a, n - 1) + lines[n - 1] + "\n" && Text(lines, n, n) == ""
    ensures Balance(lines, n) == Balance(lines, n - 1) + Count(lines[n - 1], '{') - Count(lines[n - 1], '}')
    ensures var began := InFunction(lines, isDefinition, n - 1) || isDefinition(lines[n - 1]);
            && InFunction(lines, isDefinition, n) == (began && Balance(lines, n) != 0)
            && (Cuts(lines, isDefinition, size, a, n) <==>
                ((began && Balance(lines, n) == 0) || |Text(lines, a, n)| > size) && !Blank(Text(lines, a, n)))
    ensures FirstStart(lines, isDefinition, n) ==
            if FirstStart(lines, isDefinition, n - 1) == 1 && isDefinition(lines[n - 1]) then n
            else FirstStart(lines, isDefinition, n - 1)
  {
    hide Blank, Count;
  }

  lemma ChunkedPush(lines: seq<string>, isDefinition: Definition, size: int, chunks: seq<Chunk>, n: nat)
    requires Chunked(lines, isDefinition, size, chunks) && EndOf(chunks) < n <= |lines|
    requires Cuts(lines, isDefinition, size, EndOf(chunks), n)
    requires forall j | EndOf(chunks) < j < n :: !Cuts(lines, isDefinition, size, EndOf(chunks), j)
    ensures Chunked(lines, isDefinition, size, chunks + [ChunkOf(lines, isDefinition, EndOf(chunks), n)])
  {
    hide Cuts, Text, InFunction, FirstStart;
    var next := chunks + [ChunkOf(lines, isDefinition, EndOf(chunks), n)];
    assert forall k | 0 <= k <= |chunks| :: next[..k] == chunks[..k];
    assert chunks[..|chunks|] == chunks;
  }

  // ---- what the chunks keep of the text

  function Contents(chunks: seq<Chunk>): string {
    if chunks == [] then "" else Contents(chunks[..|chunks| - 1]) + chunks[|chunks| - 1].content
  }

  lemma ChunkedMost(lines: seq<string>, isDefinition: Definition, size: int, chunks: seq<Chunk>)
    requires Chunked(lines, isDefinition, size, chunks) && chunks != []
    ensures Chunked(lines, isDefinition, size, chunks[..|chunks| - 1])
    ensures var a, n := EndOf(chunks[..|chunks| - 1]), EndOf(chunks);
            a < n <= |lines| && chunks[|chunks| - 1].content == Text(lines, a, n)
  {
    hide Cuts, Text, InFunction, FirstStart, EndOf;
    var most := chunks[..|chunks| - 1];
    assert forall k | 0 <= k < |most| :: most[..k] == chunks[..k];
    assert EndOf(chunks) == chunks[|chunks| - 1].endLine by {
      EndOfLast(chunks);
    }
  }

  lemma EndOfLast(chunks: seq<Chunk>)
    requires chunks != []
    ensures EndOf(chunks) == chunks[|chunks| - 1].endLine
  {
  }

  lemma {:induction false} ContentsAreText(lines: seq<string>, isDefinition: Definition, size: int, chunks: seq<Chunk>)
    requires Chunked(lines, isDefinition, size, chunks)
    ensures EndOf(chunks) <= |lines| && Contents(chunks) == Text(lines, 0, EndOf(chunks))
  {
    hide Chunked, Text, EndOf;
    if chunks == [] {
      NoLines(lines, isDefinition, size);
      NoChunks();
    } else {
      ChunkedMost(lines, isDefinition, size, chunks);
      ContentsAreText(lines, isDefinition, size, chunks[..|chunks| - 1]);
      TextJoins(lines, 0, EndOf(chunks[..|chunks| - 1]), EndOf(chunks));
    }
  }

  lemma NoChunks()
    ensures EndOf([]) == 0
  {
  }

  /** Nothing is lost: the contents of the chunks, and a blank tail, are the text and one newline. */
  lemma ContentIsKept(content: string, isDefinition: Definition, size: int, cut: seq<Chunk>, chunks: seq<Chunk>)
    requires Finished(Split(content), isDefinition, size, cut, chunks)
    ensures Contents(chunks) <= content + "\n"
    ensures Blank((content + "\n")[|Contents(chunks)|..])
  {
    hide Chunked, Cuts, InFunction, Text, Blank, Split;
    var lines := Split(content);
    var a, n := EndOf(cut), |lines|;
    ContentsAreText(lines, isDefinition, size, cut);
    SplitText(content);
    TextJoins(lines, 0, a, n);
    if Blank(Text(lines, a, n)) {
      assert (content + "\n")[|Contents(cut)|..] == Text(lines, a, n);
    } else {
      assert chunks[..|chunks| - 1] == cut;
      assert (content + "\n")[|Contents(chunks)|..] == "";
      NothingIsBlank();
    }
  }

  lemma NothingIsBlank()
    ensures Blank("")
  {
  }

  /** No chunk is blank, end lines increase, and a chunk without its last line is blank or within the limit. */
  lemma ChunksAreSmall(lines: seq<string>, isDefinition: Definition, size: int, cut: seq<Chunk>, chunks: seq<Chunk>, k: nat)
    requires Finished(lines, isDefinition, size, cut, chunks) && k < |chunks|
    ensures var a, n := EndOf(chunks[..k]), chunks[k].endLine;
            && a < n <= |lines| && chunks[k].content == Text(lines, a, n) && !Blank(chunks[k].content)
            && chunks[k].startLine == StartLine(lines, isDefinition, a, n)
            && (Blank(Text(lines, a, n - 1)) || |Text(lines, a, n - 1)| <= size)
  {
    hide InFunction, Blank, Text, Boundary, StartLine;
    var a, n := EndOf(chunks[..k]), chunks[k].endLine;
    assert chunks[..k] == cut[..k];
    if k < |cut| {
      assert chunks[k] == cut[k];
    } else {
      assert cut[..k] == cut;
    }
    BlankStart(lines, a);
    assert a < n;
    if a < n - 1 {
      assert !Cuts(lines, isDefinition, size, a, n - 1);
    }
  }

  lemma BlankStart(lines: seq<string>, a: nat)
    requires a <= |lines|
    ensures Text(lines, a, a) == "" && Blank("")
  {
  }

  /** The recorded start line of the first chunk is the line its content starts on exactly when no later line
      of the chunk starts a definition. */
  lemma {:induction false} FirstStartIsRight(lines: seq<string>, isDefinition: Definition, n: nat)
    requires n <= |lines|
    ensures FirstStart(lines, isDefinition, n) == 1 <==> forall i | 1 <= i < n :: !isDefinition(lines[i])
    ensures var r := FirstStart(lines, isDefinition, n);
            r != 1 ==> 1 < r <= n && isDefinition(lines[r - 1]) && forall i | 1 <= i < r - 1 :: !isDefinition(lines[i])
  {
    if n == 0 {
    } else {
      FirstStartIsRight(lines, isDefinition, n - 1);
    }
  }

  /** A chunk is labelled a function exactly when a definition is still open where it ends, so only if it was
      cut for its size; one that is cut because it closes a definition is labelled a code block. */
  lemma KindOfChunk(lines: seq<string>, isDefinition: Definition, size: int, chunks: seq<Chunk>, k: nat)
    requires Chunked(lines, isDefinition, size, chunks) && k < |chunks|
    ensures var n := chunks[k].endLine;
            && 0 < n <= |lines|
            && (chunks[k].kind == "function" <==> InFunction(lines, isDefinition, n))
            && (chunks[k].kind == "code_block" <==> !InFunction(lines, isDefinition, n))
            && (Boundary(lines, isDefinition, n) ==> chunks[k].kind == "code_block")
            && (chunks[k].kind == "function" ==> |chunks[k].content| > size)
  {
    hide Text, Blank, FirstStart, Balance;
    var a, n := EndOf(chunks[..k]), chunks[k].endLine;
    assert chunks[k] == ChunkOf(lines, isDefinition, a, n);
    assert Cuts(lines, isDefinition, size, a, n);
  }

  // ---- what a boundary is, in characters

  lemma SpacesAre(c: char)
    ensures IsSpace(c) <==>
              c in {'\t', '\n', '\U{000B}', '\U{000C}', '\r', ' ', '\U{0085}', '\U{00A0}', '\U{1680}', '\U{2000}',
                    '\U{2001}', '\U{2002}', '\U{2003}', '\U{2004}', '\U{2005}', '\U{2006}', '\U{2007}', '\U{2008}',
                    '\U{2009}', '\U{200A}', '\U{2028}', '\U{2029}', '\U{202F}', '\U{205F}', '\U{3000}'}
  {
  }

  /** Blank is what holds no character but white space. */
  lemma BlankIsWhite(s: string)
    ensures Blank(s) <==> forall c | c in s :: IsSpace(c)
  {
    hide IsSpace;
    assert forall i | 0 <= i < |s| :: s[i] in s;
  }

  lemma {:induction false} CountIsMultiplicity(s: string, c: char)
    ensures Count(s, c) == multiset(s)[c]
  {
    if s == "" {
    } else {
      CountIsMultiplicity(s[..|s| - 1], c);
      assert s == s[..|s| - 1] + [s[|s| - 1]];
    }
  }

  lemma LineAdds(text: string, line: string, c: char)
    requires c != '\n'
    ensures multiset(text + line + "\n")[c] == multiset(text)[c] + multiset(line)[c]
  {
  }

  /** Opening less closing braces. */
  ghost function Excess(text: string): int {
    multiset(text)['{'] as int - multiset(text)['}'] as int
  }

  /** The braces that are open after n lines are those of the text up to there. */
  lemma {:induction false} BalanceIsExcess(lines: seq<string>, n: nat)
    requires n <= |lines|
    ensures Balance(lines, n) == Excess(Text(lines, 0, n))
  {
    if n == 0 {
    } else {
      BalanceIsExcess(lines, n - 1);
      LineAdds(Text(lines, 0, n - 1), lines[n - 1], '{');
      LineAdds(Text(lines, 0, n - 1), lines[n - 1], '}');
      CountIsMultiplicity(lines[n - 1], '{');
      CountIsMultiplicity(lines[n - 1], '}');
    }
  }

  /** Line d starts a definition, and from there up to line n the braces are never balanced at a line's end. */
  ghost predicate OpenSince(lines: seq<string>, isDefinition: Definition, d: int, n: int) {
    && 0 < d <= |lines| && n <= |lines| && isDefinition(lines[d - 1])
    && forall j | d <= j <= n :: Excess(Text(lines, 0, j)) != 0
  }

  /** One of the first m lines has started a definition that is open after line n. */
  ghost predicate SomeOpen(lines: seq<string>, isDefinition: Definition, m: int, n: int) {
    exists d :: d <= m && OpenSince(lines, isDefinition, d, n)
  }

  /** A definition is open exactly when some line began one and the braces have not been balanced since. */
  lemma {:induction false} InFunctionSince(lines: seq<string>, isDefinition: Definition, n: nat)
    requires n <= |lines|
    ensures InFunction(lines, isDefinition, n) <==> SomeOpen(lines, isDefinition, n, n)
  {
    hide Text, Balance, Excess;
    if n == 0 {
    } else {
      InFunctionSince(lines, isDefinition, n - 1);
      BalanceIsExcess(lines, n);
      if InFunction(lines, isDefinition, n) {
        if InFunction(lines, isDefinition, n - 1) {
          var d :| d <= n - 1 && OpenSince(lines, isDefinition, d, n - 1);
          assert OpenSince(lines, isDefinition, d, n);
        } else {
          assert OpenSince(lines, isDefinition, n, n);
        }
      }
      if d :| d <= n && OpenSince(lines, isDefinition, d, n) {
        assert d < n ==> OpenSince(lines, isDefinition, d, n - 1);
      }
    }
  }

  /** A line closes a definition when some line up to it began one, the braces were not balanced in between and
      are so at its end. */
  ghost predicate ClosesDefinition(lines: seq<string>, isDefinition: Definition, n: int) {
    0 < n <= |lines| && Excess(Text(lines, 0, n)) == 0 && SomeOpen(lines, isDefinition, n, n - 1)
  }

  /** Every cut has one of two reasons, and a line with such a reason cuts: the text since the last cut is not
      blank, and it is longer than the limit or the line closes a definition. */
  lemma CutsWhen(lines: seq<string>, isDefinition: Definition, size: int, a: nat, n: nat)
    requires 0 < n <= |lines|
    ensures Cuts(lines, isDefinition, size, a, n) <==>
              !Blank(Text(lines, a, n)) && (|Text(lines, a, n)| > size || ClosesDefinition(lines, isDefinition, n))
  {
    hide Text, Balance, Blank, Excess;
    BalanceIsExcess(lines, n);
    InFunctionSince(lines, isDefinition, n - 1);
    if isDefinition(lines[n - 1]) {
      assert OpenSince(lines, isDefinition, n, n - 1);
    }
    if SomeOpen(lines, isDefinition, n, n - 1) {
      var d :| d <= n && OpenSince(lines, isDefinition, d, n - 1);
      assert d < n ==> SomeOpen(lines, isDefinition, n - 1, n - 1);
    }
  }

  /** The start lines: behind a cut the next line; for the first chunk the first later line that starts a
      definition, if it holds one. */
  lemma StartLines(lines: seq<string>, isDefinition: Definition, size: int, cut: seq<Chunk>, chunks: seq<Chunk>, k: nat)
    requires Finished(lines, isDefinition, size, cut, chunks) && k < |chunks|
    ensures k > 0 ==> chunks[k].startLine == chunks[k - 1].endLine + 1
    ensures var start, end := chunks[0].startLine, chunks[0].endLine;
            && 0 < end <= |lines| && (start == 1 || (1 < start <= end && isDefinition(lines[start - 1])))
            && forall i | 1 <= i < (if start == 1 then end else start - 1) :: !isDefinition(lines[i])
  {
    hide InFunction, Blank, Text, Boundary, FirstStart;
    ChunksAreSmall(lines, isDefinition, size, cut, chunks, 0);
    ChunksAreSmall(lines, isDefinition, size, cut, chunks, k);
    FirstStartIsRight(lines, isDefinition, chunks[0].endLine);
    if k > 0 {
      EndOfLast(chunks[..k]);
    }
  }
}
