/** Reciprocal rank fusion of a lexical and a symbol ranking, over the reals. Sorting leaves the order of
    equal scores open. */
module RankFusion {
  import opened Bytes
  import opened Sequences

  /** The ranking holds each scored file once, better scores first. */
  ghost predicate Ranks(ranked: seq<Path>, scores: map<Path, real>) {
    && (forall i, j | 0 <= i < j < |ranked| :: ranked[i] != ranked[j])
    && (forall p :: p in ranked <==> p in scores)
    && (forall i, j | 0 <= i < j < |ranked| :: scores[ranked[i]] >= scores[ranked[j]])
  }

  lemma {:induction false} BestExists(scores: map<Path, real>) returns (p: Path)
    requires scores != map[]
    ensures p in scores && forall q | q in scores :: scores[q] <= scores[p]
    decreases |scores|
  {
    var c :| c in scores;
    var rest := scores - {c};
    p := c;
    if rest == map[] {
    } else {
      var q := BestExists(rest);
      p := if scores[q] > scores[c] then q else c;
    }
    assert forall q | q in scores :: q == c || q in rest;
  }

  method RankByScore(scores: map<Path, real>) returns (ranked: seq<Path>)
    ensures Ranks(ranked, scores)
  {
    ranked := [];
    var rest := scores;
    while rest != map[]
      invariant forall i, j | 0 <= i < j < |ranked| :: ranked[i] != ranked[j]
      invariant forall p :: p in scores <==> p in ranked || p in rest
      invariant forall p | p in rest :: p !in ranked && rest[p] == scores[p]
      invariant forall i, j | 0 <= i < j < |ranked| :: scores[ranked[i]] >= scores[ranked[j]]
      invariant forall i, p | 0 <= i < |ranked| && p in rest :: scores[ranked[i]] >= rest[p]
      decreases |rest|
    {
      ghost var top := BestExists(rest);
      var best :| best in rest && forall q | q in rest :: rest[q] <= rest[best];
      ranked := ranked + [best];
      rest := rest - {best};
    }
  }

  // ---- fusion

  /** The position of a file in a ranking; a file that is absent comes after the last one. */
  function RankOf(ranked: seq<Path>, p: Path): (r: nat)
    ensures r <= |ranked| && (r < |ranked| <==> p in ranked)
    ensures r < |ranked| ==> ranked[r] == p
  {
    if ranked == [] then 0 else if ranked[0] == p then 0 else 1 + RankOf(ranked[1..], p)
  }

  function Reciprocal(weight: real, rank: nat): real {
    weight / (60.0 + rank as real + 1.0)
  }

  /** What one ranking contributes to a file's score. */
  function Share(weight: real, ranked: seq<Path>, p: Path): real {
    if p in ranked then Reciprocal(weight, RankOf(ranked, p)) else 0.0
  }

  /** The fused score; the symbol ranking counts half as much again. */
  function Score(lexical: seq<Path>, symbol: seq<Path>, p: Path): real {
    Share(1.0, lexical, p) + Share(1.5, symbol, p)
  }

  function ScoreAt(scores: map<Path, real>, p: Path): real {
    if p in scores then scores[p] else 0.0
  }

  method Fuse(lexical: seq<Path>, symbol: seq<Path>) returns (scores: map<Path, real>)
    requires Distinct(lexical) && Distinct(symbol)
    ensures forall p :: p in scores <==> p in lexical || p in symbol
    ensures forall p | p in scores :: scores[p] == Score(lexical, symbol, p)
  {
    scores := map[];
    for r := 0 to |lexical|
      invariant forall p :: p in scores <==> p in lexical[..r]
      invariant forall p | p in scores :: scores[p] == Share(1.0, lexical, p)
    {
      DistinctRank(lexical, r);
      assert lexical[..r + 1] == lexical[..r] + [lexical[r]];
      scores := scores[lexical[r] := ScoreAt(scores, lexical[r]) + 1.0 / (60.0 + r as real + 1.0)];
    }
    assert lexical[..|lexical|] == lexical;
    for r := 0 to |symbol|
      invariant forall p :: p in scores <==> p in lexical || p in symbol[..r]
      invariant forall p | p in scores ::
                  scores[p] == Share(1.0, lexical, p) + if p in symbol[..r] then Share(1.5, symbol, p) else 0.0
    {
      DistinctRank(symbol, r);
      assert symbol[..r + 1] == symbol[..r] + [symbol[r]];
      scores := scores[symbol[r] := ScoreAt(scores, symbol[r]) + 1.5 / (60.0 + r as real + 1.0)];
    }
    assert symbol[..|symbol|] == symbol;
  }

  lemma DistinctRank(ranked: seq<Path>, r: nat)
    requires Distinct(ranked) && r < |ranked|
    ensures RankOf(ranked, ranked[r]) == r && ranked[r] !in ranked[..r]
  {
    var s := RankOf(ranked, ranked[r]);
    assert ranked[s] == ranked[r];
  }

  lemma ReciprocalDecreases(weight: real, r: nat, s: nat)
    requires weight > 0.0
    ensures Reciprocal(weight, r) > 0.0
    ensures r < s ==> Reciprocal(weight, r) > Reciprocal(weight, s)
  {
    var x, y := 60.0 + r as real + 1.0, 60.0 + s as real + 1.0;
    if r < s {
      assert weight / x - weight / y == weight * (y - x) / (x * y);
    }
  }

  lemma ShareMonotone(weight: real, ranked: seq<Path>, a: Path, b: Path)
    requires weight > 0.0
    ensures RankOf(ranked, a) == RankOf(ranked, b) ==> Share(weight, ranked, a) == Share(weight, ranked, b)
    ensures RankOf(ranked, a) < RankOf(ranked, b) ==> Share(weight, ranked, a) > Share(weight, ranked, b)
  {
    ReciprocalDecreases(weight, RankOf(ranked, a), RankOf(ranked, b));
  }

  /** The fused score by places: the first place of the lexical ranking adds a sixty-first, that of the symbol
      ranking one and a half of it, and later places less in proportion. */
  lemma ScoreByPlaces(lexical: seq<Path>, symbol: seq<Path>, r: nat, q: nat)
    requires Distinct(lexical) && Distinct(symbol)
    ensures r < |lexical| && lexical[r] !in symbol ==> Score(lexical, symbol, lexical[r]) == 1.0 / (61 + r) as real
    ensures q < |symbol| && symbol[q] !in lexical ==> Score(lexical, symbol, symbol[q]) == 1.5 / (61 + q) as real
    ensures r < |lexical| && q < |symbol| && lexical[r] == symbol[q] ==>
              Score(lexical, symbol, lexical[r]) == 1.0 / (61 + r) as real + 1.5 / (61 + q) as real
  {
    if r < |lexical| {
      DistinctRank(lexical, r);
    }
    if q < |symbol| {
      DistinctRank(symbol, q);
    }
  }

  /** Better in one ranking and no worse in the other. */
  predicate Dominates(lexical: seq<Path>, symbol: seq<Path>, a: Path, b: Path) {
    && RankOf(lexical, a) <= RankOf(lexical, b) && RankOf(symbol, a) <= RankOf(symbol, b)
    && (RankOf(lexical, a) < RankOf(lexical, b) || RankOf(symbol, a) < RankOf(symbol, b))
  }

  /** Fusion respects dominance: the better file scores strictly higher. */
  lemma DominantScoresHigher(lexical: seq<Path>, symbol: seq<Path>, a: Path, b: Path)
    requires Dominates(lexical, symbol, a, b)
    ensures Score(lexical, symbol, a) > Score(lexical, symbol, b)
  {
    ShareMonotone(1.0, lexical, a, b);
    ShareMonotone(1.5, symbol, a, b);
  }

  /** What a search returns: the best-scoring files first, each once; a file left out scores no better
      than any returned one, and a dominating file always comes before the one it dominates. */
  ghost predicate IsFusedResult(lexical: seq<Path>, symbol: seq<Path>, topK: nat, results: seq<Path>) {
    && Distinct(results)
    && (forall p | p in results :: p in lexical || p in symbol)
    && (forall i, j | 0 <= i < j < |results| :: Score(lexical, symbol, results[i]) >= Score(lexical, symbol, results[j]))
    && (forall i, p | 0 <= i < |results| && (p in lexical || p in symbol) && p !in results ::
          Score(lexical, symbol, results[i]) >= Score(lexical, symbol, p))
    && |results| <= topK
    && (|results| < topK ==> forall p | p in lexical || p in symbol :: p in results)
  }

  lemma DominantComesFirst(lexical: seq<Path>, symbol: seq<Path>, topK: nat, results: seq<Path>, a: Path, b: Path)
    requires IsFusedResult(lexical, symbol, topK, results)
    requires Dominates(lexical, symbol, a, b) && b in results
    ensures a in results && RankOf(results, a) < RankOf(results, b)
  {
    hide Score, RankOf;
    DominantScoresHigher(lexical, symbol, a, b);
    assert RankOf(lexical, a) < |lexical| || RankOf(symbol, a) < |symbol|;
    var j := RankOf(results, b);
    assert results[j] == b;
    assert a in results;
    assert results[RankOf(results, a)] == a;
  }

  lemma TopIsFusedResult(lexical: seq<Path>, symbol: seq<Path>, scores: map<Path, real>, ranked: seq<Path>, topK: nat)
    requires forall p :: p in scores <==> p in lexical || p in symbol
    requires forall p | p in scores :: scores[p] == Score(lexical, symbol, p)
    requires Ranks(ranked, scores)
    ensures IsFusedResult(lexical, symbol, topK, ranked[..if topK < |ranked| then topK else |ranked|])
  {
    hide Score;
    var count := if topK < |ranked| then topK else |ranked|;
    var results := ranked[..count];
    assert forall i | 0 <= i < count :: ranked[i] in results;
    forall i, p | 0 <= i < count && (p in lexical || p in symbol) && p !in results
      ensures Score(lexical, symbol, results[i]) >= Score(lexical, symbol, p)
    {
      assert p in scores;
      var j :| 0 <= j < |ranked| && ranked[j] == p;
      assert j >= count;
      assert ranked[i] in scores;
    }
    forall i | 0 <= i < count
      ensures results[i] in scores && scores[results[i]] == Score(lexical, symbol, results[i])
    {
      assert ranked[i] in ranked;
    }
    if count == |ranked| {
      assert results == ranked;
    }
  }

  /** The paths of the best-ranked files, and the fused score of each. */
  method FuseAndRank(lexical: seq<Path>, symbol: seq<Path>, topK: nat) returns (results: seq<Path>, scores: map<Path, real>)
    requires Distinct(lexical) && Distinct(symbol)
    ensures IsFusedResult(lexical, symbol, topK, results)
    ensures forall i | 0 <= i < |results| :: results[i] in scores && scores[results[i]] == Score(lexical, symbol, results[i])
  {
    hide Score, IsFusedResult;
    scores := Fuse(lexical, symbol);
    var ranked := RankByScore(scores);
    TopIsFusedResult(lexical, symbol, scores, ranked, topK);
    var count := if topK < |ranked| then topK else |ranked|;
    results := ranked[..count];
    assert forall i | 0 <= i < count :: ranked[i] in ranked;
  }
}
