/** The symbol table and the postings of the repository index as values. */
module SymbolTable {
  import opened Wrappers
  import opened Bytes
  import opened Sequences
  import opened Tokenizer

  datatype Symbol = Symbol(name: Text, file: Path, startLine: int, endLine: int, signature: string)

  datatype ParsedFile = ParsedFile(symbols: seq<Symbol>, lineCount: nat, checksum: Text)

  type Table = map<Text, seq<Symbol>>

  function ListAt(t: Table, name: Text): seq<Symbol> {
    if name in t then t[name] else []
  }

  datatype Test = OfFile(p: Path) | NotOfFile(p: Path) | Named(name: Text) {
    predicate Holds(s: Symbol) {
      match this
      case OfFile(p) => s.file == p
      case NotOfFile(p) => s.file != p
      case Named(name) => Lower(s.name) == name
    }
  }

  function Keep(list: seq<Symbol>, t: Test): seq<Symbol> {
    if list == [] then []
    else if t.Holds(list[|list| - 1]) then Keep(list[..|list| - 1], t) + [list[|list| - 1]]
    else Keep(list[..|list| - 1], t)
  }

  lemma KeepPush(list: seq<Symbol>, s: Symbol, t: Test)
    ensures Keep(list + [s], t) == if t.Holds(s) then Keep(list, t) + [s] else Keep(list, t)
  {
    assert (list + [s])[..|list|] == list;
  }

  /** What is kept is exactly what passes, in the same order. */
  lemma {:induction false} KeptInOrder(list: seq<Symbol>, t: Test) returns (at: seq<int>)
    ensures StandsAt(Keep(list, t), list, at) && ArePassing(at, list, (s: Symbol) => t.Holds(s))
  {
    if list == [] {
      at := [];
    } else {
      hide StandsAt, ArePassing, Test.Holds;
      var most, last := list[..|list| - 1], list[|list| - 1];
      at := KeptInOrder(most, t);
      assert most + [last] == list;
      StandsNext(Keep(most, t), most, at, last, (s: Symbol) => t.Holds(s));
      at := if t.Holds(last) then at + [|most|] else at;
    }
  }

  lemma {:induction false} KeepCount(list: seq<Symbol>, t: Test, s: Symbol)
    ensures multiset(Keep(list, t))[s] == if t.Holds(s) then multiset(list)[s] else 0
  {
    if list == [] {
    } else {
      KeepCount(list[..|list| - 1], t, s);
      assert list == list[..|list| - 1] + [list[|list| - 1]];
    }
  }

  lemma {:induction false} KeepOthers(list: seq<Symbol>, p: Path, q: Path)
    ensures Keep(Keep(list, NotOfFile(p)), OfFile(q)) == if p == q then [] else Keep(list, OfFile(q))
  {
    if list == [] {
    } else {
      var most, last := list[..|list| - 1], list[|list| - 1];
      KeepOthers(most, p, q);
      KeepPush(Keep(most, NotOfFile(p)), last, OfFile(q));
    }
  }

  // ---- the table against the files

  /** The table's entries for one file are, in order, that file's symbols under each name. */
  ghost predicate Agrees(t: Table, p: Path, symbols: seq<Symbol>) {
    forall n :: Keep(ListAt(t, n), OfFile(p)) == Keep(symbols, Named(n))
  }

  /** Under every name among the symbols `done`, the file's entries are erased and the others stay in place;
      under other names nothing changes. */
  ghost predicate Purged(before: Table, t: Table, p: Path, done: seq<Symbol>) {
    forall n :: ListAt(t, n) ==
                if Keep(done, Named(n)) == [] then ListAt(before, n) else Keep(ListAt(before, n), NotOfFile(p))
  }

  /** Each list is followed by the symbols of its name among `done`, in order. */
  ghost predicate Pushed(before: Table, t: Table, done: seq<Symbol>) {
    forall n :: ListAt(t, n) == ListAt(before, n) + Keep(done, Named(n))
  }

  lemma {:induction false} KeepTwice(list: seq<Symbol>, t: Test)
    ensures Keep(Keep(list, t), t) == Keep(list, t)
  {
    if list == [] {
    } else {
      var most, last := list[..|list| - 1], list[|list| - 1];
      KeepTwice(most, t);
      KeepPush(Keep(most, t), last, t);
    }
  }

  lemma {:induction false} KeepAppend(a: seq<Symbol>, b: seq<Symbol>, t: Test)
    ensures Keep(a + b, t) == Keep(a, t) + Keep(b, t)
  {
    if b == [] {
      assert a + b == a;
    } else {
      var most, last := b[..|b| - 1], b[|b| - 1];
      KeepAppend(a, most, t);
      KeepPush(a + most, last, t);
      assert (a + most) + [last] == a + b;
    }
  }

  /** Where no entry is the file's, erasing its entries changes nothing. */
  lemma {:induction false} KeepNone(list: seq<Symbol>, p: Path)
    requires Keep(list, OfFile(p)) == []
    ensures Keep(list, NotOfFile(p)) == list
  {
    if list == [] {
    } else {
      KeepNone(list[..|list| - 1], p);
      assert list == list[..|list| - 1] + [list[|list| - 1]];
    }
  }

  /** All symbols of one file, under one name, seen by file. */
  lemma {:induction false} KeepOfFile(symbols: seq<Symbol>, p: Path, n: Text, q: Path)
    requires forall i | 0 <= i < |symbols| :: symbols[i].file == p
    ensures Keep(Keep(symbols, Named(n)), OfFile(q)) == if q == p then Keep(symbols, Named(n)) else []
  {
    if symbols == [] {
    } else {
      var most, last := symbols[..|symbols| - 1], symbols[|symbols| - 1];
      KeepOfFile(most, p, n, q);
      KeepPush(Keep(most, Named(n)), last, OfFile(q));
    }
  }

  lemma PurgeStep(before: Table, t: Table, p: Path, done: seq<Symbol>, s: Symbol)
    requires Purged(before, t, p, done)
    ensures Purged(before, t[Lower(s.name) := Keep(ListAt(t, Lower(s.name)), NotOfFile(p))], p, done + [s])
  {
    hide Keep;
    forall n
      ensures Keep(done + [s], Named(n)) == [] <==> n != Lower(s.name) && Keep(done, Named(n)) == []
    {
      KeepPush(done, s, Named(n));
    }
    KeepTwice(ListAt(before, Lower(s.name)), NotOfFile(p));
  }

  lemma PushStep(before: Table, t: Table, done: seq<Symbol>, s: Symbol)
    requires Pushed(before, t, done)
    ensures Pushed(before, t[Lower(s.name) := ListAt(t, Lower(s.name)) + [s]], done + [s])
  {
    hide Keep;
    forall n
      ensures Keep(done + [s], Named(n)) == if n == Lower(s.name) then Keep(done, Named(n)) + [s] else Keep(done, Named(n))
    {
      KeepPush(done, s, Named(n));
    }
    Regroup(ListAt(before, Lower(s.name)), Keep(done, Named(Lower(s.name))), [s]);
  }

  method Purge(before: Table, p: Path, symbols: seq<Symbol>) returns (t: Table)
    ensures Purged(before, t, p, symbols)
  {
    hide Purged, Keep;
    t := before;
    PurgedNothing(before, p);
    for i := 0 to |symbols|
      invariant Purged(before, t, p, symbols[..i])
    {
      PurgeStep(before, t, p, symbols[..i], symbols[i]);
      assert symbols[..i + 1] == symbols[..i] + [symbols[i]];
      var lowerName := Lower(symbols[i].name);
      t := t[lowerName := Keep(ListAt(t, lowerName), NotOfFile(p))];
    }
    assert symbols[..|symbols|] == symbols;
  }

  lemma PurgedNothing(t: Table, p: Path)
    ensures Purged(t, t, p, []) && Pushed(t, t, [])
  {
  }

  method Push(before: Table, symbols: seq<Symbol>) returns (t: Table)
    ensures Pushed(before, t, symbols)
  {
    hide Pushed, Keep, Purged;
    t := before;
    PurgedNothing(before, "");
    for i := 0 to |symbols|
      invariant Pushed(before, t, symbols[..i])
    {
      PushStep(before, t, symbols[..i], symbols[i]);
      assert symbols[..i + 1] == symbols[..i] + [symbols[i]];
      var lowerName := Lower(symbols[i].name);
      t := t[lowerName := ListAt(t, lowerName) + [symbols[i]]];
    }
    assert symbols[..|symbols|] == symbols;
  }

  /** Purging leaves no entry of the file, everything of the others, and so each list as it was without it. */
  lemma PurgedAgrees(before: Table, t: Table, p: Path, symbols: seq<Symbol>)
    requires Purged(before, t, p, symbols) && Agrees(before, p, symbols)
    ensures Agrees(t, p, [])
    ensures forall q, syms | q != p && Agrees(before, q, syms) :: Agrees(t, q, syms)
    ensures forall n :: ListAt(t, n) == Keep(ListAt(before, n), NotOfFile(p))
  {
    hide Keep;
    forall n
      ensures ListAt(t, n) == Keep(ListAt(before, n), NotOfFile(p))
    {
      assert Keep(ListAt(before, n), OfFile(p)) == Keep(symbols, Named(n));
      if Keep(symbols, Named(n)) == [] {
        KeepNone(ListAt(before, n), p);
      }
    }
    forall n, q
      ensures Keep(ListAt(t, n), OfFile(q)) == if q == p then [] else Keep(ListAt(before, n), OfFile(q))
    {
      KeepOthers(ListAt(before, n), p, q);
    }
    NoSymbols();
  }

  lemma NoSymbols()
    ensures forall n :: Keep([], Named(n)) == []
  {
  }

  lemma PushedAgrees(before: Table, t: Table, p: Path, symbols: seq<Symbol>)
    requires Pushed(before, t, symbols) && Agrees(before, p, [])
    requires forall i | 0 <= i < |symbols| :: symbols[i].file == p
    ensures Agrees(t, p, symbols)
    ensures forall q, syms | q != p && Agrees(before, q, syms) :: Agrees(t, q, syms)
  {
    hide Keep;
    NoSymbols();
    forall n, q
      ensures Keep(ListAt(t, n), OfFile(q)) ==
              Keep(ListAt(before, n), OfFile(q)) + if q == p then Keep(symbols, Named(n)) else []
    {
      KeepAppend(ListAt(before, n), Keep(symbols, Named(n)), OfFile(q));
      KeepOfFile(symbols, p, n, q);
    }
    forall n
      ensures Keep(ListAt(t, n), OfFile(p)) == Keep(symbols, Named(n))
    {
      assert Keep(ListAt(before, n), OfFile(p)) == Keep([], Named(n));
    }
  }

  /** Under a name, the table lists a symbol exactly as often as its file's parse holds it. */
  lemma ListedExactly(t: Table, symbols: seq<Symbol>, name: Text, s: Symbol)
    requires Agrees(t, s.file, symbols)
    ensures multiset(ListAt(t, name))[s] == if Lower(s.name) == name then multiset(symbols)[s] else 0
  {
    KeepCount(ListAt(t, name), OfFile(s.file), s);
    KeepCount(symbols, Named(name), s);
  }

  // ---- postings

  type Postings = map<Text, map<Path, nat>>

  function PostingAt(inv: Postings, term: Text, p: Path): Option<nat> {
    if term in inv && p in inv[term] then Some(inv[term][p]) else None
  }

  function Post(inv: Postings, term: Text, p: Path, count: nat): Postings {
    inv[term := (if term in inv then inv[term] else map[])[p := count]]
  }

  /** After a file has been indexed: its terms have their exact counts; all other postings, and old
      postings of this file for terms it no longer holds, are as before. */
  ghost predicate Posted(before: Postings, inv: Postings, p: Path, tokens: seq<Text>) {
    && (forall term, q | q != p :: PostingAt(inv, term, q) == PostingAt(before, term, q))
    && (forall term :: PostingAt(inv, term, p) ==
                       if term in tokens then Some(multiset(tokens)[term]) else PostingAt(before, term, p))
  }

  method CountTerms(tokens: seq<Text>) returns (tf: map<Text, nat>)
    ensures forall t :: t in tf <==> t in tokens
    ensures forall t | t in tf :: tf[t] == multiset(tokens)[t]
  {
    tf := map[];
    for i := 0 to |tokens|
      invariant forall t :: t in tf <==> t in tokens[..i]
      invariant forall t | t in tf :: tf[t] == multiset(tokens[..i])[t]
    {
      assert tokens[..i + 1] == tokens[..i] + [tokens[i]];
      tf := tf[tokens[i] := (if tokens[i] in tf then tf[tokens[i]] else 0) + 1];
    }
    assert tokens[..|tokens|] == tokens;
  }

  /** The terms outside `rest` have been posted. */
  ghost predicate Posting(before: Postings, inv: Postings, p: Path, tf: map<Text, nat>, rest: map<Text, nat>) {
    && (forall term | term in rest :: term in tf && rest[term] == tf[term])
    && (forall term, q | q != p :: PostingAt(inv, term, q) == PostingAt(before, term, q))
    && (forall term :: PostingAt(inv, term, p) ==
                       if term in tf && term !in rest then Some(tf[term]) else PostingAt(before, term, p))
  }

  lemma PostedAt(inv: Postings, term: Text, p: Path, count: nat, t: Text, q: Path)
    ensures PostingAt(Post(inv, term, p, count), t, q) == if t == term && q == p then Some(count) else PostingAt(inv, t, q)
  {
  }

  lemma PostingStep(before: Postings, inv: Postings, p: Path, tf: map<Text, nat>, rest: map<Text, nat>, term: Text)
    requires Posting(before, inv, p, tf, rest) && term in rest
    ensures Posting(before, Post(inv, term, p, rest[term]), p, tf, rest - {term})
  {
    hide PostingAt, Post;
    forall t, q
      ensures PostingAt(Post(inv, term, p, rest[term]), t, q) ==
              if t == term && q == p then Some(rest[term]) else PostingAt(inv, t, q)
    {
      PostedAt(inv, term, p, rest[term], t, q);
    }
  }

  lemma PostingEnds(before: Postings, inv: Postings, p: Path, tf: map<Text, nat>, tokens: seq<Text>)
    requires forall t :: t in tf <==> t in tokens
    requires forall t | t in tf :: tf[t] == multiset(tokens)[t]
    ensures Posting(before, before, p, tf, tf)
    ensures Posting(before, inv, p, tf, map[]) ==> Posted(before, inv, p, tokens)
  {
    hide PostingAt;
  }

  method PostTerms(before: Postings, p: Path, tokens: seq<Text>) returns (inv: Postings)
    ensures Posted(before, inv, p, tokens)
  {
    hide Posted, Posting, PostingAt, Post;
    var tf := CountTerms(tokens);
    inv := before;
    var rest := tf;
    PostingEnds(before, inv, p, tf, tokens);
    while rest != map[]
      invariant Posting(before, inv, p, tf, rest)
      decreases |rest|
    {
      var term :| term in rest;
      PostingStep(before, inv, p, tf, rest, term);
      inv := Post(inv, term, p, rest[term]);
      rest := rest - {term};
    }
    PostingEnds(before, inv, p, tf, tokens);
  }
}
