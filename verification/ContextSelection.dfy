/** Which of a conversation's items go into a prompt, and which are evicted. Sorting leaves the order of
    items that compare equal open. */
module ContextSelection {
  import opened ContextItems

  /** For a prompt, pinned items come first, then the more relevant ones; for eviction the least relevant. */
  datatype Order = ForPrompt | ForEviction {
    predicate Before(a: ContextItem, b: ContextItem) {
      match this
      case ForPrompt => if a.pinned != b.pinned then a.pinned else a.relevance > b.relevance
      case ForEviction => a.relevance < b.relevance
    }
  }

  ghost predicate Lists(ranked: seq<ContextItem>, items: Items) {
    && (forall i | 0 <= i < |ranked| :: ranked[i].id in items && items[ranked[i].id] == ranked[i])
    && (forall i, j | 0 <= i < j < |ranked| :: ranked[i].id != ranked[j].id)
    && (forall id | id in items :: exists i :: 0 <= i < |ranked| && ranked[i].id == id)
  }

  /** Every item once, none standing behind one it should precede. */
  ghost predicate Ranks(ranked: seq<ContextItem>, items: Items, o: Order) {
    Lists(ranked, items) && forall i, j | 0 <= i < j < |ranked| :: !o.Before(ranked[j], ranked[i])
  }

  /** In a prompt's ranking no item stands behind an unpinned one while it is pinned, nor behind a less relevant
      one that is pinned as it is; for eviction relevance never falls along the ranking. */
  lemma RanksMean(ranked: seq<ContextItem>, items: Items, i: nat, j: nat)
    requires i < j < |ranked|
    ensures Ranks(ranked, items, ForPrompt) ==> ranked[j].pinned ==> ranked[i].pinned
    ensures Ranks(ranked, items, ForPrompt) && ranked[i].pinned == ranked[j].pinned ==>
              ranked[i].relevance >= ranked[j].relevance
    ensures Ranks(ranked, items, ForEviction) ==> ranked[i].relevance <= ranked[j].relevance
  {
    hide Lists;
  }

  lemma NotBefore(o: Order, a: ContextItem, b: ContextItem, c: ContextItem)
    ensures !o.Before(a, b) && !o.Before(b, c) ==> !o.Before(a, c)
    ensures o.Before(b, c) ==> !o.Before(c, b)
  {
  }

  lemma {:induction false} FirstExists(items: Items, o: Order) returns (id: string)
    requires items != map[]
    ensures id in items && forall other | other in items :: !o.Before(items[other], items[id])
    decreases |items|
  {
    var c :| c in items;
    var rest := items - {c};
    assert forall other | other in items :: other == c || other in rest;
    NotBefore(o, items[c], items[c], items[c]);
    id := c;
    if rest == map[] {
    } else {
      var best := FirstExists(rest, o);
      id := if o.Before(items[best], items[c]) then best else c;
      forall other | other in items
        ensures !o.Before(items[other], items[id])
      {
        if other in rest {
          NotBefore(o, items[other], items[best], items[c]);
        }
      }
    }
  }

  /** The ranking so far and what is still to be ranked. */
  ghost predicate Ranking(ranked: seq<ContextItem>, rest: Items, items: Items, o: Order) {
    && (forall id | id in rest :: id in items && rest[id] == items[id])
    && (forall i | 0 <= i < |ranked| :: ranked[i].id in items && items[ranked[i].id] == ranked[i] && ranked[i].id !in rest)
    && (forall i, j | 0 <= i < j < |ranked| :: ranked[i].id != ranked[j].id && !o.Before(ranked[j], ranked[i]))
    && (forall i, id | 0 <= i < |ranked| && id in rest :: !o.Before(rest[id], ranked[i]))
    && Covers(ranked, rest, items)
  }

  ghost predicate Covers(ranked: seq<ContextItem>, rest: Items, items: Items) {
    forall id | id in items && id !in rest :: exists i :: 0 <= i < |ranked| && ranked[i].id == id
  }

  lemma CoversNext(ranked: seq<ContextItem>, rest: Items, items: Items, item: ContextItem)
    requires Covers(ranked, rest, items)
    ensures Covers(ranked + [item], rest - {item.id}, items)
  {
    var next := ranked + [item];
    assert next[|ranked|].id == item.id;
    forall k | k in items && k !in rest && k != item.id
      ensures exists i :: 0 <= i < |next| && next[i].id == k
    {
      var i :| 0 <= i < |ranked| && ranked[i].id == k;
      assert next[i].id == k;
    }
  }

  lemma RankNext(ranked: seq<ContextItem>, rest: Items, items: Items, id: string, o: Order)
    requires Ranking(ranked, rest, items, o) && Measured(items)
    requires id in rest && forall other | other in rest :: !o.Before(rest[other], rest[id])
    ensures Ranking(ranked + [rest[id]], rest - {id}, items, o)
  {
    hide CountTokens, Order.Before, Covers;
    CoversNext(ranked, rest, items, rest[id]);
  }

  method RankItems(items: Items, o: Order) returns (ranked: seq<ContextItem>)
    requires Measured(items)
    ensures Ranks(ranked, items, o)
  {
    hide Ranking, Measured, Order.Before;
    ranked := [];
    var rest := items;
    RankNothing(items, o);
    while rest != map[]
      invariant Ranking(ranked, rest, items, o)
      decreases |rest|
    {
      ghost var first := FirstExists(rest, o);
      var id :| id in rest && forall other | other in rest :: !o.Before(rest[other], rest[id]);
      RankNext(ranked, rest, items, id, o);
      ranked := ranked + [rest[id]];
      rest := rest - {id};
    }
    RankedAll(ranked, items, o);
  }

  lemma RankNothing(items: Items, o: Order)
    ensures Ranking([], items, items, o)
  {
  }

  lemma RankedAll(ranked: seq<ContextItem>, items: Items, o: Order)
    requires Ranking(ranked, map[], items, o)
    ensures Ranks(ranked, items, o)
  {
  }

  // ---- greedy selection

  /** The tokens of the items within the limit among the first n. */
  function Used(ranked: seq<ContextItem>, n: nat, limit: int): int
    requires n <= |ranked|
  {
    if n == 0 then 0
    else
      var used := Used(ranked, n - 1, limit);
      if used + ranked[n - 1].tokenCount <= limit then used + ranked[n - 1].tokenCount else used
  }

  /** The item at position k fits beside those that were within the limit before it. */
  predicate Fits(ranked: seq<ContextItem>, k: nat, limit: int)
    requires k < |ranked|
  {
    Used(ranked, k, limit) + ranked[k].tokenCount <= limit
  }

  function Selected(ranked: seq<ContextItem>, n: nat, limit: int): seq<ContextItem>
    requires n <= |ranked|
  {
    if n == 0 then []
    else Selected(ranked, n - 1, limit) + (if Fits(ranked, n - 1, limit) || ranked[n - 1].pinned then [ranked[n - 1]] else [])
  }

  method Select(ranked: seq<ContextItem>, limit: nat) returns (selected: seq<ContextItem>)
    ensures selected == Selected(ranked, |ranked|, limit)
  {
    selected := [];
    var current := 0;
    for i := 0 to |ranked|
      invariant selected == Selected(ranked, i, limit) && current == Used(ranked, i, limit)
    {
      if current + ranked[i].tokenCount <= limit {
        selected := selected + [ranked[i]];
        current := current + ranked[i].tokenCount;
      } else if ranked[i].pinned {
        selected := selected + [ranked[i]];
      }
    }
  }

  function TokenSum(list: seq<ContextItem>): int {
    if list == [] then 0 else TokenSum(list[..|list| - 1]) + list[|list| - 1].tokenCount
  }

  /** The tokens of the pinned items that did not fit. */
  function Overrun(ranked: seq<ContextItem>, n: nat, limit: int): int
    requires n <= |ranked|
  {
    if n == 0 then 0
    else
      var over := !Fits(ranked, n - 1, limit) && ranked[n - 1].pinned;
      Overrun(ranked, n - 1, limit) + (if over then ranked[n - 1].tokenCount else 0)
  }

  lemma SumPush(list: seq<ContextItem>, item: ContextItem)
    ensures TokenSum(list + [item]) == TokenSum(list) + item.tokenCount
  {
    assert (list + [item])[..|list|] == list;
  }

  /** The selection exceeds the limit by no more than pinned items that did not fit. */
  lemma {:induction false} WithinLimit(ranked: seq<ContextItem>, n: nat, limit: nat)
    requires n <= |ranked|
    ensures Used(ranked, n, limit) <= limit
    ensures TokenSum(Selected(ranked, n, limit)) == Used(ranked, n, limit) + Overrun(ranked, n, limit)
  {
    hide TokenSum;
    if n == 0 {
      SumNothing();
    } else {
      WithinLimit(ranked, n - 1, limit);
      var most := Selected(ranked, n - 1, limit);
      SumPush(most, ranked[n - 1]);
      assert most + [] == most;
    }
  }

  lemma SumNothing()
    ensures TokenSum([]) == 0
  {
  }

  /** An item is selected exactly when it fits at its turn or is pinned. */
  lemma {:induction false} SelectedWhen(ranked: seq<ContextItem>, n: nat, limit: int, k: nat)
    requires k < n <= |ranked| && forall i, j | 0 <= i < j < |ranked| :: ranked[i].id != ranked[j].id
    ensures ranked[k] in Selected(ranked, n, limit) <==> Fits(ranked, k, limit) || ranked[k].pinned
  {
    hide Fits;
    SelectedFrom(ranked, n - 1, limit);
    var most, keep := Selected(ranked, n - 1, limit), Fits(ranked, n - 1, limit) || ranked[n - 1].pinned;
    assert Selected(ranked, n, limit) == most + (if keep then [ranked[n - 1]] else []);
    assert ranked[k] in Selected(ranked, n, limit) <==> ranked[k] in most || (keep && ranked[k] == ranked[n - 1]);
    if k < n - 1 {
      SelectedWhen(ranked, n - 1, limit, k);
      assert ranked[k].id != ranked[n - 1].id;
    } else {
      assert forall i | 0 <= i < n - 1 :: ranked[i].id != ranked[k].id;
    }
  }

  lemma {:induction false} SelectedFrom(ranked: seq<ContextItem>, n: nat, limit: int)
    requires n <= |ranked|
    ensures forall x | x in Selected(ranked, n, limit) :: exists i :: 0 <= i < n && ranked[i] == x
  {
    hide Fits;
    if n == 0 {
    } else {
      SelectedFrom(ranked, n - 1, limit);
    }
  }

  lemma {:induction false} UsedGrows(ranked: seq<ContextItem>, k: nat, n: nat, limit: int)
    requires k <= n <= |ranked| && forall i | 0 <= i < |ranked| :: ranked[i].tokenCount >= 0
    ensures Used(ranked, k, limit) <= Used(ranked, n, limit)
    decreases n
  {
    if k == n {
    } else {
      UsedGrows(ranked, k, n - 1, limit);
    }
  }

  /** No omitted item would still fit beside the finished selection, and an item that fits never displaced
      one ranked above it that is no larger. */
  lemma SelectionIsMaximal(ranked: seq<ContextItem>, limit: int, k: nat)
    requires k < |ranked| && forall i | 0 <= i < |ranked| :: ranked[i].tokenCount >= 0
    ensures !Fits(ranked, k, limit) ==> Used(ranked, |ranked|, limit) + ranked[k].tokenCount > limit
    ensures forall j | k < j < |ranked| && Fits(ranked, j, limit) && ranked[k].tokenCount <= ranked[j].tokenCount ::
              Fits(ranked, k, limit)
  {
    UsedGrows(ranked, k, |ranked|, limit);
    forall j | k < j < |ranked| && Fits(ranked, j, limit) && ranked[k].tokenCount <= ranked[j].tokenCount
      ensures Fits(ranked, k, limit)
    {
      UsedGrows(ranked, k, j, limit);
    }
  }

  /** Where no copy is pinned the whole selection is within the limit. */
  lemma {:induction false} NothingPinnedNothingOver(ranked: seq<ContextItem>, n: nat, limit: nat)
    requires n <= |ranked| && forall i | 0 <= i < |ranked| :: !ranked[i].pinned
    ensures Overrun(ranked, n, limit) == 0
  {
    if n == 0 {
    } else {
      NothingPinnedNothingOver(ranked, n - 1, limit);
    }
  }

  // ---- eviction

  /** The items of a table that are not pinned. */
  function Unpinned(items: Items): Items {
    map id | id in items && !items[id].pinned :: items[id]
  }

  lemma UnpinnedMeasured(items: Items)
    requires Measured(items)
    ensures Measured(Unpinned(items))
  {
  }

  /** At most nine tenths of the budget. */
  predicate LowEnough(tokens: int, budget: nat) {
    10 * tokens <= 9 * budget
  }

  lemma LowIsNineTenths(tokens: int, budget: nat)
    ensures LowEnough(tokens, budget) <==> tokens as real <= budget as real * 0.9
  {
  }

  function Ids(list: seq<ContextItem>): set<string> {
    set i | 0 <= i < |list| :: list[i].id
  }

  /** The tables without some of a conversation's items; the total of items is not adjusted. */
  function WithoutItems(t: Contexts, c: string, list: seq<ContextItem>): Contexts
    requires c in t.items && c in t.tokens
  {
    Contexts(t.items[c := t.items[c] - Ids(list)], t.all - Ids(list), t.tokens[c := t.tokens[c] - TokenSum(list)],
             t.totalTokens - TokenSum(list), t.totalItems)
  }

  function Drop(t: Contexts, c: string, item: ContextItem): Contexts
    requires c in t.items && c in t.tokens
  {
    Contexts(t.items[c := t.items[c] - {item.id}], t.all - {item.id}, t.tokens[c := t.tokens[c] - item.tokenCount],
             t.totalTokens - item.tokenCount, t.totalItems)
  }

  lemma WithoutPush(t: Contexts, c: string, list: seq<ContextItem>, item: ContextItem)
    requires c in t.items && c in t.tokens
    ensures Drop(WithoutItems(t, c, list), c, item) == WithoutItems(t, c, list + [item])
  {
    hide TokenSum, Ids;
    SumPush(list, item);
    IdsPush(list, item);
    MinusMinus(t.items[c], Ids(list), item.id);
    MinusMinus(t.all, Ids(list), item.id);
  }

  lemma MinusMinus(items: Items, ids: set<string>, id: string)
    ensures items - ids - {id} == items - (ids + {id})
  {
  }

  lemma IdsPush(list: seq<ContextItem>, item: ContextItem)
    ensures Ids(list + [item]) == Ids(list) + {item.id}
  {
    var next := list + [item];
    forall id
      ensures id in Ids(next) <==> id in Ids(list) + {item.id}
    {
      if id in Ids(list) {
        var i :| 0 <= i < |list| && list[i].id == id;
        assert next[i].id == id;
      }
      assert next[|list|].id == item.id;
    }
  }

  lemma WithoutNoItems(t: Contexts, c: string)
    requires c in t.items && c in t.tokens
    ensures WithoutItems(t, c, []) == t
  {
    assert Ids([]) == {};
    assert t.items[c] - {} == t.items[c] && t.all - {} == t.all;
    assert t.items[c := t.items[c]] == t.items && t.tokens[c := t.tokens[c]] == t.tokens;
  }

  lemma DropKeeps(t: Contexts, counter: nat, lostTokens: int, lostItems: int, c: string, item: ContextItem)
    requires t.Consistent(counter, lostTokens, lostItems) && c in t.items && item.id in t.items[c]
    requires t.items[c][item.id] == item
    ensures c in t.tokens && Drop(t, c, item).Consistent(counter, lostTokens, lostItems + 1)
  {
    hide Accounted, Unshared, Owned, AllIssued, Measured, Counts, Copies, Tokens;
    RemoveKeeps(t, counter, lostTokens, lostItems, c, item.id);
    ConversationOf(t, c);
    CopyCounts(t.items[c], t.all, item.id);
  }

  lemma CopyCounts(part: Items, all: Items, id: string)
    requires Copies(part, all) && id in part
    ensures id in all && all[id].tokenCount == part[id].tokenCount
  {
  }

  /** How many items of a ranking go, from position n on: as few as bring the counter down far enough. */
  function EvictionCount(ranking: seq<ContextItem>, n: nat, tokens: int, budget: nat): (r: nat)
    requires n <= |ranking|
    ensures n <= r <= |ranking|
    ensures forall k | n <= k < r :: !LowEnough(tokens - TokenSum(ranking[..k]), budget)
    ensures r == |ranking| || LowEnough(tokens - TokenSum(ranking[..r]), budget)
    decreases |ranking| - n
  {
    if n == |ranking| || LowEnough(tokens - TokenSum(ranking[..n]), budget) then n
    else EvictionCount(ranking, n + 1, tokens, budget)
  }

  /** The tables after an eviction in the order of a ranking. */
  function Evict(t: Contexts, c: string, ranking: seq<ContextItem>, budget: nat): Contexts {
    if c in t.items && c in t.tokens && t.tokens[c] > budget
    then WithoutItems(t, c, ranking[..EvictionCount(ranking, 0, t.tokens[c], budget)])
    else t
  }

  /** The item at a position of the ranking leaves the tables if and only if the counter is above budget and no
      removal before it has brought it down far enough. */
  lemma EvictedByRank(t: Contexts, c: string, ranking: seq<ContextItem>, budget: nat, k: nat)
    requires k < |ranking| && ranking[k].id in t.all && c in t.items && c in t.tokens
    requires forall i, j | 0 <= i < j < |ranking| :: ranking[i].id != ranking[j].id
    ensures ranking[k].id !in Evict(t, c, ranking, budget).all <==>
            t.tokens[c] > budget && forall i | 0 <= i <= k :: !LowEnough(t.tokens[c] - TokenSum(ranking[..i]), budget)
  {
    hide TokenSum, LowEnough;
    if t.tokens[c] > budget {
      var n := EvictionCount(ranking, 0, t.tokens[c], budget);
      IdOfPrefix(ranking, n, k);
    }
  }

  lemma IdOfPrefix(ranking: seq<ContextItem>, n: nat, k: nat)
    requires n <= |ranking| && k < |ranking|
    requires forall i, j | 0 <= i < j < |ranking| :: ranking[i].id != ranking[j].id
    ensures ranking[k].id in Ids(ranking[..n]) <==> k < n
  {
    if k < n {
      assert ranking[..n][k].id in Ids(ranking[..n]);
    }
  }

  /** What an eviction takes: unpinned items, least relevant first, and no more than bring the counter down
      to nine tenths of the budget; all of them when that is not enough. */
  ghost predicate Evicts(items: Items, tokens: int, budget: nat, evicted: seq<ContextItem>) {
    && (forall i | 0 <= i < |evicted| :: evicted[i].id in items && items[evicted[i].id] == evicted[i] && !evicted[i].pinned)
    && (forall i, id | 0 <= i < |evicted| && id in items && !items[id].pinned && id !in Ids(evicted) ::
          evicted[i].relevance <= items[id].relevance)
    && (forall k | 0 <= k < |evicted| :: !LowEnough(tokens - TokenSum(evicted[..k]), budget))
    && (LowEnough(tokens - TokenSum(evicted), budget) || forall id | id in items && id !in Ids(evicted) :: items[id].pinned)
  }

  /** The unpinned items outside the prefix are the candidates after it. */
  lemma LaterCandidates(items: Items, candidates: seq<ContextItem>, n: nat)
    requires Lists(candidates, Unpinned(items)) && n <= |candidates|
    ensures forall id | id in items && !items[id].pinned && id !in Ids(candidates[..n]) ::
              exists j :: n <= j < |candidates| && candidates[j] == items[id]
    ensures forall i | 0 <= i < |candidates| ::
              candidates[i].id in items && items[candidates[i].id] == candidates[i] && !candidates[i].pinned
  {
    assert forall i | 0 <= i < |candidates| :: candidates[i].id in Unpinned(items);
    assert forall i | 0 <= i < n :: candidates[i].id in Ids(candidates[..n]) by {
      assert forall i | 0 <= i < n :: candidates[..n][i].id in Ids(candidates[..n]);
    }
    forall id | id in items && !items[id].pinned && id !in Ids(candidates[..n])
      ensures exists j :: n <= j < |candidates| && candidates[j] == items[id]
    {
      assert id in Unpinned(items);
      var j :| 0 <= j < |candidates| && candidates[j].id == id;
    }
  }

  lemma PrefixEvicts(items: Items, tokens: int, budget: nat, candidates: seq<ContextItem>, n: nat)
    requires Ranks(candidates, Unpinned(items), ForEviction) && n <= |candidates|
    requires forall k | 0 <= k < n :: !LowEnough(tokens - TokenSum(candidates[..k]), budget)
    requires n == |candidates| || LowEnough(tokens - TokenSum(candidates[..n]), budget)
    ensures Evicts(items, tokens, budget, candidates[..n])
  {
    hide TokenSum, LowEnough, Lists, Unpinned, Ids;
    var evicted := candidates[..n];
    LaterCandidates(items, candidates, n);
    forall i, id | 0 <= i < n && id in items && !items[id].pinned && id !in Ids(evicted)
      ensures evicted[i].relevance <= items[id].relevance
    {
      var j :| n <= j < |candidates| && candidates[j] == items[id];
      assert !ForEviction.Before(candidates[j], candidates[i]);
    }
    assert forall k | 0 <= k < n :: evicted[..k] == candidates[..k];
  }

  /** What an eviction changes: the items taken, in both tables, and the counters by their tokens. */
  lemma EvictionTakes(t: Contexts, c: string, list: seq<ContextItem>)
    requires c in t.items && c in t.tokens
    ensures var u := WithoutItems(t, c, list);
            && SameBut(t.items, u.items, c) && SameBut(t.tokens, u.tokens, c) && c in u.items && c in u.tokens
            && (forall id :: id in u.items[c] <==> id in t.items[c] && forall i | 0 <= i < |list| :: list[i].id != id)
            && (forall id | id in u.items[c] :: u.items[c][id] == t.items[c][id])
            && (forall id :: id in u.all <==> id in t.all && forall i | 0 <= i < |list| :: list[i].id != id)
            && (forall id | id in u.all :: u.all[id] == t.all[id])
            && u.totalTokens - t.totalTokens == u.tokens[c] - t.tokens[c] == -TokenSum(list) && u.totalItems == t.totalItems
  {
    hide TokenSum;
  }
}
