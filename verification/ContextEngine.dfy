/** The context engine: conversations, their items, and the token accounts. */
module ContextEngines {
  import opened ContextItems
  import opened ContextSelection
  import opened Sequences
  import opened Wrappers

  class ContextEngine {
    var conversations: map<string, string>
    var contextItems: map<string, Items>
    var allContextItems: Items
    var conversationTokens: map<string, int>
    var tokenBudget: nat
    var idCounter: nat
    var totalTokens: int
    var totalItems: int
    ghost var lostTokens: int
    ghost var lostItems: int

    ghost function View(): Contexts
      reads this
    {
      Contexts(contextItems, allContextItems, conversationTokens, totalTokens, totalItems)
    }

    ghost predicate Valid()
      reads this
    {
      && View().Consistent(idCounter, lostTokens, lostItems) && conversations.Keys <= contextItems.Keys
      && StartedBefore(conversations, idCounter)
    }

    constructor ()
      ensures Valid() && View() == Contexts(map[], map[], map[], 0, 0) && conversations == map[] && tokenBudget == 8000
      ensures lostTokens == 0 && lostItems == 0
    {
      hide Contexts.Consistent, CountTokens, Issued, Tokens;
      conversations, contextItems, allContextItems, conversationTokens := map[], map[], map[], map[];
      tokenBudget, idCounter, totalTokens, totalItems := 8000, 0, 0, 0;
      lostTokens, lostItems := 0, 0;
      NothingConsistent();
    }

    method GenerateId(now: nat) returns (id: string)
      modifies `idCounter
      ensures idCounter == old(idCounter) + 1 && id == GeneratedId(idCounter, now)
    {
      idCounter := idCounter + 1;
      id := GeneratedId(idCounter, now);
    }

    method StartConversation(goal: string, now: nat) returns (c: string)
      requires Valid()
      modifies this
      ensures Valid() && View() == old(View()).Start(c) && conversations == old(conversations)[c := goal]
      ensures c !in old(conversations) && c !in old(allContextItems)
      ensures tokenBudget == old(tokenBudget) && lostTokens == old(lostTokens) && lostItems == old(lostItems)
    {
      hide Contexts.Consistent, GeneratedId, StartedBefore;
      StartKeepsAny(View(), idCounter, lostTokens, lostItems, now);
      StartedNext(conversations, idCounter, now, goal);
      c := GenerateId(now);
      conversations := conversations[c := goal];
      contextItems := contextItems[c := map[]];
      conversationTokens := conversationTokens[c := 0];
    }

    /** The statistics go on counting the items of a conversation that has ended. */
    method EndConversation(c: string) returns (ended: bool)
      requires Valid()
      modifies this
      ensures Valid() && ended == (c in old(conversations))
      ensures !ended ==> View() == old(View()) && lostTokens == old(lostTokens) && lostItems == old(lostItems)
      ensures ended ==> View() == old(View()).End(c) && conversations == old(conversations) - {c}
      ensures ended ==> lostTokens == old(lostTokens + View().TokensOf(c))
      ensures ended ==> lostItems == old(lostItems + |View().ItemsOf(c)|)
      ensures tokenBudget == old(tokenBudget)
    {
      hide Contexts.Consistent, StartedBefore;
      StartedLess(conversations, idCounter, c);
      if c !in conversations {
        return false;
      }
      ghost var before := View();
      EndKeeps(before, idCounter, lostTokens, lostItems, c);
      lostTokens, lostItems := lostTokens + before.TokensOf(c), lostItems + |contextItems[c]|;
      allContextItems := EraseAll(allContextItems, contextItems[c]);
      contextItems := contextItems - {c};
      conversations := conversations - {c};
      conversationTokens := conversationTokens - {c};
      ended := true;
    }

    /** Enters a new item, unpinned and with an identifier no item has had. */
    method Enter(c: string, item: ContextItem, now: nat)
      requires Valid() && item.tokenCount == CountTokens(item.content) && !item.pinned
      requires item.id == GeneratedId(idCounter + 1, now)
      modifies this
      ensures Valid() && item.id !in old(allContextItems) && View() == old(View()).Add(c, item)
      ensures idCounter == old(idCounter) + 1 && conversations == old(conversations) && tokenBudget == old(tokenBudget)
      ensures lostTokens == old(lostTokens) && lostItems == old(lostItems)
    {
      hide Contexts.Consistent, Contexts.Add, Contexts.ItemsOf, Contexts.TokensOf, CountTokens, GeneratedId, StartedBefore;
      StartedNext(conversations, idCounter, now, "");
      var part := if c in contextItems then contextItems[c] else map[];
      var tokens := if c in conversationTokens then conversationTokens[c] else 0;
      EnterKeeps(View(), idCounter, lostTokens, lostItems, c, part, tokens, item, now);
      idCounter := idCounter + 1;
      contextItems := contextItems[c := part[item.id := item]];
      allContextItems := allContextItems[item.id := item];
      conversationTokens := conversationTokens[c := tokens + item.tokenCount];
      totalItems := totalItems + 1;
      totalTokens := totalTokens + item.tokenCount;
    }

    method AddMessage(c: string, content: string, now: nat) returns (added: bool)
      requires Valid()
      modifies this
      ensures Valid() && added == (c in conversations) && conversations == old(conversations)
      ensures !added ==> View() == old(View())
      ensures added ==> GeneratedId(idCounter, now) !in old(allContextItems)
      ensures added ==> View() == old(View()).Add(c, ContextItem(GeneratedId(idCounter, now), Conversation, content, c, 1.0,
                                                                 CountTokens(content), false))
      ensures tokenBudget == old(tokenBudget) && lostTokens == old(lostTokens) && lostItems == old(lostItems)
    {
      hide Contexts.Consistent, CountTokens, GeneratedId, Contexts.Add, StartedBefore;
      if c !in conversations {
        return false;
      }
      var item := ContextItem(GeneratedId(idCounter + 1, now), Conversation, content, c, 1.0, CountTokens(content), false);
      Enter(c, item, now);
      added := true;
    }

    /** The conversation need not have been started. The relevance of a file is the caller's. */
    method AddContextItem(c: string, kind: ContextType, content: string, source: string, fileRelevance: real, now: nat)
      returns (id: string)
      requires Valid()
      modifies this
      ensures Valid() && id !in old(allContextItems) && conversations == old(conversations)
      ensures View() == old(View()).Add(c, ContextItem(id, kind, content, source, InitialRelevance(kind, fileRelevance),
                                                       CountTokens(content), false))
      ensures tokenBudget == old(tokenBudget) && lostTokens == old(lostTokens) && lostItems == old(lostItems)
    {
      hide Contexts.Consistent, CountTokens, GeneratedId, Contexts.Add, StartedBefore;
      id := GeneratedId(idCounter + 1, now);
      var relevance := match kind
        case File => fileRelevance
        case Symbol => 0.8
        case Dependency => 0.7
        case _ => 0.5;
      var item := ContextItem(id, kind, content, source, relevance, CountTokens(content), false);
      Enter(c, item, now);
    }

    method RemoveContextItem(id: string) returns (removed: bool, ghost owner: Option<string>)
      requires Valid()
      modifies this
      ensures Valid() && removed == (id in old(allContextItems)) && conversations == old(conversations)
      ensures !removed ==> View() == old(View())
      ensures removed && owner.Some? ==> id in old(View()).ItemsOf(owner.value) && owner.value in old(conversationTokens)
      ensures removed && owner.Some? ==> View() == old(View()).Remove(owner.value, id)
      ensures removed && owner.None? ==> forall c | c in old(contextItems) :: id !in old(contextItems)[c]
      ensures removed && owner.None? ==> View() == old(View()).RemoveStray(id)
      ensures tokenBudget == old(tokenBudget)
    {
      hide Contexts.Consistent, CountTokens, Issued, Tokens, Accounted, Owned, Unshared, StartedBefore;
      removed, owner := false, None;
      if id !in allContextItems {
        return;
      }
      ghost var before := View();
      var tokenCount := allContextItems[id].tokenCount;
      var holder := FindHolder(contextItems, id);
      owner := holder;
      if holder.Some? {
        var c := holder.value;
        RemoveKeeps(before, idCounter, lostTokens, lostItems, c, id);
        conversationTokens := conversationTokens[c := conversationTokens[c] - tokenCount];
        totalTokens := totalTokens - tokenCount;
        contextItems := contextItems[c := contextItems[c] - {id}];
      } else {
        RemoveStrayKeeps(before, idCounter, lostTokens, lostItems, id);
        lostTokens := lostTokens + tokenCount;
      }
      allContextItems := allContextItems - {id};
      totalItems := totalItems - 1;
      removed := true;
    }

    /** Only the copy in the common table changes. */
    method UpdateRelevance(id: string, score: real) returns (found: bool)
      requires Valid()
      modifies `allContextItems
      ensures Valid() && found == (id in old(allContextItems))
      ensures allContextItems == if found then old(allContextItems)[id := old(allContextItems[id]).(relevance := Clamp(score))]
                                 else old(allContextItems)
    {
      hide Contexts.Consistent, CountTokens, Issued, Tokens, Accounted, Owned, Unshared, StartedBefore;
      if id !in allContextItems {
        return false;
      }
      var bounded := if score < 1.0 then score else 1.0;
      var item := allContextItems[id].(relevance := if bounded > 0.0 then bounded else 0.0);
      MarkAt(View(), idCounter, lostTokens, lostItems, id, item);
      allContextItems := allContextItems[id := item];
      found := true;
    }

    /** Only the copy in the common table changes; selection and eviction look at the other one. */
    method PinContextItem(id: string, pinned: bool) returns (found: bool)
      requires Valid()
      modifies `allContextItems
      ensures Valid() && found == (id in old(allContextItems))
      ensures allContextItems == if found then old(allContextItems)[id := old(allContextItems[id]).(pinned := pinned)]
                                 else old(allContextItems)
    {
      hide Contexts.Consistent, CountTokens, Issued, Tokens, Accounted, Owned, Unshared, StartedBefore;
      if id !in allContextItems {
        return false;
      }
      var item := allContextItems[id].(pinned := pinned);
      MarkAt(View(), idCounter, lostTokens, lostItems, id, item);
      allContextItems := allContextItems[id := item];
      found := true;
    }

    /** No copy that selection sees is ever pinned, so what is selected always fits. */
    method SelectContextItems(c: string, maxTokens: nat) returns (selected: seq<ContextItem>, ghost ranked: seq<ContextItem>)
      requires Valid()
      ensures Ranks(ranked, View().ItemsOf(c), ForPrompt)
      ensures selected == Selected(ranked, |ranked|, maxTokens)
      ensures TokenSum(selected) <= maxTokens
    {
      hide Contexts.Consistent, Selected, TokenSum, Ranks;
      var items := if c in contextItems then contextItems[c] else map[];
      UnpinnedCopies(View(), idCounter, lostTokens, lostItems, c);
      var list := RankItems(items, ForPrompt);
      ranked := list;
      selected := Select(list, maxTokens);
      UnpinnedSelection(items, list, maxTokens);
    }

    method EvictItem(c: string, item: ContextItem)
      requires c in contextItems && c in conversationTokens && conversations.Keys <= contextItems.Keys
      requires StartedBefore(conversations, idCounter)
      requires Drop(View(), c, item).Consistent(idCounter, lostTokens, lostItems + 1)
      modifies this
      ensures Valid() && View() == Drop(old(View()), c, item) && c in contextItems && c in conversationTokens
      ensures conversations == old(conversations) && tokenBudget == old(tokenBudget) && idCounter == old(idCounter)
      ensures lostTokens == old(lostTokens) && lostItems == old(lostItems) + 1
    {
      hide Contexts.Consistent, CountTokens, Issued, Tokens, Accounted, Owned, Unshared, StartedBefore;
      conversationTokens := conversationTokens[c := conversationTokens[c] - item.tokenCount];
      totalTokens := totalTokens - item.tokenCount;
      allContextItems := allContextItems - {item.id};
      contextItems := contextItems[c := contextItems[c] - {item.id}];
      lostItems := lostItems + 1;
    }

    /** Evicts in the order of a ranking of the conversation's own copies, none of which is ever pinned. */
    method EvictIfNeeded(c: string) returns (ghost ranking: seq<ContextItem>)
      requires Valid()
      modifies this
      ensures Valid() && conversations == old(conversations) && tokenBudget == old(tokenBudget)
      ensures View() == Evict(old(View()), c, ranking, tokenBudget)
      ensures var before := old(View());
              c in before.items && before.TokensOf(c) > tokenBudget ==>
                && Ranks(ranking, before.items[c], ForEviction)
                && Evicts(before.items[c], before.TokensOf(c), tokenBudget,
                          ranking[..EvictionCount(ranking, 0, before.TokensOf(c), tokenBudget)])
    {
      hide Contexts.Consistent, CountTokens, Issued, Tokens, Accounted, Owned, Unshared, StartedBefore,
           WithoutItems, Drop, Evicts, LowEnough, TokenSum, Ranks, Measured, Unpinned;
      ranking := [];
      UnpinnedCopies(View(), idCounter, lostTokens, lostItems, c);
      if c !in conversationTokens || conversationTokens[c] <= tokenBudget || c !in contextItems {
        return;
      }
      ghost var before := View();
      UnpinnedMeasured(contextItems[c]);
      UnpinnedSame(contextItems[c]);
      var candidates := RankItems(Unpinned(contextItems[c]), ForEviction);
      ranking := candidates;
      WithoutNoItems(before, c);
      assert candidates[..0] == [];
      SumNothing();
      var n := 0;
      while n < |candidates| && !LowEnough(conversationTokens[c], tokenBudget)
        invariant n <= |candidates|
        invariant c in contextItems && c in conversationTokens
        invariant View() == WithoutItems(before, c, candidates[..n])
        invariant Valid()
        invariant conversationTokens[c] == before.tokens[c] - TokenSum(candidates[..n])
        invariant EvictionCount(candidates, n, before.tokens[c], tokenBudget) ==
                  EvictionCount(candidates, 0, before.tokens[c], tokenBudget)
        invariant conversations == old(conversations) && tokenBudget == old(tokenBudget)
      {
        EvictStep(before, idCounter, lostTokens, lostItems, c, candidates, n);
        EvictItem(c, candidates[n]);
        n := n + 1;
        TokensAfter(before, c, candidates[..n]);
      }
      PrefixEvicts(before.items[c], before.tokens[c], tokenBudget, candidates, n);
    }
  }

  lemma UnpinnedSame(items: Items)
    requires forall id | id in items :: !items[id].pinned
    ensures Unpinned(items) == items
  {
  }

  lemma TokensAfter(t: Contexts, c: string, list: seq<ContextItem>)
    requires c in t.items && c in t.tokens
    ensures c in WithoutItems(t, c, list).tokens && WithoutItems(t, c, list).tokens[c] == t.tokens[c] - TokenSum(list)
  {
  }

  lemma EvictStep(t: Contexts, counter: nat, lostTokens: int, lostItems: int, c: string, candidates: seq<ContextItem>, n: nat)
    requires c in t.items && c in t.tokens && n < |candidates|
    requires Ranks(candidates, Unpinned(t.items[c]), ForEviction)
    ensures var now := WithoutItems(t, c, candidates[..n]);
            && c in now.items && c in now.tokens && now.tokens[c] == t.tokens[c] - TokenSum(candidates[..n])
            && Drop(now, c, candidates[n]) == WithoutItems(t, c, candidates[..n + 1])
            && (now.Consistent(counter, lostTokens, lostItems) ==>
                  Drop(now, c, candidates[n]).Consistent(counter, lostTokens, lostItems + 1))
  {
    hide Contexts.Consistent, TokenSum;
    var now, item := WithoutItems(t, c, candidates[..n]), candidates[n];
    assert item.id in Unpinned(t.items[c]);
    assert item.id !in Ids(candidates[..n]);
    WithoutPush(t, c, candidates[..n], item);
    assert candidates[..n + 1] == candidates[..n] + [item];
    if now.Consistent(counter, lostTokens, lostItems) {
      DropKeeps(now, counter, lostTokens, lostItems, c, item);
    }
  }

  function InitialRelevance(kind: ContextType, fileRelevance: real): real {
    if kind == File then fileRelevance
    else if kind == Symbol then 0.8
    else if kind == Dependency then 0.7
    else 0.5
  }

  /** A symbol starts above a dependency, and that above all others but files. */
  lemma InitialRelevances(kind: ContextType, fileRelevance: real)
    ensures InitialRelevance(File, fileRelevance) == fileRelevance
    ensures InitialRelevance(Symbol, fileRelevance) == 0.8 && InitialRelevance(Dependency, fileRelevance) == 0.7
    ensures kind !in {File, Symbol, Dependency} ==> InitialRelevance(kind, fileRelevance) == 0.5
  {
  }

  function Clamp(score: real): (r: real)
    ensures 0.0 <= r <= 1.0 && (0.0 <= score <= 1.0 ==> r == score)
    ensures (score < 0.0 ==> r == 0.0) && (score > 1.0 ==> r == 1.0)
  {
    if score < 0.0 then 0.0 else if score > 1.0 then 1.0 else score
  }

  method FindHolder(items: map<string, Items>, id: string) returns (holder: Option<string>)
    ensures holder.Some? ==> holder.value in items && id in items[holder.value]
    ensures holder.None? ==> forall c | c in items :: id !in items[c]
  {
    holder := None;
    var rest := items.Keys;
    while rest != {}
      invariant rest <= items.Keys
      invariant forall c | c in items && c !in rest :: id !in items[c]
    {
      var c :| c in rest;
      if id in items[c] {
        return Some(c);
      }
      rest := rest - {c};
    }
  }

  lemma EnterKeeps(t: Contexts, counter: nat, lostTokens: int, lostItems: int, c: string, part: Items, tokens: int,
                   item: ContextItem, now: nat)
    requires t.Consistent(counter, lostTokens, lostItems)
    requires part == (if c in t.items then t.items[c] else map[]) && tokens == if c in t.tokens then t.tokens[c] else 0
    requires item.id == GeneratedId(counter + 1, now) && item.tokenCount == CountTokens(item.content) && !item.pinned
    ensures item.id !in t.all && t.Add(c, item).Consistent(counter + 1, lostTokens, lostItems)
    ensures Contexts(t.items[c := part[item.id := item]], t.all[item.id := item], t.tokens[c := tokens + item.tokenCount],
                     t.totalTokens + item.tokenCount, t.totalItems + 1) == t.Add(c, item)
  {
    hide Contexts.Consistent, CountTokens, GeneratedId;
    AddKeeps(t, counter, lostTokens, lostItems, c, item, now);
  }

  lemma MarkAt(t: Contexts, counter: nat, lostTokens: int, lostItems: int, id: string, item: ContextItem)
    requires t.Consistent(counter, lostTokens, lostItems) && id in t.all
    requires item == t.all[id].(relevance := item.relevance, pinned := item.pinned)
    ensures t.(all := t.all[id := item]).Consistent(counter, lostTokens, lostItems)
  {
    hide Accounted, Owned, Unshared, Issued, Tokens, CountTokens;
    MarkKeeps(t, counter, lostTokens, lostItems, item);
  }

  lemma UnpinnedCopies(t: Contexts, counter: nat, lostTokens: int, lostItems: int, c: string)
    requires t.Consistent(counter, lostTokens, lostItems)
    ensures Measured(t.ItemsOf(c)) && forall id | id in t.ItemsOf(c) :: !t.ItemsOf(c)[id].pinned
    ensures c in t.items <==> c in t.tokens
  {
    hide Accounted, Owned, Unshared, Issued, Tokens, CountTokens;
    ConversationOf(t, c);
  }

  lemma UnpinnedSelection(items: Items, ranked: seq<ContextItem>, limit: nat)
    requires Ranks(ranked, items, ForPrompt) && forall id | id in items :: !items[id].pinned
    ensures TokenSum(Selected(ranked, |ranked|, limit)) <= limit
  {
    hide Selected, TokenSum, Used, Overrun;
    assert forall i | 0 <= i < |ranked| :: items[ranked[i].id] == ranked[i];
    WithinLimit(ranked, |ranked|, limit);
    NothingPinnedNothingOver(ranked, |ranked|, limit);
  }

  /** The items of `part` outside `rest` have been erased. */
  ghost predicate Erasing(all: Items, part: Items, rest: Items, left: Items) {
    && (forall id | id in rest :: id in part)
    && (forall id :: id in left <==> id in all && (id in part ==> id in rest))
    && (forall id | id in left :: left[id] == all[id])
  }

  lemma EraseOne(all: Items, part: Items, rest: Items, left: Items, id: string)
    requires Erasing(all, part, rest, left) && id in rest
    ensures Erasing(all, part, rest - {id}, left - {id})
  {
  }

  lemma ErasedAll(all: Items, part: Items, left: Items)
    ensures Erasing(all, part, part, all)
    ensures Erasing(all, part, map[], left) ==> left == all - part.Keys
  {
  }

  method EraseAll(all: Items, part: Items) returns (left: Items)
    ensures left == all - part.Keys
  {
    hide Erasing;
    left := all;
    var rest := part;
    ErasedAll(all, part, left);
    while rest != map[]
      invariant Erasing(all, part, rest, left)
      decreases |rest|
    {
      var id :| id in rest;
      EraseOne(all, part, rest, left, id);
      left := left - {id};
      rest := rest - {id};
    }
    ErasedAll(all, part, left);
  }

  /** Every conversation's identifier has been generated. */
  ghost predicate StartedBefore(conversations: map<string, string>, counter: nat) {
    forall c | c in conversations :: Issued(c, counter)
  }

  lemma StartedNext(conversations: map<string, string>, counter: nat, now: nat, goal: string)
    requires StartedBefore(conversations, counter)
    ensures GeneratedId(counter + 1, now) !in conversations
    ensures StartedBefore(conversations, counter + 1)
    ensures StartedBefore(conversations[GeneratedId(counter + 1, now) := goal], counter + 1)
  {
    hide GeneratedId, Issued;
    NextIsNotIssued(counter, now);
  }

  lemma StartedLess(conversations: map<string, string>, counter: nat, c: string)
    requires StartedBefore(conversations, counter)
    ensures StartedBefore(conversations - {c}, counter)
  {
  }

  lemma StartKeepsAny(t: Contexts, counter: nat, lostTokens: int, lostItems: int, now: nat)
    requires t.Consistent(counter, lostTokens, lostItems)
    ensures GeneratedId(counter + 1, now) !in t.all
    ensures t.Start(GeneratedId(counter + 1, now)).Consistent(counter + 1, lostTokens, lostItems)
  {
    hide GeneratedId, Issued, Accounted, Owned, Unshared, Tokens;
    NextIsNotIssued(counter, now);
    StartKeeps(t, counter, lostTokens, lostItems, GeneratedId(counter + 1, now), now);
  }

  /** Whether a caller has pinned an item makes no difference: its copy is selected exactly when it fits. */
  lemma SelectedOnlyWhenItFits(t: Contexts, counter: nat, lostTokens: int, lostItems: int, c: string,
                               ranked: seq<ContextItem>, limit: nat, k: nat)
    requires t.Consistent(counter, lostTokens, lostItems)
    requires Ranks(ranked, t.ItemsOf(c), ForPrompt) && k < |ranked|
    ensures ranked[k] in Selected(ranked, |ranked|, limit) <==> Fits(ranked, k, limit)
  {
    hide Contexts.Consistent, Selected, Fits;
    UnpinnedCopies(t, counter, lostTokens, lostItems, c);
    SelectedWhen(ranked, |ranked|, limit, k);
    assert t.ItemsOf(c)[ranked[k].id] == ranked[k];
  }

  /** An item that has been added and pinned, and is still left out of a prompt with room for one token. */
  lemma PinnedYetOmitted(item: ContextItem, t: Contexts)
    requires item == ContextItem(GeneratedId(1, 0), File, "text", "main.cpp", 0.5, 2, false)
    requires t == Contexts(map[], map[], map[], 0, 0).Add("c", item).Mark(item.(pinned := true))
    ensures t.Consistent(1, 0, 0) && t.all[item.id].pinned
    ensures Ranks([item], t.ItemsOf("c"), ForPrompt) && Selected([item], 1, 1) == []
  {
    hide Contexts.Consistent, GeneratedId;
    NothingConsistent();
    AddKeeps(Contexts(map[], map[], map[], 0, 0), 0, 0, 0, "c", item, 0);
    MarkKeeps(Contexts(map[], map[], map[], 0, 0).Add("c", item), 1, 0, 0, item.(pinned := true));
    assert [item][0].id == item.id;
  }

  /** Whether a caller has pinned an item makes no difference to eviction either: it goes exactly when its place
      in the ranking is reached. */
  lemma EvictedOnlyByRank(t: Contexts, counter: nat, lostTokens: int, lostItems: int, c: string,
                          ranking: seq<ContextItem>, budget: nat, k: nat)
    requires t.Consistent(counter, lostTokens, lostItems) && c in t.items && c in t.tokens
    requires Ranks(ranking, t.items[c], ForEviction) && k < |ranking|
    ensures ranking[k].id in t.all
    ensures ranking[k].id !in Evict(t, c, ranking, budget).all <==>
            t.tokens[c] > budget && forall i | 0 <= i <= k :: !LowEnough(t.tokens[c] - TokenSum(ranking[..i]), budget)
  {
    hide Accounted, Unshared, Owned, AllIssued, Measured, Counts, Tokens, Evict, TokenSum, LowEnough;
    ConversationOf(t, c);
    CopyCounts(t.items[c], t.all, ranking[k].id);
    EvictedByRank(t, c, ranking, budget, k);
  }

  /** An item that has been added and pinned, and is evicted all the same by every eviction above budget. */
  lemma PinnedYetEvicted(item: ContextItem, t: Contexts, ranking: seq<ContextItem>)
    requires item == ContextItem(GeneratedId(1, 0), File, "text", "main.cpp", 0.5, 2, false)
    requires t == Contexts(map[], map[], map[], 0, 0).Add("c", item).Mark(item.(pinned := true))
    requires Ranks(ranking, t.ItemsOf("c"), ForEviction)
    ensures t.Consistent(1, 0, 0) && t.all[item.id].pinned
    ensures item.id !in Evict(t, "c", ranking, 1).all
  {
    hide Contexts.Consistent, GeneratedId, Evict, LowEnough, TokenSum, Ranks;
    PinnedYetOmitted(item, t);
    RankingOfOne(ranking, item);
    assert t.ItemsOf("c") == map[item.id := item];
    EvictedOnlyByRank(t, 1, 0, 0, "c", ranking, 1, 0);
    assert ranking[..0] == [];
    SumNothing();
    AboveLow();
  }

  lemma RankingOfOne(ranking: seq<ContextItem>, item: ContextItem)
    ensures Ranks(ranking, map[item.id := item], ForEviction) ==> ranking == [item]
  {
    var items := map[item.id := item];
    if Ranks(ranking, items, ForEviction) {
      assert item.id in items;
      assert ranking != [];
      var ids := seq(|ranking|, i requires 0 <= i < |ranking| => ranking[i].id);
      DistinctWithin(ids, {item.id});
    }
  }

  lemma AboveLow()
    ensures !LowEnough(2, 1)
  {
  }

  /** Setting the relevance or the pin of an item changes no choice: rankings, and what an eviction leaves of a
      conversation, are what they were. */
  lemma MarkingChangesNoChoice(t: Contexts, item: ContextItem, c: string, ranking: seq<ContextItem>, o: Order, budget: nat)
    ensures Ranks(ranking, t.Mark(item).ItemsOf(c), o) <==> Ranks(ranking, t.ItemsOf(c), o)
    ensures Evict(t.Mark(item), c, ranking, budget).ItemsOf(c) == Evict(t, c, ranking, budget).ItemsOf(c)
  {
  }

  /** An item raised to full relevance that still ranks behind, and loses to, one lowered to none. */
  lemma RaisedYetOmitted(a: ContextItem, b: ContextItem, t: Contexts)
    requires a == ContextItem(GeneratedId(1, 0), Symbol, "code", "a.cpp", 0.8, 2, false)
    requires b == ContextItem(GeneratedId(2, 0), Error, "oops", "b.cpp", 0.5, 2, false)
    requires t == Contexts(map[], map[], map[], 0, 0).Add("c", a).Add("c", b)
                    .Mark(a.(relevance := 0.0)).Mark(b.(relevance := 1.0))
    ensures t.Consistent(2, 0, 0) && t.all[b.id].relevance > t.all[a.id].relevance
    ensures Ranks([a, b], t.ItemsOf("c"), ForPrompt) && Selected([a, b], 2, 2) == [a]
  {
    hide Contexts.Consistent, GeneratedId;
    var t0 := Contexts(map[], map[], map[], 0, 0);
    NothingConsistent();
    AddKeeps(t0, 0, 0, 0, "c", a, 0);
    AddKeeps(t0.Add("c", a), 1, 0, 0, "c", b, 0);
    var t2 := t0.Add("c", a).Add("c", b);
    MarkKeeps(t2, 2, 0, 0, a.(relevance := 0.0));
    MarkKeeps(t2.Mark(a.(relevance := 0.0)), 2, 0, 0, b.(relevance := 1.0));
    assert [a, b][0].id == a.id && [a, b][1].id == b.id;
    assert Selected([a, b], 1, 2) == [a] && Used([a, b], 1, 2) == 2;
  }
}
