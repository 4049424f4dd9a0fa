/** The context engine's tables as values, and what every operation keeps true of them. */
module ContextItems {
  datatype ContextType =
    Conversation | File | Symbol | Dependency | GitHistory | TerminalOutput | Error | Documentation | UserPreference

  datatype ContextItem = ContextItem(id: string, kind: ContextType, content: string, source: string, relevance: real,
                                     tokenCount: int, pinned: bool)

  type Items = map<string, ContextItem>

  /** About four characters to a token. */
  function CountTokens(content: string): (n: int)
    ensures n >= 0 && (n == 0 <==> content == "")
    ensures content != "" ==> 4 * (n - 1) <= |content| < 4 * n
  {
    if content == "" then 0 else |content| / 4 + 1
  }

  function Truncate(content: string, maxTokens: nat): string {
    if |content| <= 4 * maxTokens then content else content[..4 * maxTokens]
  }

  /** Truncation keeps a prefix: the whole text if it is short enough, else four characters a token. */
  lemma TruncationIsPrefix(content: string, maxTokens: nat)
    ensures Truncate(content, maxTokens) <= content && |Truncate(content, maxTokens)| <= 4 * maxTokens
    ensures |Truncate(content, maxTokens)| == |content| || |Truncate(content, maxTokens)| == 4 * maxTokens
  {
  }

  /** Truncation meets its token limit exactly when nothing is kept or the text is shorter than four
      characters a token: a text cut at the limit counts one token too many. */
  lemma TruncationMeetsLimit(content: string, maxTokens: nat)
    ensures CountTokens(Truncate(content, maxTokens)) <= maxTokens <==>
            content == "" || maxTokens == 0 || |content| < 4 * maxTokens
  {
    assert maxTokens == 0 ==> Truncate(content, maxTokens) == "";
  }

  // ---- generated identifiers

  function Decimal(n: nat): string {
    if n < 10 then [('0' as int + n) as char] else Decimal(n / 10) + [('0' as int + n % 10) as char]
  }

  function ReadDecimal(s: string): int {
    if s == "" then 0 else ReadDecimal(s[..|s| - 1]) * 10 + (s[|s| - 1] as int - '0' as int)
  }

  lemma {:induction false} DecimalReads(n: nat)
    ensures ReadDecimal(Decimal(n)) == n
    ensures forall i | 0 <= i < |Decimal(n)| :: '0' <= Decimal(n)[i] <= '9'
  {
    if n >= 10 {
      DecimalReads(n / 10);
      assert Decimal(n)[..|Decimal(n)| - 1] == Decimal(n / 10);
    } else {
      assert Decimal(n)[..0] == "";
    }
  }

  /** A counter and the time, so identifiers differ even within one millisecond. */
  function GeneratedId(n: nat, ms: nat): string {
    "ctx_" + Decimal(n) + "_" + Decimal(ms)
  }

  /** Different counters give different identifiers, whatever the clock says. */
  lemma GeneratedIdsDiffer(n1: nat, ms1: nat, n2: nat, ms2: nat)
    requires GeneratedId(n1, ms1) == GeneratedId(n2, ms2)
    ensures n1 == n2
  {
    hide Decimal, ReadDecimal, GeneratedId;
    DecimalReads(n1);
    DecimalReads(n2);
    NumberEnds(n1, ms1);
    NumberEnds(n2, ms2);
  }

  /** The counter's digits are what stands before the second underscore. */
  lemma NumberEnds(n: nat, ms: nat)
    ensures var id, k := GeneratedId(n, ms), |Decimal(n)|;
            && 4 + k < |id| && id[4 + k] == '_' && id[4..4 + k] == Decimal(n)
            && forall i | 4 <= i < 4 + k :: id[i] != '_'
  {
    hide Decimal, ReadDecimal;
    DecimalReads(n);
    var id, k := GeneratedId(n, ms), |Decimal(n)|;
    assert id == ("ctx_" + Decimal(n)) + ("_" + Decimal(ms));
    assert id[..4 + k] == "ctx_" + Decimal(n);
  }

  ghost predicate Issued(id: string, counter: nat) {
    exists n: nat, ms: nat :: n <= counter && id == GeneratedId(n, ms)
  }

  lemma NextIsNotIssued(counter: nat, ms: nat)
    ensures !Issued(GeneratedId(counter + 1, ms), counter) && Issued(GeneratedId(counter + 1, ms), counter + 1)
    ensures forall id | Issued(id, counter) :: Issued(id, counter + 1)
  {
    hide GeneratedId;
    forall n: nat, m: nat | n <= counter
      ensures GeneratedId(n, m) != GeneratedId(counter + 1, ms)
    {
      if GeneratedId(n, m) == GeneratedId(counter + 1, ms) {
        GeneratedIdsDiffer(n, m, counter + 1, ms);
      }
    }
  }

  // ---- token sums

  ghost function Tokens(items: Items): int
    decreases |items|
  {
    if items == map[] then 0
    else
      var id :| id in items;
      items[id].tokenCount + Tokens(items - {id})
  }

  lemma {:induction false} TokensPeel(items: Items, id: string)
    requires id in items
    ensures Tokens(items) == items[id].tokenCount + Tokens(items - {id})
    decreases |items|
  {
    var c :| c in items && Tokens(items) == items[c].tokenCount + Tokens(items - {c});
    if c == id {
    } else {
      TokensPeel(items - {c}, id);
      TokensPeel(items - {id}, c);
      assert items - {c} - {id} == items - {id} - {c};
    }
  }

  /** Entering an item adds its tokens in place of those it replaces. */
  lemma TokensPut(items: Items, id: string, item: ContextItem)
    ensures Tokens(items[id := item]) ==
            Tokens(items) + item.tokenCount - if id in items then items[id].tokenCount else 0
  {
    TokensPeel(items[id := item], id);
    assert items[id := item] - {id} == items - {id};
    if id in items {
      TokensPeel(items, id);
    } else {
      assert items - {id} == items;
    }
  }

  ghost predicate Measured(items: Items) {
    forall id | id in items :: items[id].id == id && items[id].tokenCount == CountTokens(items[id].content)
  }

  lemma {:induction false} TokensNonnegative(items: Items)
    requires Measured(items)
    ensures Tokens(items) >= 0
    decreases |items|
  {
    if items == map[] {
    } else {
      var c :| c in items && Tokens(items) == items[c].tokenCount + Tokens(items - {c});
      TokensNonnegative(items - {c});
    }
  }

  lemma NoTokens()
    ensures Tokens(map[]) == 0
  {
  }

  /** The characters of all contents. */
  ghost function Characters(items: Items): int
    decreases |items|
  {
    if items == map[] then 0
    else
      var id :| id in items;
      |items[id].content| + Characters(items - {id})
  }

  lemma {:induction false} CharactersPeel(items: Items, id: string)
    requires id in items
    ensures Characters(items) == |items[id].content| + Characters(items - {id})
    decreases |items|
  {
    var c :| c in items && Characters(items) == |items[c].content| + Characters(items - {c});
    if c == id {
    } else {
      CharactersPeel(items - {c}, id);
      CharactersPeel(items - {id}, c);
      assert items - {c} - {id} == items - {id} - {c};
    }
  }

  /** A measured table's tokens estimate its characters: four to a token, up to four more for each item. */
  lemma {:induction false} TokensEstimate(items: Items)
    requires Measured(items)
    ensures Characters(items) <= 4 * Tokens(items) <= Characters(items) + 4 * |items|
    decreases |items|
  {
    hide CountTokens;
    if items == map[] {
    } else {
      var c :| c in items && Tokens(items) == items[c].tokenCount + Tokens(items - {c});
      assert |items - {c}| == |items| - 1 by {
        assert (items - {c}).Keys == items.Keys - {c};
      }
      CharactersPeel(items, c);
      TokensEstimate(items - {c});
      ContentCount(items[c].content);
    }
  }

  lemma ContentCount(content: string)
    ensures |content| <= 4 * CountTokens(content) <= |content| + 4
  {
  }

  lemma WithoutOneByOne(all: Items, part: Items, id: string)
    requires id in part && id in all
    ensures all - {id} - (part - {id}).Keys == all - part.Keys
    ensures |all - {id}| == |all| - 1 && |part - {id}| == |part| - 1
  {
    assert (all - {id}).Keys == all.Keys - {id} && (part - {id}).Keys == part.Keys - {id};
  }

  ghost predicate Within(part: Items, all: Items) {
    forall id | id in part :: id in all && all[id].tokenCount == part[id].tokenCount
  }

  lemma WithinPeel(part: Items, all: Items, id: string)
    requires Within(part, all) && id in part
    ensures Within(part - {id}, all - {id}) && id in all && all[id].tokenCount == part[id].tokenCount
  {
  }

  /** Taking a part out of a table takes out its tokens and its items. */
  lemma {:induction false} TokensWithout(all: Items, part: Items)
    requires Within(part, all)
    ensures Tokens(all - part.Keys) == Tokens(all) - Tokens(part)
    ensures |all - part.Keys| == |all| - |part|
    decreases |part|
  {
    hide Tokens, Within;
    if part == map[] {
      NoTokens();
      assert all - part.Keys == all;
    } else {
      var id :| id in part;
      WithinPeel(part, all, id);
      TokensPeel(part, id);
      TokensPeel(all, id);
      WithoutOneByOne(all, part, id);
      TokensWithout(all - {id}, part - {id});
    }
  }

  // ---- the tables

  ghost predicate Counts(part: Items, n: int) {
    Measured(part) && n == Tokens(part)
  }

  /** Each conversation's counter is the sum over its items. */
  ghost predicate Accounted(items: map<string, Items>, tokens: map<string, int>) {
    items.Keys == tokens.Keys && forall c | c in items :: Counts(items[c], tokens[c])
  }

  /** The items are also in the common table, with the same tokens, and this copy of them is not pinned. */
  ghost predicate Copies(part: Items, all: Items) {
    forall id | id in part :: id in all && all[id].tokenCount == part[id].tokenCount && !part[id].pinned
  }

  ghost predicate Owned(items: map<string, Items>, all: Items) {
    forall c | c in items :: Copies(items[c], all)
  }

  /** No item is in two conversations. */
  ghost predicate Unshared(items: map<string, Items>) {
    forall c, d, id | c in items && d in items && c != d && id in items[c] :: id !in items[d]
  }

  ghost predicate AllIssued(all: Items, counter: nat) {
    forall id | id in all :: Issued(id, counter)
  }

  datatype Contexts = Contexts(items: map<string, Items>, all: Items, tokens: map<string, int>, totalTokens: int, totalItems: int)
  {
    /** The totals count what is in the common table and what was dropped without being counted out. */
    ghost predicate Totalled(lostTokens: int, lostItems: int) {
      totalTokens == Tokens(all) + lostTokens && totalItems == |all| + lostItems && lostTokens >= 0 && lostItems >= 0
    }

    ghost predicate Consistent(counter: nat, lostTokens: int, lostItems: int) {
      && Accounted(items, tokens) && Measured(all) && Owned(items, all) && Unshared(items) && AllIssued(all, counter)
      && Totalled(lostTokens, lostItems)
    }

    function ItemsOf(c: string): Items {
      if c in items then items[c] else map[]
    }

    function TokensOf(c: string): int {
      if c in tokens then tokens[c] else 0
    }

    function Add(c: string, item: ContextItem): Contexts {
      Contexts(items[c := ItemsOf(c)[item.id := item]], all[item.id := item], tokens[c := TokensOf(c) + item.tokenCount],
               totalTokens + item.tokenCount, totalItems + 1)
    }

    function Start(c: string): Contexts {
      this.(items := items[c := map[]], tokens := tokens[c := 0])
    }

    function End(c: string): Contexts {
      this.(items := items - {c}, all := all - ItemsOf(c).Keys, tokens := tokens - {c})
    }

    /** Takes an item out of its conversation and out of the common table. */
    function Remove(c: string, id: string): Contexts
      requires id in ItemsOf(c) && id in all && c in tokens
    {
      Contexts(items[c := items[c] - {id}], all - {id}, tokens[c := tokens[c] - all[id].tokenCount],
               totalTokens - all[id].tokenCount, totalItems - 1)
    }

    function RemoveStray(id: string): Contexts {
      this.(all := all - {id}, totalItems := totalItems - 1)
    }

    function Mark(item: ContextItem): Contexts {
      this.(all := all[item.id := item])
    }
  }

  lemma NothingConsistent()
    ensures Contexts(map[], map[], map[], 0, 0).Consistent(0, 0, 0)
  {
    hide Issued;
    NoTokens();
  }

  // One conversation's table is replaced.

  lemma PutAccounted(items: map<string, Items>, tokens: map<string, int>, c: string, part: Items, n: int)
    requires Accounted(items, tokens) && Counts(part, n)
    ensures Accounted(items[c := part], tokens[c := n])
  {
    hide Counts;
  }

  lemma PutUnshared(items: map<string, Items>, c: string, part: Items)
    requires Unshared(items) && forall d, id | d in items && d != c && id in items[d] :: id !in part
    ensures Unshared(items[c := part])
  {
  }

  /** Other conversations' items stay in the common table when it changes only elsewhere. */
  lemma PutOwned(items: map<string, Items>, all: Items, c: string, part: Items, all': Items)
    requires Owned(items, all) && Copies(part, all')
    requires forall d | d in items && d != c :: Undisturbed(items[d], all, all')
    ensures Owned(items[c := part], all')
  {
    var items' := items[c := part];
    forall d | d in items'
      ensures Copies(items'[d], all')
    {
      if d != c {
        assert Copies(items[d], all) && Undisturbed(items[d], all, all');
      }
    }
  }

  ghost predicate Undisturbed(part: Items, all: Items, all': Items) {
    forall id | id in part && id in all :: id in all' && all'[id].tokenCount == all[id].tokenCount
  }

  lemma DropConversation(items: map<string, Items>, tokens: map<string, int>, all: Items, c: string)
    requires Accounted(items, tokens) && Owned(items, all) && Unshared(items) && c in items
    ensures Accounted(items - {c}, tokens - {c}) && Owned(items - {c}, all - items[c].Keys) && Unshared(items - {c})
  {
    hide Counts;
    forall d | d in items - {c}
      ensures Copies(items[d], all - items[c].Keys)
    {
      assert Copies(items[d], all);
    }
  }

  lemma StartKeeps(t: Contexts, counter: nat, lostTokens: int, lostItems: int, c: string, ms: nat)
    requires t.Consistent(counter, lostTokens, lostItems)
    ensures t.Start(c).Consistent(counter + 1, lostTokens, lostItems)
  {
    hide Accounted, Unshared, Owned, Issued, Tokens, GeneratedId;
    NextIsNotIssued(counter, ms);
    NoTokens();
    PutAccounted(t.items, t.tokens, c, map[], 0);
    PutUnshared(t.items, c, map[]);
    PutOwned(t.items, t.all, c, map[], t.all);
  }

  /** An item that is not in the common table is in no conversation. */
  lemma NotOwned(items: map<string, Items>, all: Items, id: string)
    requires Owned(items, all) && id !in all
    ensures forall c | c in items :: id !in items[c]
  {
    forall c | c in items
      ensures id !in items[c]
    {
      assert Copies(items[c], all);
    }
  }

  lemma AddToConversation(t: Contexts, c: string, item: ContextItem)
    requires Accounted(t.items, t.tokens) && Owned(t.items, t.all) && item.id !in t.all
    requires item.tokenCount == CountTokens(item.content) && !item.pinned
    ensures Counts(t.ItemsOf(c)[item.id := item], t.TokensOf(c) + item.tokenCount)
    ensures Copies(t.ItemsOf(c)[item.id := item], t.all[item.id := item])
  {
    hide Accounted, Owned, Tokens, CountTokens;
    ConversationOf(t, c);
    TokensPut(t.ItemsOf(c), item.id, item);
  }

  lemma AddToAll(t: Contexts, lostTokens: int, lostItems: int, c: string, item: ContextItem)
    requires Measured(t.all) && t.Totalled(lostTokens, lostItems) && item.id !in t.all
    requires item.tokenCount == CountTokens(item.content)
    ensures Measured(t.all[item.id := item]) && t.Add(c, item).Totalled(lostTokens, lostItems)
  {
    hide Tokens, CountTokens;
    TokensPut(t.all, item.id, item);
  }

  lemma AddKeeps(t: Contexts, counter: nat, lostTokens: int, lostItems: int, c: string, item: ContextItem, ms: nat)
    requires t.Consistent(counter, lostTokens, lostItems)
    requires item.id == GeneratedId(counter + 1, ms) && item.tokenCount == CountTokens(item.content) && !item.pinned
    ensures item.id !in t.all && t.Add(c, item).Consistent(counter + 1, lostTokens, lostItems)
  {
    hide Accounted, Unshared, Owned, Issued, Measured, Counts, Copies, Tokens, GeneratedId, CountTokens, Contexts.Totalled,
         Undisturbed;
    NextIsNotIssued(counter, ms);
    AddToConversation(t, c, item);
    AddToAll(t, lostTokens, lostItems, c, item);
    var part := t.ItemsOf(c)[item.id := item];
    PutAccounted(t.items, t.tokens, c, part, t.TokensOf(c) + item.tokenCount);
    NotOwned(t.items, t.all, item.id);
    OtherConversations(t, c);
    PutUnshared(t.items, c, part);
    forall d | d in t.items && d != c
      ensures Undisturbed(t.items[d], t.all, t.all[item.id := item])
    {
      AddUndisturbed(t.items[d], t.all, item);
    }
    PutOwned(t.items, t.all, c, part, t.all[item.id := item]);
  }

  lemma AddUndisturbed(part: Items, all: Items, item: ContextItem)
    requires item.id !in all
    ensures Undisturbed(part, all, all[item.id := item])
  {
  }

  lemma ConversationOf(t: Contexts, c: string)
    requires Accounted(t.items, t.tokens) && Owned(t.items, t.all)
    ensures Counts(t.ItemsOf(c), t.TokensOf(c)) && Copies(t.ItemsOf(c), t.all) && (c in t.items <==> c in t.tokens)
  {
    hide Tokens;
    NoTokens();
    assert c in t.items ==> Counts(t.items[c], t.tokens[c]) && Copies(t.items[c], t.all);
  }

  lemma OtherConversations(t: Contexts, c: string)
    requires Unshared(t.items)
    ensures forall d, id | d in t.items && d != c && id in t.items[d] :: id !in t.ItemsOf(c)
  {
  }

  lemma EndKeeps(t: Contexts, counter: nat, lostTokens: int, lostItems: int, c: string)
    requires t.Consistent(counter, lostTokens, lostItems) && c in t.items
    ensures t.End(c).Consistent(counter, lostTokens + t.TokensOf(c), lostItems + |t.items[c]|)
  {
    hide Accounted, Unshared, Owned, Issued, Tokens, CountTokens;
    ConversationOf(t, c);
    TokensWithout(t.all, t.items[c]);
    TokensNonnegative(t.items[c]);
    DropConversation(t.items, t.tokens, t.all, c);
  }

  lemma RemoveKeeps(t: Contexts, counter: nat, lostTokens: int, lostItems: int, c: string, id: string)
    requires t.Consistent(counter, lostTokens, lostItems) && id in t.ItemsOf(c)
    ensures id in t.all && c in t.tokens && t.Remove(c, id).Consistent(counter, lostTokens, lostItems)
    ensures t.tokens[c] >= t.all[id].tokenCount && t.totalTokens >= t.all[id].tokenCount
  {
    hide Accounted, Unshared, Owned, Issued, Tokens, CountTokens;
    ConversationOf(t, c);
    OtherConversations(t, c);
    var part, all := t.items[c] - {id}, t.all - {id};
    TokensPeel(t.all, id);
    TokensPeel(t.items[c], id);
    TokensNonnegative(part);
    TokensNonnegative(all);
    PutAccounted(t.items, t.tokens, c, part, t.tokens[c] - t.all[id].tokenCount);
    PutUnshared(t.items, c, part);
    PutOwned(t.items, t.all, c, part, all);
  }

  lemma RemoveStrayKeeps(t: Contexts, counter: nat, lostTokens: int, lostItems: int, id: string)
    requires t.Consistent(counter, lostTokens, lostItems) && id in t.all && forall c | c in t.items :: id !in t.items[c]
    ensures t.RemoveStray(id).Consistent(counter, lostTokens + t.all[id].tokenCount, lostItems)
  {
    hide Accounted, Unshared, Issued, Tokens, CountTokens;
    TokensPeel(t.all, id);
    forall c | c in t.items
      ensures Copies(t.items[c], t.all - {id})
    {
      assert Copies(t.items[c], t.all);
    }
  }

  lemma MarkKeeps(t: Contexts, counter: nat, lostTokens: int, lostItems: int, item: ContextItem)
    requires t.Consistent(counter, lostTokens, lostItems)
    requires item.id in t.all && item.tokenCount == t.all[item.id].tokenCount && item.content == t.all[item.id].content
    ensures t.Mark(item).Consistent(counter, lostTokens, lostItems)
  {
    hide Accounted, Unshared, Issued, Tokens, CountTokens;
    TokensPut(t.all, item.id, item);
    forall c | c in t.items
      ensures Copies(t.items[c], t.all[item.id := item])
    {
      assert Copies(t.items[c], t.all);
    }
  }

  // ---- what an operation changes, entry by entry

  /** Two maps that differ at most in one key. */
  ghost predicate SameBut<V>(m: map<string, V>, m': map<string, V>, k: string) {
    forall x | x != k :: (x in m <==> x in m') && (x in m && x in m' ==> m[x] == m'[x])
  }

  /** A counter of a conversation is about a quarter of its characters, in every consistent state. */
  lemma CountersEstimate(t: Contexts, counter: nat, lostTokens: int, lostItems: int, c: string)
    requires t.Consistent(counter, lostTokens, lostItems) && c in t.items
    ensures c in t.tokens && Characters(t.items[c]) <= 4 * t.tokens[c] <= Characters(t.items[c]) + 4 * |t.items[c]|
    ensures Characters(t.all) <= 4 * (t.totalTokens - lostTokens) <= Characters(t.all) + 4 * (t.totalItems - lostItems)
  {
    hide Accounted, Unshared, Owned, AllIssued, Tokens, CountTokens;
    ConversationOf(t, c);
    TokensEstimate(t.items[c]);
    TokensEstimate(t.all);
  }

  /** A new item is in its conversation and in the common table, and is counted in both places. */
  lemma AddEnters(t: Contexts, c: string, item: ContextItem)
    ensures var u := t.Add(c, item);
            && SameBut(t.items, u.items, c) && SameBut(t.tokens, u.tokens, c) && SameBut(t.all, u.all, item.id)
            && item.id in u.all && u.all[item.id] == item
            && c in u.items && item.id in u.items[c] && u.items[c][item.id] == item
            && SameBut(if c in t.items then t.items[c] else map[], u.items[c], item.id)
            && c in u.tokens && u.tokens[c] == item.tokenCount + (if c in t.tokens then t.tokens[c] else 0)
            && u.totalTokens == t.totalTokens + item.tokenCount && u.totalItems == t.totalItems + 1
  {
  }

  /** A conversation starts empty, and one that ends takes its items with it and no others. */
  lemma StartAndEnd(t: Contexts, c: string)
    requires c in t.items
    ensures SameBut(t.items, t.Start(c).items, c) && SameBut(t.tokens, t.Start(c).tokens, c) && t.Start(c).all == t.all
    ensures c in t.Start(c).items && t.Start(c).items[c] == map[] && c in t.Start(c).tokens && t.Start(c).tokens[c] == 0
    ensures SameBut(t.items, t.End(c).items, c) && SameBut(t.tokens, t.End(c).tokens, c)
    ensures c !in t.End(c).items && c !in t.End(c).tokens
    ensures forall id :: id in t.End(c).all <==> id in t.all && id !in t.items[c]
    ensures forall id | id in t.End(c).all :: t.End(c).all[id] == t.all[id]
    ensures t.End(c).totalTokens == t.Start(c).totalTokens == t.totalTokens
    ensures t.End(c).totalItems == t.Start(c).totalItems == t.totalItems
  {
  }

  /** Removing takes out the one item and its tokens. */
  lemma RemoveTakes(t: Contexts, c: string, id: string)
    requires c in t.items && id in t.items[c] && id in t.all && c in t.tokens
    ensures var u := t.Remove(c, id);
            && SameBut(t.items, u.items, c) && SameBut(t.tokens, u.tokens, c) && SameBut(t.all, u.all, id)
            && id !in u.all && c in u.items && id !in u.items[c] && SameBut(t.items[c], u.items[c], id)
            && c in u.tokens && u.tokens[c] == t.tokens[c] - t.all[id].tokenCount
            && u.totalTokens == t.totalTokens - t.all[id].tokenCount && u.totalItems == t.totalItems - 1
  {
  }
}
