/** The contents of the memory cache as values: entries, what makes them sound with respect to the recency
    list and the byte counter, and coherent with the record store. */
module MemoryCache {
  import opened Recency
  import opened RecordStore
  import opened Sequences

  datatype Entry = Entry(id: string, key: string, value: string, category: string, createdAt: int, accessedAt: int,
                         accessCount: int, size: nat, tags: seq<string>)

  /** A default-constructed entry. */
  const BLANK := Entry("", "", "", "", 0, 0, 0, 0, [])

  type Entries = map<Key, Entry>

  function TagsLength(tags: seq<string>): nat {
    if tags == [] then 0 else TagsLength(tags[..|tags| - 1]) + |tags[|tags| - 1]|
  }

  function EntrySize(key: string, value: string, category: string, tags: seq<string>): nat {
    |key| + |value| + |category| + TagsLength(tags)
  }

  function SizeOf(entries: Entries, k: Key): nat {
    if k in entries then entries[k].size else 0
  }

  /** The sizes of the listed keys, added up. */
  function Total(ks: seq<Key>, entries: Entries): nat {
    if ks == [] then 0 else Total(ks[..|ks| - 1], entries) + SizeOf(entries, ks[|ks| - 1])
  }

  /** An entry without content: what is left in the cache when a value too large for the limit has been
      stored. */
  predicate Hollow(e: Entry) {
    e.value == "" && e.category == "" && e.tags == [] && e.size == 0
  }

  predicate Measured(k: Key, e: Entry) {
    Hollow(e) || e.size == EntrySize(k, e.value, e.category, e.tags)
  }

  /** Listed keys are cached, once each; entries outside the list are hollow; the counter is the sum of
      the sizes; every size is that of the entry's content. */
  predicate Sound(entries: Entries, ks: seq<Key>, usage: int) {
    && Distinct(ks)
    && (forall k | k in ks :: k in entries)
    && (forall k | k in entries && k !in ks :: Hollow(entries[k]))
    && (forall k | k in entries :: Measured(k, entries[k]))
    && usage == Total(ks, entries)
  }

  predicate Agrees(r: Record, e: Entry) {
    r.value == e.value && r.category == e.category && r.tags == e.tags
  }

  predicate Coherent(entries: Entries, memories: map<string, Record>) {
    forall k | k in entries :: Hollow(entries[k]) || (k in memories && Agrees(memories[k], entries[k]))
  }

  // ---- totals

  lemma {:induction false} TotalAppend(a: seq<Key>, b: seq<Key>, entries: Entries)
    ensures Total(a + b, entries) == Total(a, entries) + Total(b, entries)
  {
    if b == [] {
      assert a + b == a;
    } else {
      assert (a + b)[..|a + b| - 1] == a + b[..|b| - 1];
      TotalAppend(a, b[..|b| - 1], entries);
    }
  }

  lemma TotalFront(k: Key, ks: seq<Key>, entries: Entries)
    ensures Total([k] + ks, entries) == SizeOf(entries, k) + Total(ks, entries)
  {
    TotalAppend([k], ks, entries);
    assert [k][..0] == [];
  }

  lemma {:induction false} TotalSame(ks: seq<Key>, e1: Entries, e2: Entries)
    requires forall i | 0 <= i < |ks| :: SizeOf(e1, ks[i]) == SizeOf(e2, ks[i])
    ensures Total(ks, e1) == Total(ks, e2)
  {
    if ks == [] {
    } else {
      TotalSame(ks[..|ks| - 1], e1, e2);
    }
  }

  /** Taking one key out of a duplicate-free list takes its size out of the total. */
  lemma TotalWithout(ks: seq<Key>, k: Key, entries: Entries)
    requires Distinct(ks) && k in ks
    ensures Total(ks, entries) == Total(Without(ks, k), entries) + SizeOf(entries, k)
  {
    hide Total, Without, SizeOf;
    var at :| 0 <= at < |ks| && ks[at] == k;
    WithoutAt(ks, at);
    var a, b := ks[..at], ks[at + 1..];
    assert ks == a + ([k] + b);
    TotalAppend(a, [k] + b, entries);
    TotalFront(k, b, entries);
    TotalAppend(a, b, entries);
  }

  // ---- the counter is the sum over all entries

  ghost function SizeOfAll(entries: Entries): nat
    decreases |entries|
  {
    if entries == map[] then 0
    else
      var k :| k in entries;
      entries[k].size + SizeOfAll(entries - {k})
  }

  lemma {:induction false} SizeOfAllHollow(entries: Entries)
    requires forall k | k in entries :: entries[k].size == 0
    ensures SizeOfAll(entries) == 0
    decreases |entries|
  {
    if entries == map[] {
    } else {
      var k :| k in entries && SizeOfAll(entries) == entries[k].size + SizeOfAll(entries - {k});
      SizeOfAllHollow(entries - {k});
    }
  }

  lemma {:induction false} SizeOfAllPeel(entries: Entries, k: Key)
    requires k in entries
    ensures SizeOfAll(entries) == entries[k].size + SizeOfAll(entries - {k})
    decreases |entries|
  {
    var c :| c in entries && SizeOfAll(entries) == entries[c].size + SizeOfAll(entries - {c});
    if c == k {
    } else {
      SizeOfAllPeel(entries - {c}, k);
      SizeOfAllPeel(entries - {k}, c);
      assert entries - {c} - {k} == entries - {k} - {c};
    }
  }

  lemma {:induction false} CounterIsSum(entries: Entries, ks: seq<Key>, usage: int)
    requires Sound(entries, ks, usage)
    ensures usage == SizeOfAll(entries)
    decreases |ks|
  {
    if ks == [] {
      SizeOfAllHollow(entries);
    } else {
      var k := ks[|ks| - 1];
      EvictLast(entries, ks, usage);
      CounterIsSum(entries - {k}, ks[..|ks| - 1], usage - entries[k].size);
      SizeOfAllPeel(entries, k);
    }
  }

  // ---- what a size counts

  function Joined(tags: seq<string>): string {
    if tags == [] then "" else Joined(tags[..|tags| - 1]) + tags[|tags| - 1]
  }

  /** Everything an entry holds, written one after another. */
  function TextOf(k: Key, e: Entry): string {
    k + e.value + e.category + Joined(e.tags)
  }

  lemma {:induction false} JoinedLength(tags: seq<string>)
    ensures TagsLength(tags) == |Joined(tags)|
  {
    if tags == [] {
    } else {
      JoinedLength(tags[..|tags| - 1]);
    }
  }

  /** The size of an entry that is not blank is the length of all its text. */
  lemma SizeIsTextLength(entries: Entries, ks: seq<Key>, usage: int, k: Key)
    requires Sound(entries, ks, usage) && k in entries && !Hollow(entries[k])
    ensures entries[k].size == |TextOf(k, entries[k])|
  {
    JoinedLength(entries[k].tags);
  }

  /** The length of all text that is cached. */
  ghost function TextTotal(entries: Entries): nat
    decreases |entries|
  {
    if entries == map[] then 0
    else
      var k :| k in entries;
      (if Hollow(entries[k]) then 0 else |TextOf(k, entries[k])|) + TextTotal(entries - {k})
  }

  lemma {:induction false} SizesAreLengths(entries: Entries)
    requires forall k | k in entries :: Measured(k, entries[k])
    ensures SizeOfAll(entries) == TextTotal(entries)
    decreases |entries|
  {
    hide TextOf, TagsLength;
    if entries == map[] {
    } else {
      var k :| k in entries &&
               TextTotal(entries) == (if Hollow(entries[k]) then 0 else |TextOf(k, entries[k])|) + TextTotal(entries - {k});
      SizeOfAllPeel(entries, k);
      MeasuredLength(k, entries[k]);
      SizesAreLengths(entries - {k});
    }
  }

  lemma MeasuredLength(k: Key, e: Entry)
    requires Measured(k, e)
    ensures e.size == if Hollow(e) then 0 else |TextOf(k, e)|
  {
    JoinedLength(e.tags);
  }

  /** The counter is the length of all text that is cached. */
  lemma CounterIsText(entries: Entries, ks: seq<Key>, usage: int)
    requires Sound(entries, ks, usage)
    ensures usage == TextTotal(entries)
  {
    CounterIsSum(entries, ks, usage);
    SizesAreLengths(entries);
  }

  /** A cached entry that is not blank and the record of its key hold the same value, category and tags. */
  lemma CachedIsStored(entries: Entries, memories: map<string, Record>, k: Key)
    requires Coherent(entries, memories) && k in entries && entries[k].size > 0
    ensures k in memories && memories[k].value == entries[k].value
    ensures memories[k].category == entries[k].category && memories[k].tags == entries[k].tags
  {
  }

  // ---- what each operation keeps

  lemma SoundListed(entries: Entries, ks: seq<Key>, usage: int)
    requires Sound(entries, ks, usage)
    ensures forall k | k in ks :: k in entries
  {
  }

  lemma SoundDistinct(entries: Entries, ks: seq<Key>, usage: int)
    requires Sound(entries, ks, usage)
    ensures Distinct(ks)
  {
  }

  /** Using a cached key moves it to the front; a hollow entry outside the list comes back into it. */
  lemma UseSound(entries: Entries, ks: seq<Key>, usage: int, k: Key)
    requires Sound(entries, ks, usage) && k in entries
    ensures Sound(entries, [k] + Without(ks, k), usage)
  {
    WithoutShape(ks, k);
    TotalFront(k, Without(ks, k), entries);
    if k in ks {
      TotalWithout(ks, k, entries);
    } else {
      WithoutNone(ks, k);
    }
  }

  lemma {:induction false} WithoutHolds(ks: seq<Key>, k: Key, c: Key)
    ensures c in Without(ks, k) <==> c in ks && c != k
  {
    if ks == [] {
    } else {
      var most, last := ks[..|ks| - 1], ks[|ks| - 1];
      WithoutHolds(most, k, c);
      assert ks == most + [last];
      assert Without(ks, k) == Without(most, k) + (if last == k then [] else [last]);
    }
  }

  lemma {:induction false} WithoutDistinct(ks: seq<Key>, k: Key)
    requires Distinct(ks)
    ensures Distinct(Without(ks, k))
  {
    if ks == [] {
    } else {
      var most, last := ks[..|ks| - 1], ks[|ks| - 1];
      WithoutDistinct(most, k);
      WithoutHolds(most, k, last);
      assert last !in most;
    }
  }

  lemma WithoutShape(ks: seq<Key>, k: Key)
    requires Distinct(ks)
    ensures Distinct([k] + Without(ks, k)) && Distinct(Without(ks, k))
    ensures forall c :: c in Without(ks, k) <==> c in ks && c != k
  {
    hide Without;
    WithoutDistinct(ks, k);
    forall c
      ensures c in Without(ks, k) <==> c in ks && c != k
    {
      WithoutHolds(ks, k, c);
    }
    FrontDistinct(k, Without(ks, k));
  }

  lemma FrontDistinct(k: Key, rest: seq<Key>)
    requires Distinct(rest) && k !in rest
    ensures Distinct([k] + rest)
  {
    var all := [k] + rest;
    forall i, j | 0 <= i < j < |all|
      ensures all[i] != all[j]
    {
      if i > 0 {
        assert rest[i - 1] != rest[j - 1];
      } else {
        assert all[j] == rest[j - 1];
      }
    }
  }

  /** Changing an entry but not its size. */
  lemma ChangeSound(entries: Entries, ks: seq<Key>, usage: int, k: Key, e: Entry)
    requires Sound(entries, ks, usage) && k in entries
    requires e.size == entries[k].size && Measured(k, e) && (Hollow(entries[k]) ==> Hollow(e))
    ensures Sound(entries[k := e], ks, usage)
  {
    TotalSame(ks, entries, entries[k := e]);
  }

  /** Taking an entry out, with its size; the counter does not underflow. */
  lemma RemoveSound(entries: Entries, ks: seq<Key>, usage: int, k: Key)
    requires Sound(entries, ks, usage) && k in entries
    ensures usage >= entries[k].size
    ensures Sound(entries - {k}, Without(ks, k), usage - entries[k].size)
  {
    WithoutShape(ks, k);
    if k in ks {
      TotalWithout(ks, k, entries);
    } else {
      WithoutNone(ks, k);
    }
    TotalSame(Without(ks, k), entries, entries - {k});
  }

  /** Adding an entry in front. */
  lemma AddSound(entries: Entries, ks: seq<Key>, usage: int, k: Key, e: Entry)
    requires Sound(entries, ks, usage) && k !in entries && Measured(k, e)
    ensures Sound(entries[k := e], [k] + ks, usage + e.size)
  {
    TotalSame(ks, entries, entries[k := e]);
    TotalFront(k, ks, entries[k := e]);
  }

  lemma EvictLast(entries: Entries, ks: seq<Key>, usage: int)
    requires Sound(entries, ks, usage) && ks != []
    ensures var k := ks[|ks| - 1];
            usage >= entries[k].size && Sound(entries - {k}, ks[..|ks| - 1], usage - entries[k].size)
  {
    RemoveSound(entries, ks, usage, ks[|ks| - 1]);
    WithoutAt(ks, |ks| - 1);
    assert ks[..|ks| - 1] + ks[|ks| - 1 + 1..] == ks[..|ks| - 1];
  }

  // ---- eviction as a function

  /** Eviction keeps the longest most-recent part whose sizes fit the limit. */
  function Survivors(ks: seq<Key>, entries: Entries, limit: nat): (m: nat)
    ensures m <= |ks|
  {
    if Total(ks, entries) <= limit then |ks| else Survivors(ks[..|ks| - 1], entries, limit)
  }

  /** What eviction leaves fits the limit, and one more key would not have fitted. */
  lemma {:induction false} SurvivorsMost(ks: seq<Key>, entries: Entries, limit: nat)
    ensures Total(ks[..Survivors(ks, entries, limit)], entries) <= limit
    ensures forall n | Survivors(ks, entries, limit) < n <= |ks| :: Total(ks[..n], entries) > limit
  {
    var m := Survivors(ks, entries, limit);
    assert ks[..|ks|] == ks;
    if Total(ks, entries) <= limit {
    } else {
      var most := ks[..|ks| - 1];
      SurvivorsMost(most, entries, limit);
      assert most[..m] == ks[..m];
      forall n | m < n <= |ks|
        ensures Total(ks[..n], entries) > limit
      {
        if n < |ks| {
          assert most[..n] == ks[..n];
        }
      }
    }
  }

  /** The entries left when the list is cut back to its first m keys. */
  function Kept(entries: Entries, ks: seq<Key>, m: nat): Entries
    requires m <= |ks|
  {
    map k | k in entries && k !in ks[m..] :: entries[k]
  }

  lemma KeptStep(entries: Entries, ks: seq<Key>, m: nat)
    requires Distinct(ks) && 0 < m <= |ks| && forall k | k in ks :: k in entries
    ensures Kept(entries, ks, m - 1) == Kept(entries, ks, m) - {ks[m - 1]}
    ensures ks[m - 1] in Kept(entries, ks, m)
  {
    assert ks[m - 1..] == [ks[m - 1]] + ks[m..];
    assert ks[m - 1] !in ks[m..];
  }

  /** Eviction under way: the list `ks` has been cut back to its first m keys. */
  predicate Evicting(before: Entries, ks: seq<Key>, m: nat, entries: Entries, usage: int, limit: nat) {
    && m <= |ks| && Distinct(ks) && (forall k | k in ks :: k in before)
    && entries == Kept(before, ks, m) && Sound(entries, ks[..m], usage)
    && usage == Total(ks[..m], before)
    && Survivors(ks[..m], before, limit) == Survivors(ks, before, limit)
  }

  lemma EvictStart(before: Entries, ks: seq<Key>, usage: int, limit: nat)
    requires Sound(before, ks, usage)
    ensures Evicting(before, ks, |ks|, before, usage, limit)
  {
    assert ks[..|ks|] == ks;
  }

  lemma EvictTurn(before: Entries, ks: seq<Key>, m: nat, entries: Entries, usage: int, limit: nat)
    requires Evicting(before, ks, m, entries, usage, limit) && m > 0 && usage > limit
    ensures var k := ks[m - 1];
            k in entries && usage >= entries[k].size && Evicting(before, ks, m - 1, entries - {k}, usage - entries[k].size, limit)
  {
    KeptStep(before, ks, m);
    EvictLast(entries, ks[..m], usage);
    assert ks[..m][..m - 1] == ks[..m - 1];
  }

  lemma EvictDone(before: Entries, ks: seq<Key>, m: nat, entries: Entries, usage: int, limit: nat)
    requires Evicting(before, ks, m, entries, usage, limit) && (m == 0 || usage <= limit)
    ensures m == Survivors(ks, before, limit) && usage <= limit
  {
  }

  // ---- storing

  /** Replacing or adding an entry and moving its key to the front. */
  lemma StoreSound(entries: Entries, ks: seq<Key>, usage: int, k: Key, e: Entry)
    requires Sound(entries, ks, usage) && Measured(k, e)
    ensures var gone := if k in entries then entries[k].size else 0;
            usage >= gone && Sound(entries[k := e], [k] + Without(ks, k), usage - gone + e.size)
  {
    if k in entries {
      RemoveSound(entries, ks, usage, k);
      AddSound(entries - {k}, Without(ks, k), usage - entries[k].size, k, e);
      assert (entries - {k})[k := e] == entries[k := e];
    } else {
      WithoutNone(ks, k);
      AddSound(entries, ks, usage, k, e);
    }
  }

  /** The key in front survives eviction exactly when its own size fits the limit; otherwise nothing
      listed survives. */
  lemma FrontSurvives(k: Key, ks: seq<Key>, entries: Entries, limit: nat)
    ensures Survivors([k] + ks, entries, limit) > 0 <==> SizeOf(entries, k) <= limit
  {
    var all := [k] + ks;
    SurvivorsMost(all, entries, limit);
    assert all[..1] == [k] + [] && Total([], entries) == 0;
    TotalFront(k, [], entries);
    var m := Survivors(all, entries, limit);
    if m > 0 {
      assert all[..m] == [k] + ks[..m - 1];
      TotalFront(k, ks[..m - 1], entries);
    }
  }

  lemma KeptCoherent(entries: Entries, ks: seq<Key>, m: nat, memories: map<string, Record>)
    requires Coherent(entries, memories) && m <= |ks|
    ensures Coherent(Kept(entries, ks, m), memories)
  {
  }

  /** What storing entry `e` under key `k` makes of the cache: the key moves to the front, the least recently
      used keys make room, and the entry stays exactly if its own size fits; otherwise nothing listed stays,
      and a blank entry takes its place. */
  predicate Stored(before: Entries, ks0: seq<Key>, limit: nat, k: Key, e: Entry, after: Entries, ks': seq<Key>) {
    var all, ks := before[k := e], [k] + Without(ks0, k);
    var m := Survivors(ks, all, limit);
    && ks' == ks[..m]
    && after == (if e.size <= limit then Kept(all, ks, m) else Kept(all, ks, m)[k := BLANK])
  }

  lemma FrontKept(k: Key, w: seq<Key>, m: nat)
    requires Distinct([k] + w) && m <= |w| + 1
    ensures k in ([k] + w)[m..] <==> m == 0
  {
    var ks := [k] + w;
    if m == 0 {
      assert ks[m..][0] == k;
    } else {
      assert forall i | m <= i < |ks| :: ks[i] != ks[0];
    }
  }

  /** The key just stored is never evicted when its own size fits. */
  lemma StoredStays(before: Entries, ks0: seq<Key>, limit: nat, k: Key, e: Entry, after: Entries, ks': seq<Key>)
    requires Distinct(ks0) && Stored(before, ks0, limit, k, e, after, ks')
    ensures k in after
    ensures e.size <= limit ==> after[k] == e && ks' != [] && ks'[0] == k
    ensures e.size > limit ==> after[k] == BLANK && ks' == []
  {
    WithoutShape(ks0, k);
    FrontSurvives(k, Without(ks0, k), before[k := e], limit);
    FrontKept(k, Without(ks0, k), Survivors([k] + Without(ks0, k), before[k := e], limit));
  }

  /** The cut list after storing, before anything is written through. */
  lemma StoredByEviction(before: Entries, ks0: seq<Key>, limit: nat, k: Key, e: Entry)
    requires Distinct(ks0)
    ensures var all, ks := before[k := e], [k] + Without(ks0, k);
            var left := Kept(all, ks, Survivors(ks, all, limit));
            && (k in left <==> e.size <= limit) && (k in left ==> left[k] == e)
            && Stored(before, ks0, limit, k, e, if k in left then left else left[k := BLANK], ks[..Survivors(ks, all, limit)])
  {
    WithoutShape(ks0, k);
    FrontSurvives(k, Without(ks0, k), before[k := e], limit);
    FrontKept(k, Without(ks0, k), Survivors([k] + Without(ks0, k), before[k := e], limit));
  }

  /** After storing, cache and store agree on the key exactly if the value fitted or is itself blank. */
  lemma StoredAgrees(before: Entries, ks0: seq<Key>, limit: nat, k: Key, e: Entry, after: Entries, ks': seq<Key>, r: Record)
    requires Distinct(ks0) && Stored(before, ks0, limit, k, e, after, ks') && Agrees(r, e)
    ensures k in after
    ensures Agrees(r, after[k]) <==> e.size <= limit || (e.value == "" && e.category == "" && e.tags == [])
  {
    StoredStays(before, ks0, limit, k, e, after, ks');
  }

  /** Eviction takes nothing from the agreement on the other keys. */
  lemma EvictedCoherent(before: Entries, memories: map<string, Record>, ks: seq<Key>, m: nat, k: Key, e: Entry)
    requires Coherent(before, memories) && m <= |ks|
    ensures Coherent(Kept(before[k := e], ks, m) - {k}, memories)
  {
  }

  /** An entry that does not fit comes back as a blank one, outside the list. */
  lemma BlankSound(entries: Entries, ks: seq<Key>, usage: int, k: Key)
    requires Sound(entries, ks, usage) && k !in entries
    ensures Sound(entries[k := BLANK], ks, usage)
  {
    TotalSame(ks, entries, entries[k := BLANK]);
  }

  /** Writing a record through restores coherence, if it agrees with what is cached under its key. */
  lemma WriteCoherent(entries: Entries, memories: map<string, Record>, k: Key, r: Record)
    requires Coherent(entries - {k}, memories)
    requires k in entries ==> Hollow(entries[k]) || Agrees(r, entries[k])
    ensures Coherent(entries, memories[k := r])
  {
    assert forall c | c in entries && c != k :: c in entries - {k};
  }

  /** Using an entry changes neither its content nor its size. */
  lemma UsedSound(entries: Entries, ks: seq<Key>, usage: int, k: Key, e: Entry, memories: map<string, Record>)
    requires Sound(entries, ks, usage) && Coherent(entries, memories) && k in entries
    requires e.value == entries[k].value && e.category == entries[k].category && e.tags == entries[k].tags
    requires e.size == entries[k].size
    ensures Sound(entries[k := e], [k] + Without(ks, k), usage) && Coherent(entries[k := e], memories)
  {
    ChangeSound(entries, ks, usage, k, e);
    UseSound(entries[k := e], ks, usage, k);
  }
}
