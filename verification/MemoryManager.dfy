/** The memory manager: a least-recently-used cache with a byte limit that writes through to the record
    store. Clock readings and fresh entry ids are inputs. */
module MemoryManagers {
  import opened Wrappers
  import opened Clock
  import opened Recency
  import opened RecordStore
  import opened MemoryCache
  import opened Sequences

  /** A session entry that has been used once only, and not for more than twenty-four whole hours. */
  predicate Expired(e: Entry, now: int) {
    Hours(now - e.accessedAt) > 24 && e.accessCount < 2 && e.category == "session"
  }

  /** Compaction drops exactly the session entries used less than twice and not for twenty-five hours. */
  lemma ExpiredAfter(e: Entry, now: int)
    ensures Expired(e, now) <==>
            e.category == "session" && e.accessCount <= 1 && now - e.accessedAt >= 25 * 3600 * 1_000_000_000
  {
    HoursTruncate(now - e.accessedAt);
  }

  function Used(e: Entry, now: int): Entry {
    e.(accessedAt := now, accessCount := e.accessCount + 1)
  }

  /** The entry after a value has been stored: a known key keeps its id, creation time and use count. */
  function Filled(entries: Entries, key: Key, value: string, category: string, tags: seq<string>,
                  now: int, freshId: string): Entry {
    var size := EntrySize(key, value, category, tags);
    if key in entries then
      entries[key].(value := value, category := category, tags := tags, accessedAt := now, size := size)
    else Entry(freshId, key, value, category, now, now, 1, size, tags)
  }

  /** A value stored under a known key replaces the content and refreshes the time of use; the entry stays the
      same entry, with its use count. Under a new key it is a new entry, used once. */
  lemma FilledHolds(entries: Entries, key: Key, value: string, category: string, tags: seq<string>, now: int, freshId: string)
    ensures var e := Filled(entries, key, value, category, tags, now, freshId);
            && e.value == value && e.category == category && e.tags == tags && e.accessedAt == now
            && e.size == |key + value + category + Joined(tags)|
            && (key in entries ==> (e.id, e.key, e.createdAt, e.accessCount) ==
                                   (entries[key].id, entries[key].key, entries[key].createdAt, entries[key].accessCount))
            && (key !in entries ==> (e.id, e.key, e.createdAt, e.accessCount) == (freshId, key, now, 1))
  {
    JoinedLength(tags);
  }

  /** A use is counted and timed, and changes nothing else. */
  lemma UsedHolds(e: Entry, now: int)
    ensures Used(e, now).accessCount == e.accessCount + 1 && Used(e, now).accessedAt == now
    ensures Used(e, now).(accessCount := e.accessCount, accessedAt := e.accessedAt) == e
  {
  }

  class MemoryManager {
    var entries: Entries
    var memoryLimit: nat
    var usage: nat
    var order: seq<Cell>
    var iterators: map<Key, int>
    var nextCell: int
    var cacheHits: nat
    var cacheMisses: nat
    const db: DatabaseEngine
    /** Every use of a key, oldest first. */
    ghost var uses: seq<Key>

    /** The recency list and its iterators belong together, the list is in order of last use, the counter
        is exact, and cached contents are those of the store. */
    ghost predicate Valid()
      reads this, db
    {
      && ListValid()
      && Sound(entries, Keys(order), usage)
      && Coherent(entries, db.memories)
    }

    ghost predicate ListValid()
      reads this
    {
      ListOk(order, iterators, nextCell, uses)
    }

    constructor (store: DatabaseEngine)
      ensures Valid() && db == store && entries == map[] && memoryLimit == 100 * 1024 * 1024
    {
      entries, memoryLimit, usage, order, iterators, nextCell := map[], 100 * 1024 * 1024, 0, [], map[], 0;
      cacheHits, cacheMisses, db, uses := 0, 0, store, [];
    }

    method RemoveAccessOrder(key: Key)
      requires ListValid()
      modifies this`order, this`iterators
      ensures ListValid() && Keys(order) == Without(old(Keys(order)), key) && key !in iterators
    {
      if key in iterators {
        EraseKeepsList(order, iterators, nextCell, uses, key);
        order := Erase(order, iterators[key]);
        iterators := iterators - {key};
      } else {
        NotListed(order, iterators, nextCell, key);
      }
    }

    method UpdateAccessOrder(key: Key)
      requires ListValid()
      modifies this`order, this`iterators, this`nextCell, this`uses
      ensures ListValid() && Keys(order) == [key] + Without(old(Keys(order)), key) && uses == old(uses) + [key]
    {
      hide ListOk;
      RemoveAccessOrder(key);
      PushKeepsList(order, iterators, nextCell, uses, key);
      order := [Cell(nextCell, key)] + order;
      iterators := iterators[key := nextCell];
      nextCell := nextCell + 1;
      uses := uses + [key];
    }

    /** Cuts the list back to its longest most-recent part that fits the limit, and drops exactly the
        entries cut off. */
    method EvictIfNeeded()
      requires ListValid() && Sound(entries, Keys(order), usage)
      modifies this`entries, this`usage, this`order, this`iterators
      ensures ListValid() && Sound(entries, Keys(order), usage) && usage <= memoryLimit
      ensures var ks := old(Keys(order)); var m := Survivors(ks, old(entries), memoryLimit);
              Keys(order) == ks[..m] && entries == Kept(old(entries), ks, m)
    {
      ghost var ks, m: nat := Keys(order), |Keys(order)|;
      EvictStart(entries, ks, usage, memoryLimit);
      assert ks[..m] == ks;
      while usage > memoryLimit && order != []
        invariant EvictionUnderWay(old(entries), ks, m)
        decreases m
      {
        m := EvictOne(old(entries), ks, m);
      }
      KeysAt(order);
      EvictDone(old(entries), ks, m, entries, usage, memoryLimit);
    }

    ghost predicate EvictionUnderWay(before: Entries, ks: seq<Key>, m: nat)
      reads this
    {
      ListValid() && Evicting(before, ks, m, entries, usage, memoryLimit) && Keys(order) == ks[..m]
    }

    /** One turn of the eviction loop: the least recently used key goes, with its entry and its size. */
    method EvictOne(ghost before: Entries, ghost ks: seq<Key>, ghost m: nat) returns (ghost m': nat)
      requires EvictionUnderWay(before, ks, m) && usage > memoryLimit && order != []
      modifies this`entries, this`usage, this`order, this`iterators
      ensures m' == m - 1 && EvictionUnderWay(before, ks, m')
    {
      hide ListOk, Sound, Kept;
      KeysAt(order);
      EvictTurn(before, ks, m, entries, usage, memoryLimit);
      m' := m - 1;
      var lruKey := DropLast();
      LastOfPrefix(ks, m, Keys(order), lruKey);
      if lruKey in entries {
        usage := usage - entries[lruKey].size;
        entries := entries - {lruKey};
      }
    }

    static lemma LastOfPrefix(ks: seq<Key>, m: nat, left: seq<Key>, k: Key)
      requires 0 < m <= |ks| && ks[..m] == left + [k]
      ensures left == ks[..m - 1] && k == ks[m - 1]
    {
      assert ks[..m][..m - 1] == ks[..m - 1] && (left + [k])[..|left|] == left;
    }

    method DropLast() returns (key: Key)
      requires ListValid() && order != []
      modifies this`order, this`iterators
      ensures ListValid() && old(Keys(order)) == Keys(order) + [key]
    {
      hide ListOk;
      key := order[|order| - 1].key;
      PopKeepsList(order, iterators, nextCell, uses);
      order := order[..|order| - 1];
      iterators := iterators - {key};
    }

    /** Puts an entry into the cache, at the front of the list, without looking at the limit. */
    method Put(key: Key, value: string, category: string, tags: seq<string>, now: int, freshId: string)
      requires ListValid() && Sound(entries, Keys(order), usage)
      modifies this`entries, this`usage, this`order, this`iterators, this`nextCell, this`uses
      ensures ListValid() && Sound(entries, Keys(order), usage) && uses == old(uses) + [key]
      ensures Keys(order) == [key] + Without(old(Keys(order)), key)
      ensures entries == old(entries)[key := Filled(old(entries), key, value, category, tags, now, freshId)]
    {
      hide ListOk, Sound;
      var entrySize := EntrySize(key, value, category, tags);
      ghost var filled := Filled(entries, key, value, category, tags, now, freshId);
      StoreSound(entries, Keys(order), usage, key, filled);
      if key in entries {
        usage := usage - entries[key].size;
        entries := entries[key := entries[key].(value := value, category := category, tags := tags, accessedAt := now, size := entrySize)];
        usage := usage + entrySize;
        UpdateAccessOrder(key);
      } else {
        entries := entries[key := Entry(freshId, key, value, category, now, now, 1, entrySize, tags)];
        usage := usage + entrySize;
        UpdateAccessOrder(key);
      }
    }

    /** Stores a value and writes its record through. */
    method Store(key: Key, value: string, category: string, tags: seq<string>, now: int, freshId: string)
      requires Valid()
      modifies this`entries, this`usage, this`order, this`iterators, this`nextCell, this`uses, db
      ensures Valid() && usage == TextTotal(entries) <= memoryLimit && uses == old(uses) + [key]
      ensures Stored(old(entries), old(Keys(order)), memoryLimit, key,
                     Filled(old(entries), key, value, category, tags, now, freshId), entries, Keys(order))
      ensures key in entries
      ensures db.memories == old(db.memories)[key := Record(entries[key].id, key, value, category, tags, now, now)]
    {
      hide ListOk, Sound, Coherent, Stored, Kept, Survivors;
      ghost var filled := Filled(entries, key, value, category, tags, now, freshId);
      SoundDistinct(entries, Keys(order), usage);
      ghost var ks := [key] + Without(Keys(order), key);
      ghost var all := entries[key := filled];
      ghost var m := Survivors(ks, all, memoryLimit);
      StoredByEviction(entries, Keys(order), memoryLimit, key, filled);
      EvictedCoherent(entries, db.memories, ks, m, key, filled);
      Put(key, value, category, tags, now, freshId);
      EvictIfNeeded();
      WriteThrough(key, value, category, tags, now);
      CounterIsText(entries, Keys(order), usage);
    }

    method WriteThrough(key: Key, value: string, category: string, tags: seq<string>, now: int)
      requires ListValid() && Sound(entries, Keys(order), usage) && Coherent(entries - {key}, db.memories)
      requires key in entries ==> entries[key].value == value && entries[key].category == category && entries[key].tags == tags
      modifies this`entries, db
      ensures Valid()
      ensures entries == if key in old(entries) then old(entries) else old(entries)[key := BLANK]
      ensures db.memories == old(db.memories)[key := Record(entries[key].id, key, value, category, tags, now, now)]
    {
      hide ListOk, Sound;
      if key !in entries {
        BlankSound(entries, Keys(order), usage, key);
        assert entries[key := BLANK] - {key} == entries - {key};
        entries := entries[key := BLANK];
      }
      WriteCoherent(entries, db.memories, key, Record(entries[key].id, key, value, category, tags, now, now));
      db.SaveMemory(Record(entries[key].id, key, value, category, tags, now, now));
    }

    /** The bookkeeping of a cache hit. */
    method Use(key: Key, now: int)
      requires Valid() && key in entries
      modifies this`entries, this`order, this`iterators, this`nextCell, this`uses
      ensures Valid() && uses == old(uses) + [key]
      ensures Keys(order) == [key] + Without(old(Keys(order)), key)
      ensures entries == old(entries)[key := Used(old(entries)[key], now)]
    {
      hide ListOk, Sound, Coherent;
      UsedSound(entries, Keys(order), usage, key, Used(entries[key], now), db.memories);
      entries := entries[key := entries[key].(accessedAt := now, accessCount := entries[key].accessCount + 1)];
      UpdateAccessOrder(key);
    }

    /** A hit moves the key to the front; a hit on an entry that is not blank returns what the record store
        holds for the key. */
    method Retrieve(key: Key, now: int) returns (r: Option<string>)
      requires Valid()
      modifies this`entries, this`order, this`iterators, this`nextCell, this`uses, this`cacheHits, this`cacheMisses
      ensures Valid()
      ensures r == if key in old(entries) then Some(old(entries)[key].value) else None
      ensures r.Some? && !Hollow(old(entries)[key]) ==> key in db.memories && r.value == db.memories[key].value
      ensures Keys(order) == if r.Some? then [key] + Without(old(Keys(order)), key) else old(Keys(order))
      ensures entries == if r.Some? then old(entries)[key := Used(old(entries)[key], now)] else old(entries)
      ensures cacheHits + cacheMisses == old(cacheHits + cacheMisses) + 1 && cacheHits == old(cacheHits) + if r.Some? then 1 else 0
    {
      if key in entries {
        cacheHits := cacheHits + 1;
        Use(key, now);
        return Some(entries[key].value);
      }
      cacheMisses := cacheMisses + 1;
      return None;
    }

    method RetrieveFrom(key: Key, category: string, now: int) returns (r: Option<string>)
      requires Valid()
      modifies this`entries, this`order, this`iterators, this`nextCell, this`uses, this`cacheHits, this`cacheMisses
      ensures Valid()
      ensures r == if key in old(entries) && old(entries)[key].category == category then Some(old(entries)[key].value) else None
      ensures r.Some? && !Hollow(old(entries)[key]) ==>
                key in db.memories && r.value == db.memories[key].value && db.memories[key].category == category
      ensures Keys(order) == if r.Some? then [key] + Without(old(Keys(order)), key) else old(Keys(order))
      ensures entries == if r.Some? then old(entries)[key := Used(old(entries)[key], now)] else old(entries)
    {
      if key in entries && entries[key].category == category {
        cacheHits := cacheHits + 1;
        Use(key, now);
        return Some(entries[key].value);
      }
      cacheMisses := cacheMisses + 1;
      return None;
    }

    method Touch(key: Key, now: int)
      requires Valid()
      modifies this`entries, this`order, this`iterators, this`nextCell, this`uses
      ensures Valid()
      ensures Keys(order) == if key in old(entries) then [key] + Without(old(Keys(order)), key) else old(Keys(order))
      ensures entries == if key in old(entries) then old(entries)[key := Used(old(entries)[key], now)] else old(entries)
    {
      if key in entries {
        Use(key, now);
      }
    }

    /** Only a cached key is removed, from the cache and from the store. */
    method Remove(key: Key) returns (ok: bool)
      requires Valid()
      modifies this`entries, this`usage, this`order, this`iterators, db
      ensures Valid() && ok == (key in old(entries))
      ensures entries == old(entries) - {key} && Keys(order) == Without(old(Keys(order)), key)
      ensures db.memories == if ok then old(db.memories) - {key} else old(db.memories)
    {
      hide ListOk, Sound;
      if key in entries {
        Drop(key);
        var erased := db.DeleteMemory(key);
        return true;
      }
      SoundListed(entries, Keys(order), usage);
      WithoutNone(Keys(order), key);
      return false;
    }

    /** Takes one entry out of the cache, leaving the store alone. */
    method Drop(key: Key)
      requires Valid() && key in entries
      modifies this`entries, this`usage, this`order, this`iterators
      ensures Valid() && entries == old(entries) - {key} && Keys(order) == Without(old(Keys(order)), key)
    {
      hide ListOk, Sound;
      RemoveSound(entries, Keys(order), usage, key);
      usage := usage - entries[key].size;
      RemoveAccessOrder(key);
      entries := entries - {key};
    }

    method DropAll(doomed: seq<Key>)
      requires Valid()
      modifies this`entries, this`usage, this`order, this`iterators
      ensures Valid()
      ensures entries == map k | k in old(entries) && k !in doomed :: old(entries)[k]
      ensures forall k :: k in Keys(order) <==> k in old(Keys(order)) && k !in doomed
    {
      hide ListOk, Coherent;
      assert doomed[..0] == [];
      for i := 0 to |doomed|
        invariant Valid()
        invariant entries == map k | k in old(entries) && k !in doomed[..i] :: old(entries)[k]
        invariant forall k :: k in Keys(order) <==> k in old(Keys(order)) && k !in doomed[..i]
      {
        assert doomed[..i + 1] == doomed[..i] + [doomed[i]];
        SoundDistinct(entries, Keys(order), usage);
        WithoutShape(Keys(order), doomed[i]);
        if doomed[i] in entries {
          Drop(doomed[i]);
        }
      }
      assert doomed[..|doomed|] == doomed;
    }

    static method KeysOf(entries: Entries, category: string) returns (keys: seq<Key>)
      ensures forall k :: k in keys <==> k in entries && entries[k].category == category
    {
      keys := [];
      var rest := entries;
      while rest != map[]
        invariant forall k | k in rest :: k in entries && rest[k] == entries[k]
        invariant forall k :: k in keys <==> k in entries && k !in rest && entries[k].category == category
        decreases |rest|
      {
        var k :| k in rest;
        if rest[k].category == category {
          keys := keys + [k];
        }
        rest := rest - {k};
      }
    }

    static method ExpiredKeys(entries: Entries, now: int) returns (keys: seq<Key>)
      ensures forall k :: k in keys <==> k in entries && Expired(entries[k], now)
    {
      hide Expired;
      keys := [];
      var rest := entries;
      while rest != map[]
        invariant forall k | k in rest :: k in entries && rest[k] == entries[k]
        invariant forall k :: k in keys <==> k in entries && k !in rest && Expired(entries[k], now)
        decreases |rest|
      {
        var k :| k in rest;
        if Expired(rest[k], now) {
          keys := keys + [k];
        }
        rest := rest - {k};
      }
    }

    /** The category goes from the cache and from the store; the rest of the list keeps its order of use. */
    method ClearCategory(category: string)
      requires Valid()
      modifies this`entries, this`usage, this`order, this`iterators, db
      ensures Valid()
      ensures entries == map k | k in old(entries) && old(entries)[k].category != category :: old(entries)[k]
      ensures db.memories == map k | k in old(db.memories) && old(db.memories)[k].category != category :: old(db.memories)[k]
      ensures forall k :: k in Keys(order) <==> k in old(Keys(order)) && k in entries
    {
      hide ListOk, Keys;
      SoundListed(entries, Keys(order), usage);
      var doomed := KeysOf(entries, category);
      DropAll(doomed);
      db.ClearCategory(category);
    }

    method Compact(now: int)
      requires Valid()
      modifies this`entries, this`usage, this`order, this`iterators
      ensures Valid()
      ensures entries == map k | k in old(entries) && !Expired(old(entries)[k], now) :: old(entries)[k]
      ensures forall k :: k in Keys(order) <==> k in old(Keys(order)) && k in entries
    {
      hide ListOk, Sound, Coherent, Keys;
      SoundListed(entries, Keys(order), usage);
      var doomed := ExpiredKeys(entries, now);
      DropAll(doomed);
    }

    method SetMemoryLimit(limit: nat)
      requires Valid()
      modifies this`memoryLimit, this`entries, this`usage, this`order, this`iterators
      ensures Valid() && memoryLimit == limit && usage <= limit
      ensures var ks := old(Keys(order)); var m := Survivors(ks, old(entries), limit);
              Keys(order) == ks[..m] && entries == Kept(old(entries), ks, m)
    {
      memoryLimit := limit;
      ghost var ks, before := Keys(order), entries;
      EvictIfNeeded();
      KeptCoherent(before, ks, Survivors(ks, before, limit), db.memories);
    }

    method GetMemoryUsage() returns (bytes: nat)
      requires Valid()
      ensures bytes == SizeOfAll(entries) == TextTotal(entries)
    {
      CounterIsSum(entries, Keys(order), usage);
      CounterIsText(entries, Keys(order), usage);
      return usage;
    }
  }
}
