/** The record store behind the memory cache: memory records by key, without the disk. */
module RecordStore {
  import opened Wrappers

  datatype Record = Record(id: string, key: string, value: string, category: string, tags: seq<string>,
                           createdAt: int, accessedAt: int)

  class DatabaseEngine {
    var memories: map<string, Record>

    constructor ()
      ensures memories == map[]
    {
      memories := map[];
    }

    method SaveMemory(r: Record)
      modifies this
      ensures memories == old(memories)[r.key := r]
    {
      memories := memories[r.key := r];
    }

    /** An empty category matches every record. */
    method GetMemory(key: string, category: string) returns (r: Option<Record>)
      ensures r == if key in memories && (category == "" || memories[key].category == category) then Some(memories[key]) else None
    {
      if key in memories {
        if category == "" || memories[key].category == category {
          return Some(memories[key]);
        }
      }
      return None;
    }

    method DeleteMemory(key: string) returns (erased: bool)
      modifies this
      ensures memories == old(memories) - {key} && erased == (key in old(memories))
    {
      erased := key in memories;
      memories := memories - {key};
    }

    method ClearCategory(category: string)
      modifies this
      ensures memories == map k | k in old(memories) && old(memories)[k].category != category :: old(memories)[k]
    {
      var rest := memories;
      while rest != map[]
        invariant forall k | k in rest :: k in old(memories) && rest[k] == old(memories)[k] && k in memories
        invariant forall k | k in memories :: k in old(memories) && memories[k] == old(memories)[k]
        invariant forall k | k in old(memories) && k !in rest :: k in memories <==> old(memories)[k].category != category
        decreases |rest|
      {
        var k :| k in rest;
        if rest[k].category == category {
          memories := memories - {k};
        }
        rest := rest - {k};
      }
    }
  }
}
