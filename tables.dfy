/** The JSON objects of the catalog document as Python dicts keyed by id:
    the entries and the order in which their keys were first inserted, which
    is the order in which `for ... in d.values()` visits them. */
module Tables {
  import opened Common
  import IdLists

  datatype Table<V> = Table(keys: seq<string>, entries: map<string, V>) {

    /** Each key is listed once, and the listed keys are exactly the keys of the entries. */
    ghost predicate Valid() {
      IdLists.NoDuplicates(keys) && (forall k :: k in keys <==> k in entries)
    }

    /** `d.get(k)`. */
    function Get(k: string): (r: Option<V>)
      ensures r.Some? <==> k in entries
      ensures r.Some? ==> r.value == entries[k]
    {
      if k in entries then Some(entries[k]) else None
    }

    /** `d[k] = v`: the entry is set; a new key goes to the end of the order and
        a key already present keeps its place. */
    function Put(k: string, v: V): (t: Table<V>)
      ensures t.entries == entries[k := v]
      ensures Valid() ==> t.Valid()
      ensures Valid() && k in entries ==> t.keys == keys
      ensures k !in keys ==> t.keys == keys + [k]
    {
      Table(IdLists.Added(keys, k), entries[k := v])
    }

    /** `del d[k]`: the entry goes, and the other keys keep their order. */
    function Remove(k: string): (t: Table<V>)
      ensures t.entries == entries - {k}
      ensures Valid() ==> t.Valid()
      ensures k !in keys ==> t.keys == keys
      ensures k in keys ==> t.keys == keys[..IdLists.FirstIndex(keys, k)] + keys[IdLists.FirstIndex(keys, k) + 1..]
    {
      var t := Table(IdLists.Removed(keys, k), entries - {k});
      assert k in keys ==> t.keys == keys[..IdLists.FirstIndex(keys, k)] + keys[IdLists.FirstIndex(keys, k) + 1..] by {
        if k in keys {
          IdLists.RemovedCutsFirst(keys, k);
        }
      }
      assert Valid() ==> t.Valid() by {
        if Valid() {
          IdLists.RemovedNoDuplicates(keys, k);
        }
      }
      t
    }
  }

  /** `{}`. */
  function EmptyTable<V>(): (t: Table<V>)
    ensures t.Valid() && t.entries == map[]
  {
    Table([], map[])
  }
}
