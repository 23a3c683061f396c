/**
 * `CookieStoreImpl.kt`: the persistent host -> cookie-strings map, kept in a proto map of
 * string lists. `updateData` is modelled as replacing the stored map.
 */
module CookieStore {

  /** `StringListProto` */
  datatype StringList = StringList(values: seq<string>)

  /** `all()` over a stored proto map: every key with its full list, and no other key. */
  function Project(entries: map<string, StringList>): (m: map<string, seq<string>>)
    ensures m.Keys == entries.Keys
    ensures forall k :: k in m ==> m[k] == entries[k].values
  {
    map k | k in entries :: entries[k].values
  }

  /** Saving one key changes exactly that key of `all()`. */
  lemma ProjectAfterPut(entries: map<string, StringList>, key: string, value: seq<string>)
    ensures Project(entries[key := StringList(value)]) == Project(entries)[key := value]
  {
  }

  class CookieStoreImpl {
    /** `StringListMapProto.entriesMap` of the current data. */
    var entries: map<string, StringList>

    constructor ()
      ensures entries == map[]
    {
      entries := map[];
    }

    /** `all()` */
    function All(): (m: map<string, seq<string>>)
      reads this
      ensures m == Project(entries)
    {
      Project(entries)
    }

    /** `save(key, value)`: `putEntries` replaces the key's list; every other key is kept. */
    method Save(key: string, value: seq<string>)
      modifies this
      ensures entries == old(entries)[key := StringList(value)]
      ensures All() == old(All())[key := value]
      ensures key in All() && All()[key] == value
      ensures forall k :: k != key ==> (k in All() <==> k in old(All()))
      ensures forall k :: k != key && k in All() ==> All()[k] == old(All())[k]
    {
      ProjectAfterPut(entries, key, value);
      entries := entries[key := StringList(value)];
    }

    /** `clear()`: the default (empty) proto. */
    method Clear()
      modifies this
      ensures entries == map[]
      ensures All() == map[]
    {
      entries := map[];
    }
  }
}
