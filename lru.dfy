/** The `*lru.Cache[string, bool]` of hashicorp's golang-lru, seen from the
    policy engine: a bounded key->verdict map. Recency order is not modelled;
    when the cache is full, adding a new key evicts some other key. */
module Lru {

  /** `lru.New(size)` reports an error for a size that is not positive. */
  predicate NewFails(size: int)
  {
    size <= 0
  }

  class Cache {
    const size: nat
    var entries: map<string, bool>

    ghost predicate Valid()
      reads this
    {
      0 < size && |entries| <= size
    }

    /** `lru.New(size)` when it succeeds: an empty cache of that capacity. */
    constructor (size: int)
      requires !NewFails(size)
      ensures Valid() && this.size == size && entries == map[]
    {
      this.size := size;
      entries := map[];
    }

    /** `Get(key)`: the stored verdict, if any. */
    method Get(key: string) returns (value: bool, ok: bool)
      requires Valid()
      ensures ok == (key in entries)
      ensures ok ==> value == entries[key]
    {
      ok := key in entries;
      value := if ok then entries[key] else false;
    }

    /** `Add(key, value)`: afterwards `key` maps to `value`; every other key
        keeps its verdict or has been evicted, and nothing is evicted while
        there is room or when `key` was already present. */
    method Add(key: string, value: bool)
      requires Valid()
      modifies this
      ensures Valid()
      ensures key in entries && entries[key] == value
      ensures forall k :: k in entries && k != key ==> k in old(entries) && entries[k] == old(entries)[k]
      ensures key in old(entries) || |old(entries)| < size ==> entries == old(entries)[key := value]
    {
      if key in entries || |entries| < size {
        entries := entries[key := value];
      } else {
        var victim :| victim in entries;
        var rest := entries - {victim};
        assert rest.Keys == entries.Keys - {victim};
        entries := rest[key := value];
      }
    }
  }
}
