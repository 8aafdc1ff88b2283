/**
 * The memoising geometry caches: a dictionary from a dataset key to the tuple
 * of geometries read for it. The shapefile reader is the function `load`,
 * fixed for the life of the cache, so an entry always holds what a fresh read
 * of its key would give.
 */
module GeometryCache {

  class GeomCache<K(==, !new), G> {
    /** Reads the geometries of one dataset from disk. */
    const load: K -> seq<G>
    /** The cached geometry tuples, by key. */
    var entries: map<K, seq<G>>
    /** Every key read from disk so far, in the order the reads happened. */
    ghost var loads: seq<K>

    /**
     * Every entry is what the reader gives for its key, the keys read are
     * exactly the cached keys, and no key was read twice.
     */
    ghost predicate Valid()
      reads this
    {
      && (forall k :: k in entries ==> entries[k] == load(k))
      && (forall k :: k in entries <==> k in loads)
      && (forall i, j :: 0 <= i < j < |loads| ==> loads[i] != loads[j])
    }

    /** An empty cache, as the dictionaries start out at import time. */
    constructor (load: K -> seq<G>)
      ensures Valid()
      ensures this.load == load && entries == map[] && loads == []
    {
      this.load := load;
      entries := map[];
      loads := [];
    }

    /**
     * The geometries for `key`: on a miss they are read and stored, on a hit the
     * stored tuple is returned and nothing is read. Either way the result is what
     * the reader gives for `key`, and entries for other keys stay as they were.
     */
    method Fetch(key: K) returns (geoms: seq<G>)
      requires Valid()
      modifies this
      ensures Valid()
      ensures geoms == load(key)
      ensures key in entries && entries[key] == geoms
      ensures key in old(entries) ==> entries == old(entries) && loads == old(loads)
      ensures key !in old(entries) ==> entries == old(entries)[key := geoms] && loads == old(loads) + [key]
    {
      if key !in entries {
        geoms := load(key);
        entries := entries[key := geoms];
        loads := loads + [key];
      } else {
        geoms := entries[key];
      }
    }
  }
}
