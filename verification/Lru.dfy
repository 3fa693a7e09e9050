/** The LRU cache of lru.h: a recency list and a hash index into it. */
module Lru {
  import opened Seqs
  import M = LruModel

  /** The list nodes' keys are `lru`, front first; `cache` gives, for a listed key,
      the value in the node its iterator points to. */
  class LRUCache {
    var capacity: int
    var cache: map<Key, int>
    var lru: seq<Key>
    var deleteKeys: seq<Key>

    ghost predicate Valid()
      reads this
    {
      && Distinct(lru)
      && cache.Keys == Elems(lru)
      && (capacity > 0 ==> |lru| <= capacity)
    }

    ghost function Model(): M.Lru
      reads this
    {
      M.Lru(lru, cache, if capacity > 0 then capacity else 0, deleteKeys)
    }

    lemma {:induction false} ModelValid()
      requires Valid()
      ensures M.Valid(Model())
    {
    }

    /** The list and the index have the same size. */
    lemma {:induction false} Sizes()
      requires Distinct(lru) && cache.Keys == Elems(lru)
      ensures |cache| == |lru|
    {
      ElemsCount(lru);
      assert |cache.Keys| == |cache|;
    }

    constructor (capacity: int := 0)
      ensures Valid()
      ensures Model() == M.EMPTY.(capacity := if capacity > 0 then capacity else 0)
    {
      this.capacity := capacity;
      cache := map[];
      lru := [];
      deleteKeys := [];
    }

    method Get(key: Key) returns (r: int)
      requires Valid()
      modifies this`lru
      ensures Valid()
      ensures Model() == M.Step(old(Model()), M.Get(key))
      ensures r == M.Result(old(Model()), M.Get(key))
    {
      M.StepValid(Model(), M.Get(key));
      if key !in cache { return -1; }
      lru := [key] + Drop(lru, {key});
      return cache[key];
    }

    /** Take the last list node out of list and index and record its key. */
    method EvictLast()
      requires Distinct(lru) && cache.Keys == Elems(lru) && |lru| > 0
      modifies this`lru, this`cache, this`deleteKeys
      ensures Distinct(lru) && cache.Keys == Elems(lru)
      ensures Model() == M.EvictLast(old(Model()))
    {
      M.EvictLastValid(Model());
      var it := lru[|lru| - 1];
      cache := cache - {it};
      lru := lru[..|lru| - 1];
      deleteKeys := deleteKeys + [it];
    }

    method Put(key: Key, value: int)
      requires Valid()
      modifies this`lru, this`cache, this`deleteKeys
      ensures Valid()
      ensures Model() == M.Step(old(Model()), M.Put(key, value))
    {
      M.StepValid(Model(), M.Put(key, value));
      if key in cache {
        cache := cache[key := value];
        lru := [key] + Drop(lru, {key});
        return;
      }
      Sizes();
      if capacity > 0 && |cache| == capacity {
        EvictLast();
      }
      lru := [key] + lru;
      cache := cache[key := value];
    }

    method Remove(key: Key)
      requires Valid()
      modifies this`lru, this`cache
      ensures Valid()
      ensures Model() == M.Step(old(Model()), M.Remove(key))
    {
      ModelValid();
      M.StepValid(Model(), M.Remove(key));
      hide Drop, Elems, Distinct;
      if key !in cache {
        M.RemoveAbsent(Model(), key);
        return;
      }
      lru := Drop(lru, {key});
      cache := cache - {key};
    }

    method SetCapacity(c: int) returns (r: int)
      requires Valid()
      modifies this
      ensures Valid()
      ensures Model() == M.Step(old(Model()), M.SetCapacity(c))
      ensures r == M.Result(old(Model()), M.SetCapacity(c))
    {
      if c < 0 { return -1; }
      this.capacity := c;
      ghost var before := Model();
      Sizes();
      while c > 0 && |cache| > c
        invariant Distinct(lru) && cache.Keys == Elems(lru) && |cache| == |lru|
        invariant capacity == c && (c > 0 ==> M.Shrink(Model(), c) == M.Shrink(before, c))
        invariant c == 0 ==> Model() == before
        decreases |cache|
      {
        EvictLast();
        Sizes();
      }
      return 0;
    }

    /** delete_keys.clear(). */
    method ClearDeleteKeys()
      requires Valid()
      modifies this`deleteKeys
      ensures Valid() && deleteKeys == []
    {
      deleteKeys := [];
    }
  }
}
