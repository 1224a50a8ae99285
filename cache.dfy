/**
 * Cache: a single-level LRU cache over an IUSingleLinkedList, and the
 * single-level loop of the trace driver that feeds it words.
 */
module LruCache {
  import opened Exceptions
  import opened SingleLinkedList
  import CacheModel

  class Cache<E(==)> {
    var cnt: int
    var size: int
    var list: IUSingleLinkedList<E>

    /** The state as CacheModel sees it. */
    ghost function Abs(): CacheModel.State<E>
      reads this, list
    {
      CacheModel.State(list.elems, cnt, size)
    }

    /**
     * The invariant every call keeps, clearCache included; the stronger
     * `cnt == |list|` (CacheModel.Inv) holds only until clearCache.
     */
    ghost predicate Valid()
      reads this, list
    {
      list.Valid() && CacheModel.Bounded(Abs())
    }

    constructor (size: int)
      ensures Valid() && fresh(list)
      ensures Abs() == CacheModel.Empty(size)
    {
      cnt := 0;
      this.size := size;
      list := new IUSingleLinkedList<E>();
    }

    method AddObject(e: E)
      requires Valid()
      modifies this, list
      ensures Valid() && list == old(list)
      ensures Abs() == CacheModel.AddObject(old(Abs()), e)
    {
      CacheModel.AddObjectKeepsBounded(Abs(), e);
      list.AddToFront(e);
      if size == cnt {
        var evicted := RemoveLast();
      }
      cnt := cnt + 1;
    }

    /** Returns its argument once the first equal element has been removed. */
    method RemoveObject(e: E) returns (r: Result<E>)
      requires Valid()
      modifies this, list
      ensures Valid() && list == old(list)
      ensures e !in old(list.elems) ==> r == Err(NoSuchElement) && Abs() == old(Abs())
      ensures e in old(list.elems) ==> r == Ok(e) && Abs() == CacheModel.RemoveObject(old(Abs()), e)
    {
      var removed := list.Remove(e);
      if removed.Err? {
        return Err(removed.ex);
      }
      cnt := cnt - 1;
      return Ok(e);
    }

    /**
     * Also called by AddObject between its two steps, where Valid() does not
     * hold; so it asks only for the list's invariant.
     */
    method RemoveLast() returns (r: Result<E>)
      requires list.Valid()
      modifies this, list
      ensures list.Valid() && list == old(list)
      ensures old(Valid()) ==> Valid()
      ensures old(list.elems) == [] ==> r == Err(NoSuchElement) && Abs() == old(Abs())
      ensures old(list.elems) != [] ==>
        && r == Ok(old(list.elems)[|old(list.elems)| - 1])
        && Abs() == CacheModel.RemoveLast(old(Abs()))
    {
      r := list.RemoveLast();
      if r.Err? {
        return;
      }
      cnt := cnt - 1;
    }

    method MoveToFront(e: E) returns (o: Outcome)
      requires Valid()
      modifies this, list
      ensures Valid() && list == old(list)
      ensures e !in old(list.elems) ==> o == Failed(NoSuchElement) && Abs() == old(Abs())
      ensures e in old(list.elems) ==> o == Done && Abs() == CacheModel.MoveToFront(old(Abs()), e)
    {
      var it := RemoveObject(e);
      if it.Err? {
        return Failed(it.ex);
      }
      AddObject(it.value);
      return Done;
    }

    /** Replaces the list by a new empty one; `cnt` is not reset. */
    method ClearCache()
      requires Valid()
      modifies this
      ensures Valid() && fresh(list)
      ensures Abs() == CacheModel.ClearCache(old(Abs()))
    {
      list := new IUSingleLinkedList<E>();
    }

    /** Returns 1 on a hit, after promoting the word, and 0 on a miss, after inserting it. */
    method Search(element: E) returns (hits: int)
      requires Valid()
      modifies this, list
      ensures Valid() && list == old(list)
      ensures hits == (if element in old(list.elems) then 1 else 0)
      ensures (Abs(), hits) == CacheModel.Search(old(Abs()), element)
    {
      hits := 0;
      var present := list.Contains(element);
      if present {
        var moved := MoveToFront(element);
        hits := hits + 1;
      } else {
        AddObject(element);
      }
    }

    method ToString(show: E -> string) returns (r: string)
      requires Valid()
      ensures r == ListSpec.Render(list.elems, show)
    {
      r := list.ToString(show);
    }
  }

  /**
   * The single-level loop of the trace driver: each word is looked up with
   * `search` and the hits are totalled.
   */
  method CountHits(cache: Cache<string>, words: seq<string>) returns (hits: int)
    requires cache.Valid()
    modifies cache, cache.list
    ensures cache.Valid() && cache.list == old(cache.list)
    ensures (cache.Abs(), hits) == CacheModel.SearchAll(old(cache.Abs()), words)
  {
    hits := 0;
    var i := 0;
    while i < |words|
      invariant 0 <= i <= |words|
      invariant cache.Valid() && cache.list == old(cache.list)
      invariant CacheModel.SearchAll(old(cache.Abs()), words)
             == (CacheModel.SearchAll(cache.Abs(), words[i..]).0,
                 hits + CacheModel.SearchAll(cache.Abs(), words[i..]).1)
    {
      assert words[i..][1..] == words[i + 1..];
      var hit := cache.Search(words[i]);
      hits := hits + hit;
      i := i + 1;
    }
  }
}
