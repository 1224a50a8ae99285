/**
 * The single-level LRU cache of Cache.java as functions on its observable
 * state: the list front (most recently used) to back, the count `cnt` and
 * the capacity `size`. The class LruCache.Cache is proved to follow these
 * functions call by call; the properties of the cache are lemmas here.
 */
module CacheModel {
  import opened ListSpec

  datatype State<E> = State(items: seq<E>, cnt: int, size: int)

  /** `new Cache(size)`. */
  function Empty<E>(size: int): State<E>
  {
    State([], 0, size)
  }

  /** `removeLast`: drops the back of the list and decrements `cnt`. */
  function RemoveLast<E>(c: State<E>): State<E>
    requires c.items != []
  {
    State(c.items[..|c.items| - 1], c.cnt - 1, c.size)
  }

  /**
   * `addObject(e)`: puts `e` at the front, then calls `removeLast` when
   * `cnt` had reached `size`, then increments `cnt`.
   */
  function AddObject<E>(c: State<E>, e: E): State<E>
  {
    var pushed := c.(items := [e] + c.items);
    var trimmed := if c.size == c.cnt then RemoveLast(pushed) else pushed;
    trimmed.(cnt := trimmed.cnt + 1)
  }

  /** `removeObject(e)` when `e` is present: drops its first occurrence, decrements `cnt`. */
  function RemoveObject<E(==)>(c: State<E>, e: E): State<E>
    requires e in c.items
  {
    State(RemoveAt(c.items, IndexOf(c.items, e)), c.cnt - 1, c.size)
  }

  /** `moveToFront(e)` when `e` is present: `removeObject(e)`, then `addObject(e)`. */
  function MoveToFront<E(==)>(c: State<E>, e: E): State<E>
    requires e in c.items
  {
    AddObject(RemoveObject(c, e), e)
  }

  /** `clearCache`: a new empty list; `cnt` is left as it was. */
  function ClearCache<E>(c: State<E>): State<E>
  {
    State([], c.cnt, c.size)
  }

  /** `search(x)`: the new state and the hit count, 1 for a hit and 0 for a miss. */
  function Search<E(==)>(c: State<E>, x: E): (State<E>, int)
  {
    if x in c.items then (MoveToFront(c, x), 1) else (AddObject(c, x), 0)
  }

  /** `search` applied to each word in turn, with the total of the hits. */
  function SearchAll<E(==)>(c: State<E>, words: seq<E>): (r: (State<E>, int))
    ensures 0 <= r.1 <= |words|
    decreases |words|
  {
    if words == [] then (c, 0)
    else
      var first := Search(c, words[0]);
      var rest := SearchAll(first.0, words[1..]);
      (rest.0, first.1 + rest.1)
  }

  /** The public calls of Cache; a call that throws leaves the state as it was. */
  datatype Call<E> =
    | AddObjectCall(e: E)
    | RemoveObjectCall(e: E)
    | RemoveLastCall
    | MoveToFrontCall(e: E)
    | SearchCall(e: E)
    | ClearCacheCall

  function Apply<E(==)>(c: State<E>, call: Call<E>): State<E>
  {
    match call
    case AddObjectCall(e) => AddObject(c, e)
    case RemoveObjectCall(e) => if e in c.items then RemoveObject(c, e) else c
    case RemoveLastCall => if c.items != [] then RemoveLast(c) else c
    case MoveToFrontCall(e) => if e in c.items then MoveToFront(c, e) else c
    case SearchCall(e) => Search(c, e).0
    case ClearCacheCall => ClearCache(c)
  }

  function Replay<E(==)>(c: State<E>, calls: seq<Call<E>>): State<E>
    decreases |calls|
  {
    if calls == [] then c else Replay(Apply(c, calls[0]), calls[1..])
  }

  /** `cnt` is the length of the list and, for a non-negative capacity, at most `size`. */
  ghost predicate Inv<E>(c: State<E>)
  {
    c.cnt == |c.items| && (c.size >= 0 ==> c.cnt <= c.size)
  }

  /** What survives `clearCache`: `cnt` bounds the length of the list and is at most `size`. */
  ghost predicate Bounded<E>(c: State<E>)
  {
    |c.items| <= c.cnt && (c.size >= 0 ==> c.cnt <= c.size)
  }

  lemma EmptyInv<E>(size: int)
    ensures Inv(Empty<E>(size)) && Empty<E>(size).items == []
  {
  }

  /**
   * `addObject(e)` puts `e` at the front. At capacity it evicts exactly the
   * old back element (nothing is left for a capacity of 0) and `cnt` stays;
   * below capacity nothing is evicted and `cnt` grows by one. This holds in
   * every state, a cleared cache (where `cnt` exceeds the length) included.
   */
  lemma AddObjectEvictsOnlyTail<E>(c: State<E>, e: E)
    ensures var r := AddObject(c, e);
      && r.size == c.size
      && (c.cnt == c.size && c.items != [] ==>
            r.cnt == c.cnt && r.items == [e] + c.items[..|c.items| - 1])
      && (c.cnt == c.size && c.items == [] ==> r.cnt == c.cnt && r.items == [])
      && (c.cnt != c.size ==> r.cnt == c.cnt + 1 && r.items == [e] + c.items)
  {
    if c.cnt == c.size && c.items != [] {
      assert ([e] + c.items)[..|c.items|] == [e] + c.items[..|c.items| - 1];
    }
  }

  lemma AddObjectKeepsInv<E>(c: State<E>, e: E)
    requires Inv(c)
    ensures Inv(AddObject(c, e))
  {
  }

  lemma AddObjectKeepsBounded<E>(c: State<E>, e: E)
    requires Bounded(c)
    ensures Bounded(AddObject(c, e))
  {
  }

  /**
   * `removeObject(e)` drops the first occurrence of `e` and nothing else:
   * one copy fewer of `e`, the others in their order, `cnt` one less.
   */
  lemma RemoveObjectDropsFirstOccurrence<E>(c: State<E>, e: E)
    requires e in c.items
    ensures var r := RemoveObject(c, e); var i := IndexOf(c.items, e);
      && r.cnt == c.cnt - 1 && r.size == c.size
      && multiset(r.items) == multiset(c.items) - multiset{e}
      && r.items[..i] == c.items[..i] && e !in r.items[..i]
      && r.items[i..] == c.items[i + 1..]
  {
    var i := IndexOf(c.items, e);
    RemoveAtMultiset(c.items, i);
  }

  lemma RemoveObjectKeepsInv<E>(c: State<E>, e: E)
    requires Inv(c) && e in c.items
    ensures Inv(RemoveObject(c, e))
  {
  }

  lemma RemoveLastKeepsInv<E>(c: State<E>)
    requires Inv(c) && c.items != []
    ensures Inv(RemoveLast(c))
  {
  }

  /**
   * `moveToFront(e)` on a present `e`: `cnt` and the multiset of elements
   * are unchanged, `e` is at the front and the others keep their order.
   * This holds in every Bounded state, a cleared cache included; Inv is kept.
   */
  lemma MoveToFrontPromotes<E>(c: State<E>, e: E)
    requires Bounded(c) && e in c.items
    ensures var r := MoveToFront(c, e);
      && (Inv(c) ==> Inv(r)) && r.cnt == c.cnt
      && multiset(r.items) == multiset(c.items)
      && r.items == [e] + RemoveAt(c.items, IndexOf(c.items, e))
  {
    var i := IndexOf(c.items, e);
    RemoveAtMultiset(c.items, i);
    assert RemoveObject(c, e).cnt != c.size;
  }

  /** clearCache empties the list without resetting `cnt`, which breaks Inv ... */
  lemma ClearCacheBreaksInv<E>(c: State<E>)
    requires Inv(c) && c.items != []
    ensures !Inv(ClearCache(c))
  {
  }

  /**
   * ... so that a full cache that has been cleared stays empty: each
   * `addObject` evicts the element it has just added.
   */
  lemma ClearedFullCacheDropsAdds<E>(c: State<E>, e: E)
    requires c.cnt == c.size
    ensures AddObject(ClearCache(c), e) == ClearCache(c)
  {
  }

  lemma ClearCacheKeepsBounded<E>(c: State<E>)
    requires Bounded(c)
    ensures Bounded(ClearCache(c))
  {
  }

  /**
   * `search(x)` reports 1 exactly when `x` was present. Afterwards `x` is at
   * the front (capacity at least 1). A hit only reorders; a miss below
   * capacity evicts nothing and a miss at capacity evicts only the old back.
   */
  lemma SearchSpec<E>(c: State<E>, x: E)
    requires Inv(c)
    ensures var (r, hits) := Search(c, x);
      && Inv(r)
      && (hits == 1 <==> x in c.items)
      && (hits == 0 <==> x !in c.items)
      && (c.size >= 1 ==> r.items != [] && r.items[0] == x)
      && (x in c.items ==> r.items == [x] + RemoveAt(c.items, IndexOf(c.items, x)))
      && (x !in c.items && c.cnt != c.size ==> r.items == [x] + c.items)
      && (x !in c.items && c.cnt == c.size && c.size >= 1 ==>
            r.items == [x] + c.items[..|c.items| - 1])
  {
    if x in c.items {
      MoveToFrontPromotes(c, x);
    } else {
      AddObjectEvictsOnlyTail(c, x);
    }
  }

  /** A capacity-1 cache holds exactly the missed word after a miss. */
  lemma CapacityOneMiss<E>(c: State<E>, x: E)
    requires Inv(c) && c.size == 1 && x !in c.items
    ensures Search(c, x).0.items == [x]
  {
    SearchSpec(c, x);
  }

  /** Searching twice for the same word hits the second time. */
  lemma SearchTwiceHits<E>(c: State<E>, x: E)
    requires Inv(c) && c.size >= 1
    ensures Search(Search(c, x).0, x).1 == 1
  {
    SearchSpec(c, x);
  }

  /** A search keeps the list free of duplicates, in a cleared cache too. */
  lemma SearchKeepsNoDup<E>(c: State<E>, x: E)
    requires Bounded(c) && NoDup(c.items)
    ensures NoDup(Search(c, x).0.items)
  {
    var r := Search(c, x).0;
    if x in c.items {
      MoveToFrontPromotes(c, x);
      var i := IndexOf(c.items, x);
      NoDupRemoveAt(c.items, i);
      NoDupCons(x, RemoveAt(c.items, i));
    } else {
      AddObjectEvictsOnlyTail(c, x);
      NoDupCons(x, c.items);
      var pushed := [x] + c.items;
      assert r.items == pushed || r.items == pushed[..|pushed| - 1];
      assert forall a, b :: 0 <= a < b < |r.items| ==> r.items[a] == pushed[a] && r.items[b] == pushed[b];
    }
  }

  /**
   * A cache used only through `search` keeps Inv and never holds a
   * duplicate; from a new cache with `size >= 0` this holds for every trace.
   */
  lemma {:induction false} SearchAllKeepsInvAndNoDup<E>(c: State<E>, words: seq<E>)
    requires Inv(c) && NoDup(c.items)
    ensures Inv(SearchAll(c, words).0) && NoDup(SearchAll(c, words).0.items)
    decreases |words|
  {
    if words != [] {
      SearchSpec(c, words[0]);
      SearchKeepsNoDup(c, words[0]);
      SearchAllKeepsInvAndNoDup(Search(c, words[0]).0, words[1..]);
    }
  }

  /** Every call but clearCache keeps Inv, so a cache never cleared has `cnt` equal to its length. */
  lemma {:induction false} ReplayKeepsInv<E>(c: State<E>, calls: seq<Call<E>>)
    requires Inv(c)
    requires forall i :: 0 <= i < |calls| ==> !calls[i].ClearCacheCall?
    ensures Inv(Replay(c, calls))
    decreases |calls|
  {
    if calls != [] {
      match calls[0] {
        case AddObjectCall(e) => AddObjectKeepsInv(c, e);
        case RemoveObjectCall(e) =>
        case RemoveLastCall =>
        case MoveToFrontCall(e) =>
          if e in c.items { MoveToFrontPromotes(c, e); }
        case SearchCall(e) => SearchSpec(c, e);
      }
      ReplayKeepsInv(Apply(c, calls[0]), calls[1..]);
    }
  }

  /** Every call, clearCache included, keeps `|items| <= cnt <= size`. */
  lemma {:induction false} ReplayKeepsBounded<E>(c: State<E>, calls: seq<Call<E>>)
    requires Bounded(c)
    ensures Bounded(Replay(c, calls))
    decreases |calls|
  {
    if calls != [] {
      if calls[0].AddObjectCall? {
        AddObjectKeepsBounded(c, calls[0].e);
      } else if calls[0].MoveToFrontCall? && calls[0].e in c.items {
        AddObjectKeepsBounded(RemoveObject(c, calls[0].e), calls[0].e);
      } else if calls[0].SearchCall? {
        if calls[0].e in c.items {
          AddObjectKeepsBounded(RemoveObject(c, calls[0].e), calls[0].e);
        } else {
          AddObjectKeepsBounded(c, calls[0].e);
        }
      }
      ReplayKeepsBounded(Apply(c, calls[0]), calls[1..]);
    }
  }
}
