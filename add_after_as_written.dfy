/**
 * `addAfter` of IUSingleLinkedList exactly as its loop is written, on an
 * explicit heap of nodes, because its behaviour depends on node identity:
 * the loop does not stop at the first match, and it links in the same new
 * node at every match.
 *
 * The list s is laid out as nodes 0 .. |s| - 1 linked in order; node |s| is
 * `newNode`, allocated before the loop and not yet linked; Null is -1.
 */
module AddAfterAsWritten {
  import opened Exceptions
  import opened ListSpec

  const Null: int := -1

  /** Node n has the fields `elem[n]` and `next[n]`. */
  datatype Heap<T> = Heap(elem: seq<T>, next: seq<int>)

  ghost predicate WellFormed<T>(h: Heap<T>)
  {
    |h.elem| == |h.next| && forall n :: 0 <= n < |h.next| ==> -1 <= h.next[n] < |h.elem|
  }

  /**
   * `h` holds the list `s` as nodes 0 .. |s| - 1 linked in order, followed by
   * the unlinked node |s| holding `element`.
   */
  ghost predicate LaidOut<T>(h: Heap<T>, s: seq<T>, element: T)
  {
    && WellFormed(h) && h.elem == s + [element]
    && (forall n :: 0 <= n < |s| - 1 ==> h.next[n] == n + 1)
    && (s != [] ==> h.next[|s| - 1] == Null)
    && h.next[|s|] == Null
  }

  /** The nodes of the list `s` followed by the unlinked new node holding `element`. */
  function Layout<T>(s: seq<T>, element: T): (h: Heap<T>)
    ensures LaidOut(h, s, element)
  {
    Heap(s + [element], Links(|s| + 1, |s|))
  }

  /** The first m links of a chain of n nodes: node i points at i + 1, the last one and any beyond at Null. */
  function Links(m: nat, n: nat): (r: seq<int>)
    ensures |r| == m && forall i :: 0 <= i < m ==> r[i] == if i + 1 < n then i + 1 else Null
  {
    if m == 0 then [] else Links(m - 1, n) + [if m < n then m else Null]
  }

  /** The loop variables of addAfter: the heap, `current` and `isFound`. */
  datatype Walk<T> = Walk(heap: Heap<T>, current: int, isFound: bool)

  ghost predicate Running<T>(w: Walk<T>)
  {
    WellFormed(w.heap) && -1 <= w.current < |w.heap.elem|
  }

  /**
   * One pass of the loop body: on a match, `newNode.setNext(current.getNext())`,
   * `current.setNext(newNode)` and `isFound = true`; in every case
   * `current = current.getNext()`.
   */
  function Step<T(==)>(w: Walk<T>, newNode: int, target: T): (r: Walk<T>)
    requires Running(w) && w.current != Null && 0 <= newNode < |w.heap.elem|
  {
    var h := w.heap;
    var current := w.current;
    if h.elem[current] == target then
      var linked := h.next[newNode := h.next[current]][current := newNode];
      Walk(Heap(h.elem, linked), linked[current], true)
    else
      Walk(h, h.next[current], w.isFound)
  }

  /** The loop `while (current != null)`, run for at most `fuel` passes; None if it has not finished. */
  function Loop<T(==)>(w: Walk<T>, newNode: int, target: T, fuel: nat): (r: Option<Walk<T>>)
    requires Running(w) && 0 <= newNode < |w.heap.elem|
    ensures r.Some? ==> Running(r.value) && r.value.current == Null && |r.value.heap.next| == |w.heap.next|
    decreases fuel
  {
    if w.current == Null then Some(w)
    else if fuel == 0 then None
    else
      StepKeepsRunning(w, newNode, target);
      Loop(Step(w, newNode, target), newNode, target, fuel - 1)
  }

  /** A pass keeps the heap well formed, its elements unchanged and `current` a node or Null. */
  lemma StepKeepsRunning<T>(w: Walk<T>, newNode: int, target: T)
    requires Running(w) && w.current != Null && 0 <= newNode < |w.heap.elem|
    ensures Running(Step(w, newNode, target)) && Step(w, newNode, target).heap.elem == w.heap.elem
  {
  }

  /** The list fields after addAfter returns. */
  datatype Linked<T> = Linked(heap: Heap<T>, head: int, tail: int, size: int)

  /**
   * addAfter(element, target) on the list `s`, with at most `fuel` passes of
   * its loop: None when the loop has not finished, an exception when no
   * node matched, otherwise the new fields (tail moves to newNode when its
   * next is null; size grows by one).
   */
  function AddAfter<T(==)>(s: seq<T>, element: T, target: T, fuel: nat): Option<Result<Linked<T>>>
  {
    var newNode := |s|;
    var head := if s == [] then Null else 0;
    match Loop(Walk(Layout(s, element), head, false), newNode, target, fuel)
    case None => None
    case Some(w) =>
      if !w.isFound then Some(Err(NoSuchElement))
      else
        var tail := if w.heap.next[newNode] == Null then newNode else |s| - 1;
        Some(Ok(Linked(w.heap, head, tail, |s| + 1)))
  }

  /** The elements met following `next` from `node`, at most `fuel` of them. */
  function Reach<T>(h: Heap<T>, node: int, fuel: nat): seq<T>
    requires WellFormed(h) && -1 <= node < |h.elem|
    decreases fuel
  {
    if node == Null || fuel == 0 then [] else [h.elem[node]] + Reach(h, h.next[node], fuel - 1)
  }

  /**
   * With `target` twice in the list, the second match relinks the shared new
   * node and cuts out everything between the two matches: [t, t] becomes
   * [t, x] while `size` says 3. The walk that stops at the first match gives
   * [t, x, t].
   */
  lemma DuplicateTargetDropsNodes<T>(t: T, x: T)
    requires t != x
    ensures AddAfter([t, t], x, t, 4) == Some(Ok(Linked(Heap([t, t, x], [2, 2, Null]), 0, 2, 3)))
    ensures Reach(Heap([t, t, x], [2, 2, Null]), 0, 3) == [t, x]
    ensures InsertAt([t, t], IndexOf([t, t], t) + 1, x) == [t, x, t]
  {
    var h0 := Layout([t, t], x);
    assert h0 == Heap([t, t, x], [1, Null, Null]);
    var w1 := Step(Walk(h0, 0, false), 2, t);
    assert w1 == Walk(Heap([t, t, x], [2, Null, 1]), 2, true);
    var w2 := Step(w1, 2, t);
    assert w2 == Walk(Heap([t, t, x], [2, Null, 1]), 1, true);
    var w3 := Step(w2, 2, t);
    assert w3 == Walk(Heap([t, t, x], [2, 2, Null]), 2, true);
    var w4 := Step(w3, 2, t);
    assert w4 == Walk(Heap([t, t, x], [2, 2, Null]), Null, true);
    assert Loop(Walk(h0, 0, false), 2, t, 4) == Some(w4);
    var h := Heap([t, t, x], [2, 2, Null]);
    assert Reach(h, 2, 2) == [x];
  }

  /**
   * With `element` equal to `target`, the new node matches itself, is linked
   * to itself, and the loop never ends: addAfter(t, t) on the list [t].
   */
  lemma SelfInsertionNeverEnds<T>(t: T, fuel: nat)
    ensures AddAfter([t], t, t, fuel) == None
  {
    var h0 := Layout([t], t);
    assert h0 == Heap([t, t], [Null, Null]);
    var w1 := Step(Walk(h0, 0, false), 1, t);
    assert w1 == Walk(Heap([t, t], [1, Null]), 1, true);
    var w2 := Step(w1, 1, t);
    assert w2 == Walk(Heap([t, t], [1, 1]), 1, true);
    if fuel >= 2 {
      assert Loop(Walk(h0, 0, false), 1, t, fuel) == Loop(w2, 1, t, fuel - 2);
      SelfLoopSpins(t, fuel - 2);
    } else if fuel == 1 {
      assert Loop(Walk(h0, 0, false), 1, t, fuel) == Loop(w1, 1, t, 0);
    }
  }

  lemma {:induction false} SelfLoopSpins<T>(t: T, fuel: nat)
    ensures Loop(Walk(Heap([t, t], [1, 1]), 1, true), 1, t, fuel) == None
    decreases fuel
  {
    var w := Walk(Heap([t, t], [1, 1]), 1, true);
    assert Step(w, 1, t) == w;
    if fuel > 0 {
      SelfLoopSpins(t, fuel - 1);
    }
  }

  /** Passes over consecutive nodes j .. m - 1 that do not match change nothing but `current`. */
  lemma {:induction false} SkipUnmatched<T>(h: Heap<T>, j: int, isFound: bool, newNode: int, target: T, m: int, fuel: nat)
    requires WellFormed(h) && 0 <= newNode < |h.elem|
    requires 0 <= j < m <= |h.elem|
    requires forall i :: j <= i < m ==> h.elem[i] != target
    requires forall i :: j <= i < m - 1 ==> h.next[i] == i + 1
    requires fuel >= m - j
    ensures Loop(Walk(h, j, isFound), newNode, target, fuel)
         == Loop(Walk(h, h.next[m - 1], isFound), newNode, target, fuel - (m - j))
    decreases m - j
  {
    var w := Walk(h, j, isFound);
    assert h.elem[j] != target;
    assert Step(w, newNode, target) == Walk(h, h.next[j], isFound);
    assert Loop(w, newNode, target, fuel) == Loop(Step(w, newNode, target), newNode, target, fuel - 1);
    if j < m - 1 {
      assert h.next[j] == j + 1;
      SkipUnmatched(h, j + 1, isFound, newNode, target, m, fuel - 1);
    }
  }

  /** Following consecutive nodes j .. m - 1 meets their elements in order. */
  lemma {:induction false} ReachSegment<T>(h: Heap<T>, j: int, m: int, fuel: nat)
    requires WellFormed(h) && 0 <= j < m <= |h.elem|
    requires forall i :: j <= i < m - 1 ==> h.next[i] == i + 1
    requires fuel >= m - j
    ensures Reach(h, j, fuel) == h.elem[j..m] + Reach(h, h.next[m - 1], fuel - (m - j))
    decreases m - j
  {
    assert Reach(h, j, fuel) == [h.elem[j]] + Reach(h, h.next[j], fuel - 1);
    if j < m - 1 {
      assert h.next[j] == j + 1;
      ReachSegment(h, j + 1, m, fuel - 1);
      var rest := Reach(h, h.next[m - 1], fuel - (m - j));
      assert h.elem[j..m] == [h.elem[j]] + h.elem[j + 1..m];
      assert [h.elem[j]] + (h.elem[j + 1..m] + rest) == [h.elem[j]] + h.elem[j + 1..m] + rest;
    } else {
      assert h.elem[j..m] == [h.elem[j]];
    }
  }

  /** When no node matches, the loop walks the whole list and addAfter throws, as the corrected walk does. */
  lemma AbsentTargetThrows<T>(s: seq<T>, element: T, target: T)
    requires target !in s
    ensures AddAfter(s, element, target, |s|) == Some(Err(NoSuchElement))
  {
    if s != [] {
      var h0 := Layout(s, element);
      SkipUnmatched(h0, 0, false, |s|, target, |s|, |s|);
    }
  }

  /** The heap after the match at node k: k links to the new node n, which takes over k's old next. */
  function Spliced<T>(h: Heap<T>, k: int, n: int): (h': Heap<T>)
    requires WellFormed(h) && 0 <= k < |h.elem| && 0 <= n < |h.elem|
    ensures WellFormed(h') && h'.elem == h.elem
    ensures h'.next[k] == n && (n != k ==> h'.next[n] == h.next[k])
    ensures forall i :: 0 <= i < |h.elem| && i != k && i != n ==> h'.next[i] == h.next[i]
  {
    Heap(h.elem, h.next[n := h.next[k]][k := n])
  }

  /**
   * Two passes: the match at k links in the new node n, and `current` moves
   * to n, which does not match, and on to k's old next.
   */
  lemma MatchThenNewNode<T>(h: Heap<T>, k: int, n: int, target: T, isFound: bool, fuel: nat)
    requires WellFormed(h) && 0 <= k < |h.elem| && 0 <= n < |h.elem| && k != n
    requires h.elem[k] == target && h.elem[n] != target && fuel >= 2
    ensures Loop(Walk(h, k, isFound), n, target, fuel)
         == Loop(Walk(Spliced(h, k, n), h.next[k], true), n, target, fuel - 2)
  {
    var h1 := Spliced(h, k, n);
    assert Step(Walk(h, k, isFound), n, target) == Walk(h1, n, true);
    assert Step(Walk(h1, n, true), n, target) == Walk(h1, h.next[k], true);
  }

  /** The nodes after a unique match hold no match: the loop walks them to the end. */
  lemma {:induction false} WalkToEnd<T>(h: Heap<T>, s: seq<T>, target: T, j: int, fuel: nat)
    requires WellFormed(h) && |s| < |h.elem| && h.elem[..|s|] == s
    requires 0 <= j < |s| && target !in s[j..] && fuel == |s| - j
    requires forall i :: j <= i < |s| - 1 ==> h.next[i] == i + 1
    requires h.next[|s| - 1] == Null
    ensures Loop(Walk(h, j, true), |s|, target, fuel) == Some(Walk(h, Null, true))
    decreases fuel
  {
    assert h.elem[j] == s[j] && s[j] == s[j..][0];
    if j < |s| - 1 {
      assert s[j + 1..] == s[j..][1..];
      WalkToEnd(h, s, target, j + 1, fuel - 1);
    }
  }

  /** The links of the spliced heap: 0 .. k, then the new node n, then k + 1 .. n - 1. */
  lemma SplicedLinks<T>(h0: Heap<T>, n: int, k: int)
    requires WellFormed(h0) && |h0.elem| == n + 1 && 0 <= k < n
    requires forall i :: 0 <= i < n - 1 ==> h0.next[i] == i + 1
    requires h0.next[n - 1] == Null && h0.next[n] == Null
    ensures var h1 := Spliced(h0, k, n);
      && (forall i :: 0 <= i < n - 1 && i != k ==> h1.next[i] == i + 1)
      && h1.next[k] == n
      && h1.next[n] == (if k < n - 1 then k + 1 else Null)
      && (k < n - 1 ==> h1.next[n - 1] == Null)
  {
  }

  /** From a unique match at k, with a new node n = |s| that does not match, the loop ends in |s| + 1 - k passes. */
  lemma FromUniqueMatch<T>(h0: Heap<T>, s: seq<T>, element: T, target: T, k: int)
    requires 0 <= k < |s| && s[k] == target && target !in s[k + 1..]
    requires LaidOut(h0, s, element) && element != target
    ensures Loop(Walk(h0, k, false), |s|, target, |s| + 1 - k) == Some(Walk(Spliced(h0, k, |s|), Null, true))
  {
    var n := |s|;
    assert h0.elem[k] == target && h0.elem[n] == element;
    MatchThenNewNode(h0, k, n, target, false, n + 1 - k);
    var h1 := Spliced(h0, k, n);
    if k < n - 1 {
      SplicedLinks(h0, n, k);
      assert h0.next[k] == k + 1;
      assert h1.elem[..n] == s;
      WalkToEnd(h1, s, target, k + 1, n - 1 - k);
    } else {
      assert h0.next[k] == Null;
    }
  }

  /** With a unique match at k and a new node n = |s| that does not match, the loop ends after |s| + 1 passes. */
  lemma UniqueTargetLoop<T>(h0: Heap<T>, s: seq<T>, element: T, target: T, k: int)
    requires 0 <= k < |s| && s[k] == target && target !in s[..k] && target !in s[k + 1..]
    requires LaidOut(h0, s, element) && element != target
    ensures Loop(Walk(h0, 0, false), |s|, target, |s| + 1) == Some(Walk(Spliced(h0, k, |s|), Null, true))
  {
    var n := |s|;
    if k > 0 {
      forall i | 0 <= i < k ensures h0.elem[i] != target {
        assert s[..k][i] == s[i];
      }
      SkipUnmatched(h0, 0, false, n, target, k, n + 1);
      assert h0.next[k - 1] == k;
    }
    FromUniqueMatch(h0, s, element, target, k);
  }

  /**
   * A heap whose links run from node 0 to k, then to the last node n, then on
   * from k + 1 to n - 1, lists node n's element right after node k's.
   */
  lemma ChainAfter<T>(h: Heap<T>, n: int, k: int)
    requires WellFormed(h) && |h.elem| == n + 1 && 0 <= k < n
    requires forall i :: 0 <= i < n - 1 && i != k ==> h.next[i] == i + 1
    requires h.next[k] == n
    requires h.next[n] == (if k < n - 1 then k + 1 else Null)
    requires k < n - 1 ==> h.next[n - 1] == Null
    ensures Reach(h, 0, n + 1) == h.elem[..k + 1] + [h.elem[n]] + h.elem[k + 1..n]
  {
    var front := h.elem[..k + 1];
    ReachSegment(h, 0, k + 1, n + 1);
    assert h.elem[0..k + 1] == front;
    var tail := Reach(h, h.next[n], n - k - 1);
    assert Reach(h, n, n - k) == [h.elem[n]] + tail;
    if k < n - 1 {
      ReachSegment(h, k + 1, n, n - k - 1);
      assert tail == h.elem[k + 1..n];
    } else {
      assert tail == [] == h.elem[k + 1..n];
    }
    assert front + ([h.elem[n]] + tail) == front + [h.elem[n]] + tail;
  }

  /** Followed from head, the spliced heap holds `element` right after position k. */
  lemma SplicedChain<T>(h0: Heap<T>, s: seq<T>, element: T, k: int)
    requires LaidOut(h0, s, element) && 0 <= k < |s|
    ensures Reach(Spliced(h0, k, |s|), 0, |s| + 1) == InsertAt(s, k + 1, element)
  {
    var n := |s|;
    var h1 := Spliced(h0, k, n);
    SplicedLinks(h0, n, k);
    ChainAfter(h1, n, k);
    AppendedSlices(s, element, k);
  }

  lemma AppendedSlices<T>(s: seq<T>, x: T, k: int)
    requires 0 <= k < |s|
    ensures var e := s + [x]; e[..k + 1] == s[..k + 1] && e[|s|] == x && e[k + 1..|s|] == s[k + 1..]
  {
  }

  /**
   * When `target` occurs exactly once and differs from `element`, the loop as
   * written ends after |s| + 1 passes, and the list it leaves, followed from
   * head, is the corrected result: `element` right after `target`, with the
   * size right and tail the last node.
   */
  lemma UniqueTargetAgrees<T>(s: seq<T>, element: T, target: T)
    requires target in s && target !in s[IndexOf(s, target) + 1..] && element != target
    ensures var r := AddAfter(s, element, target, |s| + 1);
      && r.Some? && r.value.Ok?
      && Reach(r.value.value.heap, r.value.value.head, |s| + 1) == InsertAt(s, IndexOf(s, target) + 1, element)
      && r.value.value.size == |s| + 1
      && r.value.value.heap.next[r.value.value.tail] == Null
  {
    var k := IndexOf(s, target);
    var h0 := Layout(s, element);
    UniqueTargetLoop(h0, s, element, target, k);
    var h1 := Spliced(h0, k, |s|);
    var tail := if h1.next[|s|] == Null then |s| else |s| - 1;
    assert AddAfter(s, element, target, |s| + 1) == Some(Ok(Linked(h1, 0, tail, |s| + 1)));
    SplicedChain(h0, s, element, k);
    SplicedLinks(h0, |s|, k);
  }
}
