/**
 * The singly linked list IUSingleLinkedList and its fail-fast iterator.
 *
 * The chain of nodes from `head` to `tail` is kept as the sequence `elems`:
 * `head` is position 0 and `tail` position |elems| - 1, and a walk over the
 * nodes becomes a walk over positions. `size` and `modCount` are the fields
 * of the same names; Valid() is the class invariant size == |elems|.
 */
module SingleLinkedList {
  import opened Exceptions
  import opened ListSpec

  class IUSingleLinkedList<T(==)> {
    var elems: seq<T>
    var size: int
    var modCount: int

    ghost predicate Valid()
      reads this
    {
      size == |elems|
    }

    /** An empty list. */
    constructor ()
      ensures Valid() && elems == [] && modCount == 0
    {
      elems := [];
      size := 0;
      modCount := 0;
    }

    method AddToFront(element: T)
      requires Valid()
      modifies this
      ensures Valid()
      ensures elems == [element] + old(elems)
      ensures modCount == old(modCount) + 1
    {
      if size == 0 {
        elems := [element];            // head = tail = the new node
      } else if size == 1 {
        elems := [element, elems[0]];  // the new head links to tail
      } else {
        elems := [element] + elems;
      }
      size := size + 1;
      modCount := modCount + 1;
    }

    method AddToRear(element: T)
      requires Valid()
      modifies this
      ensures Valid()
      ensures elems == old(elems) + [element]
      ensures modCount == old(modCount) + 1
    {
      if size == 0 {
        elems := [element];
      } else if size == 1 {
        elems := [elems[0], element];
      } else {
        elems := elems + [element];
      }
      size := size + 1;
      modCount := modCount + 1;
    }

    /** `add(T)`: the same as AddToRear. */
    method Add(element: T)
      requires Valid()
      modifies this
      ensures Valid()
      ensures elems == old(elems) + [element]
      ensures modCount == old(modCount) + 1
    {
      if size == 0 {
        elems := [element];
      } else if size == 1 {
        elems := [elems[0], element];
      } else {
        elems := elems + [element];
      }
      size := size + 1;
      modCount := modCount + 1;
    }

    /**
     * `addAfter(element, target)`: inserts `element` right after the first
     * occurrence of `target`. The walk stops at that occurrence; see
     * AddAfterAsWritten for the walk as the source writes it.
     */
    method AddAfter(element: T, target: T) returns (o: Outcome)
      requires Valid()
      modifies this
      ensures Valid()
      ensures target !in old(elems) ==> o == Failed(NoSuchElement) && unchanged(this)
      ensures target in old(elems) ==>
        && o == Done
        && elems == InsertAt(old(elems), ListSpec.IndexOf(old(elems), target) + 1, element)
        && modCount == old(modCount) + 1
    {
      var current := 0;
      while current < size && elems[current] != target
        invariant 0 <= current <= size
        invariant target !in elems[..current]
      {
        current := current + 1;
      }
      if current == size {
        assert elems[..current] == elems;
        return Failed(NoSuchElement);
      }
      IndexOfIsFirst(elems, target, current);
      // newNode.setNext(current.getNext()); current.setNext(newNode);
      // tail becomes newNode when it was linked in after the old tail
      elems := InsertAt(elems, current + 1, element);
      size := size + 1;
      modCount := modCount + 1;
      return Done;
    }

    /** `add(index, element)`: inserts so that `element` ends up at position `index`. */
    method AddAt(index: int, element: T) returns (o: Outcome)
      requires Valid()
      modifies this
      ensures Valid()
      ensures !(0 <= index <= old(size)) ==> o == Failed(IndexOutOfBounds) && unchanged(this)
      ensures 0 <= index <= old(size) ==>
        && o == Done
        && elems == InsertAt(old(elems), index, element)
        && modCount == old(modCount) + 1
    {
      if index < 0 {
        return Failed(IndexOutOfBounds);
      }
      if index > size {
        return Failed(IndexOutOfBounds);
      }
      if index == 0 {
        InsertAtEnds(elems, element);
        elems := [element] + elems;    // the new node becomes head (and tail of an empty list)
      } else {
        var current := 0;
        for i := 0 to index - 1
          invariant current == i
        {
          current := current + 1;
        }
        if current == size - 1 {
          InsertAtEnds(elems, element);
          elems := elems + [element];  // linked after tail, and becomes tail
        } else {
          elems := elems[..current + 1] + [element] + elems[current + 1..];
        }
      }
      size := size + 1;
      modCount := modCount + 1;
      return Done;
    }

    method RemoveFirst() returns (r: Result<T>)
      requires Valid()
      modifies this
      ensures Valid()
      ensures old(elems) == [] ==> r == Err(NoSuchElement) && unchanged(this)
      ensures old(elems) != [] ==>
        && r == Ok(old(elems)[0])
        && elems == old(elems)[1..]
        && modCount == old(modCount) + 1
    {
      if size == 0 {
        return Err(NoSuchElement);
      }
      var retVal := elems[0];
      elems := elems[1..];
      size := size - 1;
      modCount := modCount + 1;
      return Ok(retVal);
    }

    method RemoveLast() returns (r: Result<T>)
      requires Valid()
      modifies this
      ensures Valid()
      ensures old(elems) == [] ==> r == Err(NoSuchElement) && unchanged(this)
      ensures old(elems) != [] ==>
        && r == Ok(old(elems)[|old(elems)| - 1])
        && elems == old(elems)[..|old(elems)| - 1]
        && modCount == old(modCount) + 1
    {
      if size == 0 {
        return Err(NoSuchElement);
      }
      var retVal := elems[size - 1];
      if size == 1 {
        elems := [];
      } else {
        var current := 0;
        while current + 1 != size - 1   // current.getNext() != tail
          invariant 0 <= current <= size - 2
        {
          current := current + 1;
        }
        elems := elems[..current + 1];  // current.setNext(null); tail = current
      }
      size := size - 1;
      modCount := modCount + 1;
      return Ok(retVal);
    }

    /**
     * `remove(element)`: unlinks the first node equal to `element` and
     * returns its element.
     */
    method Remove(element: T) returns (r: Result<T>)
      requires Valid()
      modifies this
      ensures Valid()
      ensures element !in old(elems) ==> r == Err(NoSuchElement) && unchanged(this)
      ensures element in old(elems) ==>
        && r == Ok(element)
        && elems == RemoveAt(old(elems), ListSpec.IndexOf(old(elems), element))
        && modCount == old(modCount) + 1
    {
      if size == 0 {
        return Err(NoSuchElement);
      }
      var found := false;
      var previous := -1;
      var current := 0;
      while current < size && !found
        invariant 0 <= current <= size
        invariant previous == current - 1
        invariant element !in elems[..current]
        invariant found ==> current < size && elems[current] == element
        decreases size - current, if found then 0 else 1
      {
        if element == elems[current] {
          found := true;
        } else {
          previous := current;
          current := current + 1;
        }
      }
      if !found {
        assert elems[..current] == elems;
        return Err(NoSuchElement);
      }
      IndexOfIsFirst(elems, element, current);
      var removed := elems[current];
      if size == 1 {
        elems := [];                                        // only node
      } else if current == 0 {
        elems := elems[1..];                                // first node
      } else if current == size - 1 {
        elems := elems[..previous + 1];                     // last node
      } else {
        elems := elems[..previous + 1] + elems[current + 1..];  // in the middle
      }
      size := size - 1;
      modCount := modCount + 1;
      return Ok(removed);
    }

    /** `remove(index)`: unlinks the node at position `index` and returns its element. */
    method RemoveAtIndex(index: int) returns (r: Result<T>)
      requires Valid()
      modifies this
      ensures Valid()
      ensures !(0 <= index < old(size)) ==> r == Err(IndexOutOfBounds) && unchanged(this)
      ensures 0 <= index < old(size) ==>
        && r == Ok(old(elems)[index])
        && elems == RemoveAt(old(elems), index)
        && modCount == old(modCount) + 1
    {
      if index < 0 {
        return Err(IndexOutOfBounds);
      }
      if index > size - 1 {
        return Err(IndexOutOfBounds);
      }
      if size == 0 {
        return Err(IndexOutOfBounds);
      }
      var retVal;
      if index == 0 {
        retVal := elems[0];
        elems := elems[1..];
      } else {
        var current := 0;
        for i := 0 to index - 1
          invariant current == i
        {
          current := current + 1;
        }
        if current + 1 == size - 1 {            // current.getNext() == tail
          retVal := elems[size - 1];
          elems := elems[..current + 1];
        } else {
          retVal := elems[current + 1];
          elems := elems[..current + 1] + elems[current + 2..];
        }
      }
      size := size - 1;
      modCount := modCount + 1;
      return Ok(retVal);
    }

    /** `set(index, element)`: replaces the element at position `index`. */
    method Set(index: int, element: T) returns (o: Outcome)
      requires Valid()
      modifies this
      ensures Valid()
      ensures !(0 <= index < old(size)) ==> o == Failed(IndexOutOfBounds) && unchanged(this)
      ensures 0 <= index < old(size) ==>
        && o == Done
        && elems == old(elems)[index := element]
        && modCount == old(modCount) + 1
    {
      if index > size - 1 {
        return Failed(IndexOutOfBounds);
      }
      if index < 0 {
        return Failed(IndexOutOfBounds);
      }
      if index == 0 {
        elems := elems[0 := element];
      } else {
        var current := 0;
        for i := 0 to index
          invariant current == i
        {
          current := current + 1;
        }
        elems := elems[current := element];
      }
      modCount := modCount + 1;
      return Done;
    }

    method Get(index: int) returns (r: Result<T>)
      requires Valid()
      ensures 0 <= index < |elems| ==> r == Ok(elems[index])
      ensures !(0 <= index < |elems|) ==> r == Err(IndexOutOfBounds)
    {
      if index > size - 1 {
        return Err(IndexOutOfBounds);
      }
      if index < 0 {
        return Err(IndexOutOfBounds);
      }
      if index == 0 {
        return Ok(elems[0]);
      }
      var current := 0;
      for i := 0 to index
        invariant current == i
      {
        current := current + 1;
      }
      return Ok(elems[current]);
    }

    /** The position of the first element equal to `element`, or -1. */
    method IndexOf(element: T) returns (index: int)
      requires Valid()
      ensures index == ListSpec.IndexOf(elems, element)
      ensures index == -1 <==> element !in elems
      ensures 0 <= index ==> index < |elems| && elems[index] == element && element !in elems[..index]
    {
      index := -1;
      if size != 0 {
        var current := 0;
        while current < size
          invariant 0 <= current <= size
          invariant index == current - 1
          invariant element !in elems[..current]
        {
          index := index + 1;
          if elems[current] == element {
            IndexOfIsFirst(elems, element, current);
            return index;
          }
          current := current + 1;
        }
        assert elems[..current] == elems;
        index := -1;
      }
    }

    method First() returns (r: Result<T>)
      requires Valid()
      ensures elems == [] ==> r == Err(NoSuchElement)
      ensures elems != [] ==> r == Ok(elems[0])
    {
      if size == 0 {
        return Err(NoSuchElement);
      }
      return Ok(elems[0]);
    }

    method Last() returns (r: Result<T>)
      requires Valid()
      ensures elems == [] ==> r == Err(NoSuchElement)
      ensures elems != [] ==> r == Ok(elems[|elems| - 1])
    {
      if size == 0 {
        return Err(NoSuchElement);
      }
      return Ok(elems[size - 1]);
    }

    method Contains(target: T) returns (r: bool)
      requires Valid()
      ensures r <==> target in elems
    {
      var index := IndexOf(target);
      return index != -1;
    }

    method IsEmpty() returns (r: bool)
      requires Valid()
      ensures r <==> elems == []
    {
      return size == 0;
    }

    method Size() returns (r: int)
      requires Valid()
      ensures r == |elems|
    {
      return size;
    }

    /**
     * `toString`, with the elements' own `toString` passed in as `show`:
     * "[]" for an empty list, "[a , b , c ]" for the list a, b, c.
     */
    method ToString(show: T -> string) returns (r: string)
      requires Valid()
      ensures r == Render(elems, show)
      ensures elems == [] ==> r == "[]"
      ensures elems != [] ==> r == "[" + Joined(elems[..|elems| - 1], show) + show(elems[|elems| - 1]) + " ]"
    {
      var str := "[";
      var current := 0;
      while current < size
        invariant 0 <= current <= size
        invariant str == "[" + Joined(elems[..current], show)
      {
        JoinedSnoc(elems[..current], elems[current], show);
        assert elems[..current + 1] == elems[..current] + [elems[current]];
        str := str + show(elems[current]) + " , ";
        current := current + 1;
      }
      assert elems[..current] == elems;
      if size != 0 {
        str := str[..|str| - 2];
      }
      RenderShape(elems, show);
      return str + "]";
    }

    /** A fresh iterator positioned before the first element. */
    method Iterator() returns (it: SLLIterator<T>)
      requires Valid()
      ensures fresh(it) && it.Valid() && it.list == this
      ensures it.nextNode == 0 && it.iterModCount == modCount && !it.canRemove
    {
      it := new SLLIterator(this);
    }
  }

  /**
   * SLLIterator. `nextNode` is the position of the node the Java field
   * points to, |list.elems| standing for null. The position means something
   * only while `iterModCount` agrees with the list's `modCount`; once they
   * differ every call throws ConcurrentModificationException.
   */
  class SLLIterator<T(==)> {
    const list: IUSingleLinkedList<T>
    var nextNode: int
    var iterModCount: int
    var canRemove: bool

    ghost predicate Valid()
      reads this, list
    {
      && list.Valid()
      && iterModCount <= list.modCount
      && (iterModCount == list.modCount ==>
            0 <= nextNode <= |list.elems| && (canRemove ==> 1 <= nextNode))
    }

    constructor (list: IUSingleLinkedList<T>)
      requires list.Valid()
      ensures Valid() && this.list == list
      ensures nextNode == 0 && iterModCount == list.modCount && !canRemove
    {
      this.list := list;
      nextNode := 0;
      iterModCount := list.modCount;
      canRemove := false;
    }

    method HasNext() returns (r: Result<bool>)
      requires Valid()
      ensures iterModCount != list.modCount ==> r == Err(ConcurrentModification)
      ensures iterModCount == list.modCount ==> r == Ok(nextNode < |list.elems|)
    {
      if iterModCount != list.modCount {
        return Err(ConcurrentModification);
      }
      return Ok(nextNode != list.size);
    }

    /** Returns the element at `nextNode` and steps past it. */
    method Next() returns (r: Result<T>)
      requires Valid()
      modifies this
      ensures Valid()
      ensures old(iterModCount) != list.modCount ==> r == Err(ConcurrentModification) && unchanged(this)
      ensures old(iterModCount) == list.modCount && old(nextNode) == |list.elems| ==>
        r == Err(NoSuchElement) && unchanged(this)
      ensures old(iterModCount) == list.modCount && old(nextNode) < |list.elems| ==>
        && r == Ok(list.elems[old(nextNode)])
        && nextNode == old(nextNode) + 1
        && canRemove
        && iterModCount == old(iterModCount)
    {
      var more := HasNext();
      if more.Err? {
        return Err(more.ex);
      }
      if !more.value {
        return Err(NoSuchElement);
      }
      var retVal := list.elems[nextNode];
      nextNode := nextNode + 1;
      canRemove := true;
      return Ok(retVal);
    }

    /**
     * Unlinks the node last returned by Next. The Java field keeps pointing
     * at the same node, which now sits one position earlier.
     */
    method Remove() returns (o: Outcome)
      requires Valid()
      modifies this, list
      ensures Valid()
      ensures old(iterModCount) != old(list.modCount) ==>
        o == Failed(ConcurrentModification) && unchanged(this, list)
      ensures old(iterModCount) == old(list.modCount) && !old(canRemove) ==>
        o == Failed(IllegalState) && unchanged(this, list)
      ensures old(iterModCount) == old(list.modCount) && old(canRemove) ==>
        && o == Done
        && list.elems == RemoveAt(old(list.elems), old(nextNode) - 1)
        && nextNode == old(nextNode) - 1
        && !canRemove
        && list.modCount == old(list.modCount) + 1
        && iterModCount == list.modCount
    {
      if iterModCount != list.modCount {
        return Failed(ConcurrentModification);
      }
      if !canRemove {
        return Failed(IllegalState);
      }
      if list.size == 1 {
        list.elems := [];                                   // head == tail
      } else if nextNode == 1 {
        list.elems := list.elems[1..];                      // head.getNext() == nextNode
      } else {
        var current := 0;
        while current + 2 != nextNode     // current.getNext().getNext() != nextNode
          invariant 0 <= current <= nextNode - 2
        {
          current := current + 1;
        }
        // current.setNext(nextNode), and tail = current when nextNode is null
        list.elems := list.elems[..current + 1] + list.elems[nextNode..];
      }
      nextNode := nextNode - 1;
      canRemove := false;
      list.size := list.size - 1;
      list.modCount := list.modCount + 1;
      iterModCount := iterModCount + 1;
      return Done;
    }
  }
}
