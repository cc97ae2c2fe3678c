/**
 * A double-ended queue on a doubly linked list between two sentinel nodes,
 * with an iterator from front to end.
 */
module Deques {
  import opened Outcomes

  /** A list node. The two sentinels hold no item, which the model writes `None`. */
  class Node<T> {
    var value: Option<T>
    var previous: Node?<T>
    var next: Node?<T>

    /** A node holding an item, linked to its neighbours. */
    constructor (value: T, previous: Node?<T>, next: Node?<T>)
      ensures this.value == Some(value) && this.previous == previous && this.next == next
    {
      this.value := Some(value);
      this.previous := previous;
      this.next := next;
    }

    /** A sentinel: no item and no links. */
    constructor Sentinel()
      ensures value == None && previous == null && next == null
    {
      value := None;
      previous := null;
      next := null;
    }
  }

  class Deque<T> {
    var head: Node<T>
    var tail: Node<T>
    var size: int

    /** The items, front first. */
    ghost var Contents: seq<T>
    /** The nodes in list order: the head sentinel, one node per item, the tail sentinel. */
    ghost var Nodes: seq<Node<T>>
    ghost var Repr: set<object>

    /**
     * The nodes are distinct and linked both ways in order, the sentinels
     * end the list, the inner nodes hold the items, and `size` counts them.
     */
    ghost predicate Valid()
      reads this, Repr
    {
      && this in Repr
      && |Nodes| == size + 2 && |Contents| == size
      && Nodes[0] == head && Nodes[|Nodes| - 1] == tail
      && (forall i :: 0 <= i < |Nodes| ==> Nodes[i] in Repr)
      && (forall i, j :: 0 <= i < j < |Nodes| ==> Nodes[i] != Nodes[j])
      && (forall i :: 0 <= i < |Nodes| - 1 ==> Nodes[i].next == Nodes[i + 1])
      && (forall i :: 1 <= i < |Nodes| ==> Nodes[i].previous == Nodes[i - 1])
      && head.previous == null && tail.next == null
      && (forall i :: 0 <= i < size ==> Nodes[i + 1].value == Some(Contents[i]))
    }

    /** An empty deque: the head sentinel linked to the tail sentinel. */
    constructor ()
      ensures Valid() && fresh(Repr) && Contents == []
    {
      var h := new Node.Sentinel();
      var t := new Node.Sentinel();
      h.next := t;
      t.previous := h;
      head, tail, size := h, t, 0;
      Contents := [];
      Nodes := [h, t];
      Repr := {this, h, t};
    }

    /** Whether the deque holds no item. */
    function IsEmpty(): (b: bool)
      requires Valid()
      reads this, Repr
      ensures b <==> Contents == []
    {
      size == 0
    }

    /** The number of items. */
    function Size(): (s: int)
      requires Valid()
      reads this, Repr
      ensures s == |Contents|
    {
      size
    }

    /** Inserts an item at the front; a null item throws a null-pointer error and changes nothing. */
    method AddFirst(item: Option<T>) returns (r: Outcome)
      requires Valid()
      modifies this, Repr
      ensures Valid() && fresh(Repr - old(Repr))
      ensures item == None ==> r == Raised(NullPointer) && Contents == old(Contents)
      ensures item != None ==> r == Normal && Contents == [item.value] + old(Contents)
    {
      if item == None {
        return Raised(NullPointer);
      }
      ghost var nodes := Nodes;
      var first := head.next;
      assert first == nodes[1] && first != head;
      var newNode := new Node(item.value, head, first);
      first.previous := newNode;
      head.next := newNode;
      size := size + 1;
      Contents := [item.value] + Contents;
      Nodes := [nodes[0], newNode] + nodes[1..];
      Repr := Repr + {newNode};
      r := Normal;
      forall i | 2 <= i < |Nodes|
        ensures Nodes[i] == nodes[i - 1]
        ensures i < |Nodes| - 1 ==> Nodes[i].next == Nodes[i + 1]
        ensures i > 2 ==> Nodes[i].previous == Nodes[i - 1]
      {
        assert nodes[i - 1] != nodes[0];
        assert i > 2 ==> nodes[i - 1] != nodes[1];
      }
      assert tail != head && tail != first ==> tail.next == null;
    }

    /** Inserts an item at the end; a null item throws a null-pointer error and changes nothing. */
    method AddLast(item: Option<T>) returns (r: Outcome)
      requires Valid()
      modifies this, Repr
      ensures Valid() && fresh(Repr - old(Repr))
      ensures item == None ==> r == Raised(NullPointer) && Contents == old(Contents)
      ensures item != None ==> r == Normal && Contents == old(Contents) + [item.value]
    {
      if item == None {
        return Raised(NullPointer);
      }
      ghost var nodes := Nodes;
      ghost var m := |nodes| - 1;
      var last := tail.previous;
      assert last == nodes[m - 1] && last != tail;
      var newNode := new Node(item.value, last, tail);
      last.next := newNode;
      tail.previous := newNode;
      size := size + 1;
      Contents := Contents + [item.value];
      Nodes := nodes[..m] + [newNode, tail];
      Repr := Repr + {newNode};
      r := Normal;
      forall i | 0 <= i < m
        ensures Nodes[i] == nodes[i]
        ensures i < m - 1 ==> Nodes[i].next == Nodes[i + 1]
        ensures i >= 1 ==> Nodes[i].previous == Nodes[i - 1]
      {
        assert nodes[i] != nodes[m];
        assert i < m - 1 ==> nodes[i] != nodes[m - 1];
      }
      assert head != tail && head != last ==> head.previous == null;
    }

    /** Removes and returns the front item; an empty deque throws a no-such-element error. */
    method RemoveFirst() returns (r: Result<T>)
      requires Valid()
      modifies this, Repr
      ensures Valid() && Repr == old(Repr)
      ensures old(Contents) == [] ==> r == Throws(NoSuchElement) && Contents == old(Contents)
      ensures old(Contents) != [] ==> r == Ok(old(Contents)[0]) && Contents == old(Contents)[1..]
    {
      if size <= 0 {
        return Throws(NoSuchElement);
      }
      ghost var nodes := Nodes;
      var oldNode := head.next;
      assert oldNode == nodes[1] && oldNode.value == Some(Contents[0]);
      var second := oldNode.next;
      assert second == nodes[2] && second != head;
      second.previous := head;
      head.next := second;
      size := size - 1;
      r := Ok(oldNode.value.value);
      Contents := Contents[1..];
      Nodes := [nodes[0]] + nodes[2..];
      forall i | 1 <= i < |Nodes|
        ensures Nodes[i] == nodes[i + 1]
        ensures i < |Nodes| - 1 ==> Nodes[i].next == Nodes[i + 1]
        ensures i >= 2 ==> Nodes[i].previous == Nodes[i - 1]
      {
        assert nodes[i + 1] != nodes[0];
        assert i >= 2 ==> nodes[i + 1] != nodes[2];
      }
      assert tail != head ==> tail.next == null;
    }

    /** Removes and returns the last item; an empty deque throws a no-such-element error. */
    method RemoveLast() returns (r: Result<T>)
      requires Valid()
      modifies this, Repr
      ensures Valid() && Repr == old(Repr)
      ensures old(Contents) == [] ==> r == Throws(NoSuchElement) && Contents == old(Contents)
      ensures old(Contents) != [] ==>
                r == Ok(old(Contents)[|old(Contents)| - 1]) && Contents == old(Contents)[..|old(Contents)| - 1]
    {
      if size <= 0 {
        return Throws(NoSuchElement);
      }
      ghost var nodes := Nodes;
      ghost var m := |nodes| - 1;
      var oldNode := tail.previous;
      assert oldNode == nodes[m - 1] && oldNode.value == Some(Contents[size - 1]);
      var before := oldNode.previous;
      assert before == nodes[m - 2] && before != tail;
      before.next := tail;
      tail.previous := before;
      size := size - 1;
      r := Ok(oldNode.value.value);
      Contents := Contents[..size];
      Nodes := nodes[..m - 1] + [tail];
      forall i | 0 <= i < m - 1
        ensures Nodes[i] == nodes[i]
        ensures i < m - 2 ==> Nodes[i].next == Nodes[i + 1]
        ensures i >= 1 ==> Nodes[i].previous == Nodes[i - 1]
      {
        assert nodes[i] != nodes[m];
        assert i < m - 2 ==> nodes[i] != nodes[m - 2];
      }
      assert head != tail ==> head.previous == null;
    }

    /** An iterator over the items from front to end, starting at the head sentinel. */
    method Iterator() returns (it: DequeIterator<T>)
      requires Valid()
      ensures fresh(it) && it.deque == this && it.Index == 0 && it.Valid()
    {
      it := new DequeIterator(this);
    }
  }

  /** Walks the nodes from the head sentinel towards the tail sentinel. */
  class DequeIterator<T> {
    const deque: Deque<T>
    var currentNode: Node<T>
    /** The position of `currentNode` in the deque's node list: how many items were returned. */
    ghost var Index: nat

    ghost predicate Valid()
      reads this, deque, deque.Repr
    {
      deque.Valid() && Index <= |deque.Contents| && currentNode == deque.Nodes[Index]
    }

    constructor (deque: Deque<T>)
      requires deque.Valid()
      ensures this.deque == deque && Index == 0 && Valid()
    {
      this.deque := deque;
      currentNode := deque.head;
      Index := 0;
    }

    /** Whether an item remains: exactly when fewer items than the deque holds were returned. */
    function HasNext(): (b: bool)
      requires Valid()
      reads this, deque, deque.Repr
      ensures b <==> Index < |deque.Contents|
    {
      assert currentNode.next == deque.Nodes[Index + 1];
      currentNode.next != null && currentNode.next != deque.tail
    }

    /** Returns the next item in order; past the last one it throws a no-such-element error. */
    method Next() returns (r: Result<T>)
      requires Valid()
      modifies this`currentNode, this`Index
      ensures Valid()
      ensures old(Index) < |deque.Contents| ==> r == Ok(deque.Contents[old(Index)]) && Index == old(Index) + 1
      ensures old(Index) == |deque.Contents| ==> r == Throws(NoSuchElement) && Index == old(Index)
    {
      if !HasNext() {
        return Throws(NoSuchElement);
      }
      assert currentNode.next == deque.Nodes[Index + 1] && deque.Nodes[Index + 1].value == Some(deque.Contents[Index]);
      currentNode := currentNode.next;
      Index := Index + 1;
      r := Ok(currentNode.value.value);
    }

    /** Removal through the iterator is not supported. */
    method Remove() returns (r: Outcome)
      ensures r == Raised(UnsupportedOperation)
    {
      r := Raised(UnsupportedOperation);
    }
  }
}
