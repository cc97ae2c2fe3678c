/**
 * A bag backed by a resizing array whose removals take the item at a
 * random position. The random position is a parameter of the model.
 */
module RandomizedQueues {
  import opened Outcomes

  /** The capacity of a new queue's array. */
  const InitialCapacity := 16

  /** The items left after the one at `r` is removed by moving the last item into its place. */
  function SwapRemove<T>(s: seq<T>, r: int): (t: seq<T>)
    requires 0 <= r < |s|
    ensures |t| == |s| - 1
  {
    s[r := s[|s| - 1]][..|s| - 1]
  }

  /** Removing by swap-with-last loses exactly the removed item and keeps every other one. */
  lemma SwapRemoveMultiset<T>(s: seq<T>, r: int)
    requires 0 <= r < |s|
    ensures multiset(SwapRemove(s, r)) + multiset{s[r]} == multiset(s)
  {
    var last := |s| - 1;
    var t := SwapRemove(s, r);
    if r == last {
      assert s == t + [s[r]];
    } else {
      assert t == s[..r] + [s[last]] + s[r + 1..last];
      assert s == s[..r] + [s[r]] + s[r + 1..last] + [s[last]];
    }
  }

  class RandomizedQueue<T> {
    var size: int
    var itemArray: array<Option<T>>

    /** The items in array order. */
    ghost var Contents: seq<T>

    /**
     * The first `size` slots hold the items and every later slot is null;
     * the array never shrinks below two slots.
     */
    ghost predicate Valid()
      reads this, itemArray
    {
      && 0 <= size <= itemArray.Length && 2 <= itemArray.Length
      && |Contents| == size
      && (forall i :: 0 <= i < size ==> itemArray[i] == Some(Contents[i]))
      && (forall i :: size <= i < itemArray.Length ==> itemArray[i] == None)
    }

    /** An empty queue over an array of the initial capacity. */
    constructor ()
      ensures Valid() && fresh(itemArray) && itemArray.Length == InitialCapacity && Contents == []
    {
      size := 0;
      itemArray := new Option<T>[InitialCapacity](_ => None);
      Contents := [];
    }

    /** Whether the queue holds no item. */
    function IsEmpty(): (b: bool)
      requires Valid()
      reads this, itemArray
      ensures b <==> Contents == []
    {
      size == 0
    }

    /** The number of items. */
    function Size(): (s: int)
      requires Valid()
      reads this, itemArray
      ensures s == |Contents| && s <= itemArray.Length
    {
      size
    }

    /**
     * Adds an item. A null item throws a null-pointer error and changes
     * nothing; a full array is first doubled.
     */
    method Enqueue(item: Option<T>) returns (r: Outcome)
      requires Valid()
      modifies this, itemArray
      ensures Valid()
      ensures item == None ==> r == Raised(NullPointer) && Contents == old(Contents) && itemArray == old(itemArray)
      ensures item != None ==> r == Normal && Contents == old(Contents) + [item.value]
      ensures item != None ==>
                itemArray.Length == if old(size) >= old(itemArray.Length) then 2 * old(itemArray.Length)
                                    else old(itemArray.Length)
    {
      if item == None {
        return Raised(NullPointer);
      }
      if size >= itemArray.Length {
        ResizeArray(itemArray.Length * 2);
      }
      itemArray[size] := item;
      size := size + 1;
      Contents := Contents + [item.value];
      r := Normal;
    }

    /**
     * Removes and returns the item at position `randIndex`, which stands for
     * the uniform random choice among the positions. The last item moves
     * into the freed position; the array halves once it is at most a quarter
     * full. An empty queue throws a no-such-element error.
     */
    method Dequeue(randIndex: int) returns (r: Result<T>)
      requires Valid()
      requires |Contents| > 0 ==> 0 <= randIndex < |Contents|
      modifies this, itemArray
      ensures Valid()
      ensures old(Contents) == [] ==> r == Throws(NoSuchElement) && Contents == old(Contents)
      ensures old(Contents) != [] ==>
                && r == Ok(old(Contents)[randIndex])
                && Contents == SwapRemove(old(Contents), randIndex)
                && multiset(Contents) + multiset{r.value} == multiset(old(Contents))
                && itemArray.Length == if 0 < |Contents| <= old(itemArray.Length) / 4 then old(itemArray.Length) / 2
                                       else old(itemArray.Length)
    {
      if size <= 0 {
        return Throws(NoSuchElement);
      }
      var item := itemArray[randIndex];
      SwapRemovedItemWithEnd(randIndex);
      size := size - 1;
      SwapRemoveMultiset(Contents, randIndex);
      Contents := SwapRemove(Contents, randIndex);
      if size > 0 && size <= itemArray.Length / 4 {
        ResizeArray(itemArray.Length / 2);
      }
      r := Ok(item.value);
    }

    /**
     * Returns the item at position `randIndex`, the uniform random choice
     * among the positions, and changes nothing. An empty queue throws a
     * no-such-element error.
     */
    method Sample(randIndex: int) returns (r: Result<T>)
      requires Valid()
      requires |Contents| > 0 ==> 0 <= randIndex < |Contents|
      ensures Contents == [] ==> r == Throws(NoSuchElement)
      ensures Contents != [] ==> r == Ok(Contents[randIndex])
    {
      if size <= 0 {
        return Throws(NoSuchElement);
      }
      var item := itemArray[randIndex];
      r := Ok(item.value);
    }

    /** Moves the last item into slot `removedIndex` and nulls the last slot. */
    method SwapRemovedItemWithEnd(removedIndex: int)
      requires 0 <= removedIndex < size <= itemArray.Length
      modifies itemArray
      ensures itemArray[..] == old(itemArray[..])[removedIndex := old(itemArray[size - 1])][size - 1 := None]
    {
      itemArray[removedIndex] := itemArray[size - 1];
      itemArray[size - 1] := None;
    }

    /** Replaces the array by a new one of `newSize` slots holding the first `size` items in order. */
    method ResizeArray(newSize: int)
      requires 0 <= size <= newSize && size <= itemArray.Length
      modifies this`itemArray
      ensures fresh(itemArray) && itemArray.Length == newSize
      ensures itemArray[..size] == old(itemArray[..size])
      ensures forall i :: size <= i < newSize ==> itemArray[i] == None
    {
      var resizedItemArray := new Option<T>[newSize](_ => None);
      var oldArray := itemArray;
      var i := 0;
      while i < size
        invariant 0 <= i <= size
        invariant resizedItemArray[..i] == oldArray[..i]
        invariant forall k :: size <= k < newSize ==> resizedItemArray[k] == None
      {
        resizedItemArray[i] := oldArray[i];
        i := i + 1;
      }
      itemArray := resizedItemArray;
    }
  }
}
