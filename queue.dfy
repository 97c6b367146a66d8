/**
 * The linked FIFO queue the traversals collect results in (algs4 `Queue`). The node
 * chain `first .. last` is modelled as the sequence `items`; `n` is the element
 * counter the class keeps beside it.
 */
module Queues {
  import opened Wrappers

  class Queue<T> {
    var items: seq<T>
    var n: int

    ghost predicate Valid()
      reads this
    {
      n == |items|
    }

    constructor ()
      ensures Valid() && items == []
    {
      items := [];
      n := 0;
    }

    method IsEmpty() returns (b: bool)
      requires Valid()
      ensures b <==> items == []
    {
      b := items == [];
    }

    method Size() returns (r: int)
      requires Valid()
      ensures r == |items|
    {
      r := n;
    }

    /** The front item; `None` stands for the "Queue underflow" exception. */
    method Peek() returns (r: Option<T>)
      requires Valid()
      ensures items == [] <==> r.None?
      ensures r.Some? ==> r.value == items[0]
    {
      if items == [] { return None; }
      r := Some(items[0]);
    }

    method Enqueue(item: T)
      requires Valid()
      modifies this
      ensures Valid()
      ensures items == old(items) + [item]
    {
      items := items + [item];
      n := n + 1;
    }

    /** Removes and returns the front item; on an empty queue it fails ("Queue
        underflow"), here `None`, and leaves the queue unchanged. */
    method Dequeue() returns (r: Option<T>)
      requires Valid()
      modifies this
      ensures Valid()
      ensures old(items) == [] ==> r.None? && items == []
      ensures old(items) != [] ==> r == Some(old(items)[0]) && items == old(items)[1..]
    {
      if items == [] { return None; }
      r := Some(items[0]);
      items := items[1..];
      n := n - 1;
    }
  }

  /** `queueToWeetArray` / `queueToUserArray`: dequeue `size()` items into an array.
      The result holds the queued items in FIFO order and the queue is left empty. */
  method QueueToArray<T>(queue: Queue<T>) returns (r: seq<T>)
    requires queue.Valid()
    modifies queue
    ensures queue.Valid()
    ensures r == old(queue.items) && queue.items == []
  {
    var sizeOfArray := queue.Size();
    r := [];
    for i := 0 to sizeOfArray
      invariant queue.Valid()
      invariant |r| == i
      invariant old(queue.items) == r + queue.items
    {
      var item := queue.Dequeue();
      r := r + [item.value];
    }
  }
}
