/** The FIFO queue over a resizable sequence: the front is position 0, the
    rear the last position. */
module Queue {
  import opened Common

  class QueueDS<T> {
    var data: seq<T>

    /** Starts from a copy of `initialData`, front first. */
    constructor (initialData: seq<T> := [])
      ensures data == initialData
    {
      data := initialData;
    }

    /** Adds `x` at the rear. */
    method Enqueue(x: T)
      modifies this
      ensures data == old(data) + [x]
    {
      data := data + [x];
    }

    /** Removes and answers the front element; an empty queue answers the
        sentinel and stays empty. */
    method Dequeue() returns (r: Option<T>)
      modifies this
      ensures old(data) == [] ==> r == None && data == []
      ensures old(data) != [] ==> r == Some(old(data)[0]) && data == old(data)[1..]
    {
      if |data| == 0 {
        return None;
      }
      r := Some(data[0]);
      data := data[1..];
    }

    /** The front element, or the sentinel when empty. */
    method Front() returns (r: Option<T>)
      ensures r.Some? <==> data != []
      ensures r.Some? ==> r.value == data[0]
    {
      if |data| == 0 {
        return None;
      }
      return Some(data[0]);
    }

    /** The rear element, or the sentinel when empty. */
    method Rear() returns (r: Option<T>)
      ensures r.Some? <==> data != []
      ensures r.Some? ==> r.value == data[|data| - 1]
    {
      if |data| == 0 {
        return None;
      }
      return Some(data[|data| - 1]);
    }

    method IsEmpty() returns (empty: bool)
      ensures empty <==> |data| == 0
    {
      empty := |data| == 0;
    }

    method Size() returns (n: nat)
      ensures n == |data|
    {
      n := |data|;
    }

    method Clear()
      modifies this
      ensures data == []
    {
      data := [];
    }

    /** A snapshot of the elements, front to rear. */
    method GetElements() returns (elements: seq<T>)
      ensures elements == data
    {
      elements := data;
    }
  }

  /** Enqueueing the items into an empty queue and dequeueing as many times
      yields the items in the order they were enqueued. */
  method FifoOrder<T>(xs: seq<T>) returns (dequeued: seq<T>)
    ensures dequeued == xs
  {
    var q := new QueueDS();
    for i := 0 to |xs|
      invariant q.data == xs[..i]
    {
      q.Enqueue(xs[i]);
    }
    dequeued := [];
    for i := 0 to |xs|
      invariant q.data == xs[i..]
      invariant dequeued == xs[..i]
    {
      var r := q.Dequeue();
      dequeued := dequeued + [r.value];
    }
  }
}
