/** The LIFO stack over a resizable sequence: the bottom is position 0, the
    top the last position. */
module Stack {
  import opened Common

  class StackDS<T> {
    var data: seq<T>

    /** Starts from a copy of `initialData`, bottom first. */
    constructor (initialData: seq<T> := [])
      ensures data == initialData
    {
      data := initialData;
    }

    /** Puts `x` on top. */
    method Push(x: T)
      modifies this
      ensures data == old(data) + [x]
    {
      data := data + [x];
    }

    /** Removes and answers the top element; an empty stack answers the
        sentinel and stays empty. */
    method Pop() returns (r: Option<T>)
      modifies this
      ensures old(data) == [] ==> r == None && data == []
      ensures old(data) != [] ==> r == Some(old(data)[|old(data)| - 1]) && data == old(data)[..|old(data)| - 1]
    {
      if |data| == 0 {
        return None;
      }
      r := Some(data[|data| - 1]);
      data := data[..|data| - 1];
    }

    /** The top element, or the sentinel when empty. */
    method Peek() returns (r: Option<T>)
      ensures r.Some? <==> data != []
      ensures r.Some? ==> r.value == data[|data| - 1]
    {
      if |data| == 0 {
        return None;
      }
      return Some(data[|data| - 1]);
    }

    method IsEmpty() returns (empty: bool)
      ensures empty <==> |data| == 0
    {
      empty := |data| == 0;
    }

    method Size() returns (n: nat)
      ensures n == |data|
    {
      n := |data|;
    }

    method Clear()
      modifies this
      ensures data == []
    {
      data := [];
    }

    /** A snapshot of the elements, bottom to top. */
    method GetElements() returns (elements: seq<T>)
      ensures elements == data
    {
      elements := data;
    }
  }

  /** A push followed by a pop answers the pushed element and restores the
      previous contents. */
  method PushThenPop<T>(s: StackDS<T>, x: T) returns (r: Option<T>)
    modifies s
    ensures r == Some(x)
    ensures s.data == old(s.data)
  {
    s.Push(x);
    r := s.Pop();
  }

  /** Pushing the items onto an empty stack and popping as many times yields
      the items in reverse order. */
  method LifoOrder<T>(xs: seq<T>) returns (popped: seq<T>)
    ensures |popped| == |xs|
    ensures forall k :: 0 <= k < |xs| ==> popped[k] == xs[|xs| - 1 - k]
  {
    var s := new StackDS();
    for i := 0 to |xs|
      invariant s.data == xs[..i]
    {
      s.Push(xs[i]);
    }
    popped := [];
    for i := 0 to |xs|
      invariant s.data == xs[..|xs| - i]
      invariant |popped| == i
      invariant forall k :: 0 <= k < i ==> popped[k] == xs[|xs| - 1 - k]
    {
      var r := s.Pop();
      popped := popped + [r.value];
    }
  }
}
