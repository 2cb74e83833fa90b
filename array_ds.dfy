/** The array-backed list: one resizable sequence, changed at an index. Every
    index-taking operation checks its bounds and, when they fail, answers with
    a sentinel and leaves the sequence as it was. */
module ArrayList {
  import opened Common

  class ArrayDS<T(==)> {
    /** The private resizable array; index range always [0, |data|). */
    var data: seq<T>

    /** Starts from a copy of `initialData`. */
    constructor (initialData: seq<T> := [])
      ensures data == initialData
    {
      data := initialData;
    }

    /** A snapshot of the elements, in index order. */
    method GetElements() returns (elements: seq<T>)
      ensures elements == data
    {
      elements := data;
    }

    /** Valid positions are [0, size]; inserting at size appends. */
    method Insert(index: int, x: T) returns (ok: bool)
      modifies this
      ensures ok <==> 0 <= index <= |old(data)|
      ensures ok ==> data == InsertAt(old(data), index, x)
      ensures !ok ==> data == old(data)
    {
      if index < 0 || index > |data| {
        return false;
      }
      data := data[..index] + [x] + data[index..];
      return true;
    }

    /** Valid positions are [0, size); answers the removed element. */
    method Delete(index: int) returns (r: Option<T>)
      modifies this
      ensures r.Some? <==> 0 <= index < |old(data)|
      ensures r.Some? ==> r.value == old(data)[index] && data == RemoveAt(old(data), index)
      ensures r.None? ==> data == old(data)
    {
      if index < 0 || index >= |data| {
        return None;
      }
      r := Some(data[index]);
      data := data[..index] + data[index + 1..];
    }

    /** `indexOf`: the first position holding `x`, or -1. */
    method Find(x: T) returns (r: int)
      ensures IsFirstIndex(data, x, r)
    {
      r := FirstIndex(data, x);
    }

    /** Valid positions are [0, size); only that one position changes. */
    method Update(index: int, x: T) returns (ok: bool)
      modifies this
      ensures ok <==> 0 <= index < |old(data)|
      ensures |data| == |old(data)|
      ensures ok ==> data[index] == x
      ensures forall k :: 0 <= k < |data| && (k != index || !ok) ==> data[k] == old(data)[k]
    {
      if index < 0 || index >= |data| {
        return false;
      }
      data := data[index := x];
      return true;
    }

    /** The element at `index`, or the sentinel when out of range. */
    method Get(index: int) returns (r: Option<T>)
      ensures r.Some? <==> 0 <= index < |data|
      ensures r.Some? ==> r.value == data[index]
    {
      if index < 0 || index >= |data| {
        return None;
      }
      return Some(data[index]);
    }

    method Size() returns (n: nat)
      ensures n == |data|
    {
      n := |data|;
    }

    method Clear()
      modifies this
      ensures data == []
    {
      data := [];
    }
  }

  /** Inserting at a valid index and then reading that index gives the new element back. */
  method InsertThenGet<T(==)>(a: ArrayDS<T>, index: int, x: T) returns (r: Option<T>)
    requires 0 <= index <= |a.data|
    modifies a
    ensures r == Some(x)
    ensures |a.data| == |old(a.data)| + 1
  {
    var ok := a.Insert(index, x);
    r := a.Get(index);
  }

  /** Deleting at an index and inserting the removed element there again
      restores the list. */
  method DeleteThenInsert<T(==)>(a: ArrayDS<T>, index: int) returns (r: Option<T>)
    requires 0 <= index < |a.data|
    modifies a
    ensures r == Some(old(a.data)[index])
    ensures a.data == old(a.data)
  {
    r := a.Delete(index);
    var ok := a.Insert(index, r.value);
    InsertAfterRemove(old(a.data), index);
  }
}
