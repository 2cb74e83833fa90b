/** The singly linked list: a chain of heap nodes with a head, a tail kept for
    constant-time appends, and a cached element count. */
module LinkedList {
  import opened Common

  /** One link of the chain. */
  class ListNode<T> {
    var value: T
    var next: ListNode?<T>

    constructor (value: T)
      ensures this.value == value && next == null
    {
      this.value := value;
      next := null;
    }
  }

  class LinkedListDS<T(==)> {
    var head: ListNode?<T>
    var tail: ListNode?<T>
    var count: nat

    /** The elements, head first. */
    ghost var Contents: seq<T>
    /** The nodes of the chain, head first. */
    ghost var Nodes: seq<ListNode<T>>
    /** This list and every node it owns. */
    ghost var Repr: set<object>

    /** The representation invariant: the chain is made of distinct nodes
        (so it has no cycle), node k holds element k and links to node k + 1,
        `head` is the first node, `tail` the last with no successor, `count`
        the number of nodes, and `head`, `tail` are null exactly when the
        count is zero. */
    ghost predicate Valid()
      reads this, Repr
      ensures Valid() ==> this in Repr
    {
      this in Repr &&
      (forall k :: 0 <= k < |Nodes| ==> Nodes[k] in Repr) &&
      |Nodes| == |Contents| == count &&
      (forall j, k :: 0 <= j < k < |Nodes| ==> Nodes[j] != Nodes[k]) &&
      (forall k :: 0 <= k < |Nodes| ==> Nodes[k].value == Contents[k]) &&
      (forall k :: 0 <= k < |Nodes| - 1 ==> Nodes[k].next == Nodes[k + 1]) &&
      (count == 0 ==> head == null && tail == null) &&
      (count > 0 ==> head == Nodes[0] && tail == Nodes[count - 1] && tail.next == null)
    }

    /** The node reached by following `next` pointers `steps` times from `head`. */
    ghost function Walk(steps: nat): ListNode?<T>
      reads this, Repr
    {
      if steps == 0 then head
      else
        var p := Walk(steps - 1);
        if p != null && p in Repr then p.next else null
    }

    /** Walking k < count steps from `head` reaches node k, walking `count - 1`
        steps reaches `tail`, and walking `count` steps falls off the end. */
    lemma {:induction false} WalkFromHead(steps: nat)
      requires Valid() && steps <= count
      ensures Walk(steps) == if steps < count then Nodes[steps] else null
      ensures count > 0 && steps == count - 1 ==> Walk(steps) == tail
    {
      if steps > 0 {
        WalkFromHead(steps - 1);
      }
    }

    /** No node links back to itself or to an earlier node. */
    lemma Acyclic()
      requires Valid()
      ensures forall j, k :: 0 <= j <= k < |Nodes| ==> Nodes[k].next != Nodes[j]
    {
      forall j, k | 0 <= j <= k < |Nodes|
        ensures Nodes[k].next != Nodes[j]
      {
        if k < |Nodes| - 1 {
          assert Nodes[k].next == Nodes[k + 1];
        }
      }
    }

    /** Builds the list by appending the items of `initialData` in order. */
    constructor (initialData: seq<T> := [])
      ensures Valid() && fresh(Repr)
      ensures Contents == initialData
    {
      head, tail, count := null, null, 0;
      Contents, Nodes, Repr := [], [], {this};
      new;
      for i := 0 to |initialData|
        invariant Valid() && fresh(Repr)
        invariant Contents == initialData[..i]
      {
        Append(initialData[i]);
      }
    }

    /** A fresh sequence of the values, collected by walking the chain. */
    method GetElements() returns (elements: seq<T>)
      requires Valid()
      ensures elements == Contents
    {
      elements := [];
      var current := head;
      ghost var k := 0;
      while current != null
        invariant 0 <= k <= count
        invariant current == if k < count then Nodes[k] else null
        invariant elements == Contents[..k]
        decreases count - k
      {
        elements := elements + [current.value];
        current := current.next;
        k := k + 1;
      }
    }

    /** Links a new node after the tail; an empty list gets it as head and tail. */
    method Append(x: T)
      requires Valid()
      modifies Repr
      ensures Valid() && fresh(Repr - old(Repr))
      ensures Contents == old(Contents) + [x]
      ensures old(count) == 0 ==> head == tail
      ensures old(tail) != null ==> old(tail).next == tail
    {
      var node := new ListNode(x);
      if head == null {
        head := node;
        tail := node;
      } else {
        tail.next := node;
        tail := node;
      }
      count := count + 1;
      Contents := Contents + [x];
      Nodes := Nodes + [node];
      Repr := Repr + {node};
    }

    /** Valid positions are [0, count]: position `count` appends, position 0
        replaces the head, any other position is spliced in after its
        predecessor. A failed insert changes nothing. */
    method Insert(index: int, x: T) returns (ok: bool)
      requires Valid()
      modifies Repr
      ensures Valid() && fresh(Repr - old(Repr))
      ensures ok <==> 0 <= index <= old(count)
      ensures ok ==> Contents == InsertAt(old(Contents), index, x)
      ensures !ok ==> Repr == old(Repr) && unchanged(Repr) && Contents == old(Contents)
    {
      if index < 0 || index > count {
        return false;
      }
      if index == count {
        Append(x);
      } else if index == 0 {
        LinkHead(x);
      } else {
        var previous := head;
        for i := 0 to index - 1
          invariant previous == Nodes[i]
        {
          if previous == null {
            assert false;  // the chain is at least `count` nodes long
          }
          previous := previous.next;
        }
        if previous == null {
          assert false;
        }
        LinkAfter(previous, index, x);
      }
      return true;
    }

    /** Makes a new node holding `x` the head of a non-empty list; the tail stays. */
    method LinkHead(x: T)
      requires Valid() && count > 0
      modifies this
      ensures Valid() && fresh(Repr - old(Repr))
      ensures Contents == InsertAt(old(Contents), 0, x)
      ensures tail == old(tail)
    {
      var node := new ListNode(x);
      node.next := head;
      head := node;
      count := count + 1;
      Contents := InsertAt(Contents, 0, x);
      Nodes := InsertAt(Nodes, 0, node);
      Repr := Repr + {node};
    }

    /** Splices a new node holding `x` in after `previous`, the node at
        position `index - 1`, which is not the tail. */
    method LinkAfter(previous: ListNode<T>, index: int, x: T)
      requires Valid() && 0 < index < count && previous == Nodes[index - 1]
      modifies this, previous
      ensures Valid() && fresh(Repr - old(Repr))
      ensures Contents == InsertAt(old(Contents), index, x)
      ensures tail == old(tail)
    {
      assert previous.next == Nodes[index];
      assert previous != tail;
      var node := new ListNode(x);
      node.next := previous.next;
      previous.next := node;
      count := count + 1;
      Contents := InsertAt(Contents, index, x);
      Nodes := InsertAt(Nodes, index, node);
      Repr := Repr + {node};
    }

    /** Valid positions are [0, count) on a non-empty list; answers the removed
        element. A failed delete changes nothing. */
    method Delete(index: int) returns (r: Option<T>)
      requires Valid()
      modifies Repr
      ensures Valid() && fresh(Repr - old(Repr))
      ensures r.Some? <==> 0 <= index < old(count)
      ensures r.Some? ==> r.value == old(Contents)[index] && Contents == RemoveAt(old(Contents), index)
      ensures r.Some? && Contents == [] ==> head == null && tail == null
      ensures r.Some? && 0 < index == old(count) - 1 ==> tail == old(Nodes)[index - 1]
      ensures r.None? ==> Repr == old(Repr) && unchanged(Repr) && Contents == old(Contents)
    {
      if index < 0 || index >= count || head == null {
        return None;
      }
      var removed: T;
      if index == 0 {
        removed := UnlinkHead();
      } else {
        var previous := head;
        for i := 0 to index - 1
          invariant previous == Nodes[i]
        {
          assert previous.next == Nodes[i + 1];
          if previous == null || previous.next == null {
            assert false;  // the chain is at least `count` nodes long
          }
          previous := previous.next;
        }
        assert previous.next == Nodes[index];
        if previous == null || previous.next == null {
          assert false;
        }
        removed := UnlinkAfter(previous, index);
      }
      return Some(removed);
    }

    /** Unlinks the head node and answers its value; when the list becomes
        empty the tail is cleared as well. */
    method UnlinkHead() returns (removed: T)
      requires Valid() && count > 0
      modifies this
      ensures Valid() && fresh(Repr - old(Repr))
      ensures removed == old(Contents)[0] && Contents == RemoveAt(old(Contents), 0)
      ensures count == 0 ==> tail == null
      ensures count > 0 ==> tail == old(tail)
    {
      removed := head.value;
      head := head.next;
      if head == null {
        tail := null;
      }
      count := count - 1;
      Contents := RemoveAt(Contents, 0);
      Repr := Repr - {Nodes[0]};
      Nodes := Nodes[1..];
    }

    /** Unlinks the successor of `previous`, the node at position `index - 1`,
        and answers its value; when that successor was the tail, `previous`
        becomes the tail. */
    method UnlinkAfter(previous: ListNode<T>, index: int) returns (removed: T)
      requires Valid() && 0 < index < count && previous == Nodes[index - 1]
      modifies this, previous
      ensures Valid() && fresh(Repr - old(Repr))
      ensures removed == old(Contents)[index] && Contents == RemoveAt(old(Contents), index)
      ensures index == old(count) - 1 ==> tail == previous
      ensures index < old(count) - 1 ==> tail == old(tail)
    {
      ghost var target := Nodes[index];
      assert previous.next == target;
      assert index < count - 1 ==> tail != previous && target.next == Nodes[index + 1];
      removed := previous.next.value;
      previous.next := previous.next.next;
      if previous.next == null {
        tail := previous;
      }
      count := count - 1;
      Contents := RemoveAt(Contents, index);
      Nodes := RemoveAt(Nodes, index);
      Repr := Repr - {target};
    }

    /** The index of the first node whose value is `x`, or -1. */
    method Find(x: T) returns (r: int)
      requires Valid()
      ensures IsFirstIndex(Contents, x, r)
    {
      var current := head;
      var idx := 0;
      while current != null
        invariant 0 <= idx <= count
        invariant current == if idx < count then Nodes[idx] else null
        invariant x !in Contents[..idx]
        decreases count - idx
      {
        if current.value == x {
          return idx;
        }
        assert Contents[..idx + 1] == Contents[..idx] + [current.value];
        current := current.next;
        idx := idx + 1;
      }
      return -1;
    }

    /** The element at `index`, reached by walking from the head, or the
        sentinel when out of range. */
    method Get(index: int) returns (r: Option<T>)
      requires Valid()
      ensures r.Some? <==> 0 <= index < |Contents|
      ensures r.Some? ==> r.value == Contents[index]
    {
      if index < 0 || index >= count {
        return None;
      }
      var current := head;
      for i := 0 to index
        invariant current == Nodes[i]
      {
        if current == null {
          assert false;  // the chain is at least `count` nodes long
        }
        current := current.next;
      }
      if current == null {
        assert false;
      }
      return Some(current.value);
    }

    method Size() returns (n: nat)
      requires Valid()
      ensures n == |Contents|
    {
      n := count;
    }

    /** Drops every node. The new state does not depend on the old one, so a
        second clear changes nothing. */
    method Clear()
      requires Valid()
      modifies this
      ensures Valid() && fresh(Repr - old(Repr))
      ensures Contents == [] && head == null && tail == null && count == 0
    {
      head, tail, count := null, null, 0;
      Contents, Nodes, Repr := [], [], {this};
    }
  }

  /** Appending the items one by one and then deleting at position 0 until the
      list is empty yields the items in insertion order. */
  method AppendThenDrain<T(==)>(xs: seq<T>) returns (drained: seq<T>)
    ensures drained == xs
  {
    var list := new LinkedListDS();
    for i := 0 to |xs|
      invariant list.Valid() && fresh(list.Repr)
      invariant list.Contents == xs[..i]
    {
      list.Append(xs[i]);
    }
    drained := [];
    for i := 0 to |xs|
      invariant list.Valid() && fresh(list.Repr)
      invariant list.Contents == xs[i..]
      invariant drained == xs[..i]
    {
      var r := list.Delete(0);
      drained := drained + [r.value];
    }
  }

  /** Clearing twice leaves the list empty both times. */
  method ClearTwice<T(==)>(list: LinkedListDS<T>) returns (first: nat, second: nat)
    requires list.Valid()
    modifies list
    ensures list.Valid() && list.Contents == []
    ensures first == 0 && second == 0
  {
    list.Clear();
    first := list.Size();
    list.Clear();
    second := list.Size();
  }
}
