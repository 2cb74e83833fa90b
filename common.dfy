/** Conventions shared by the four containers: the optional result that stands
    for the source's `null`/`undefined` sentinels, and the positional sequence
    operations (`indexOf`, `splice`) that the containers are specified with. */
module Common {

  /** `None` is the sentinel a failed operation returns; `Some(v)` a real result. */
  datatype Option<T> = None | Some(value: T)

  /** `r` is what a first-match linear search for `x` in `s` answers:
      the least index holding `x`, or -1 when `x` does not occur. */
  predicate IsFirstIndex<T(==)>(s: seq<T>, x: T, r: int)
  {
    if r == -1 then x !in s else 0 <= r < |s| && s[r] == x && x !in s[..r]
  }

  /** The first-match search answers with exactly one index. */
  lemma FirstIndexUnique<T>(s: seq<T>, x: T, r1: int, r2: int)
    requires IsFirstIndex(s, x, r1) && IsFirstIndex(s, x, r2)
    ensures r1 == r2
  {
  }

  /** The array search `indexOf` under ordinary equality. */
  function FirstIndex<T(==)>(s: seq<T>, x: T): (r: int)
    ensures IsFirstIndex(s, x, r)
  {
    if |s| == 0 then -1
    else if s[0] == x then 0
    else
      var k := FirstIndex(s[1..], x);
      if k == -1 then -1
      else
        assert s[..k + 1] == [s[0]] + s[1..][..k];
        k + 1
  }

  /** `splice(i, 0, x)`: `x` lands at position `i` and every element from
      position `i` on moves one place to the right. */
  function InsertAt<T>(s: seq<T>, i: int, x: T): (r: seq<T>)
    requires 0 <= i <= |s|
    ensures |r| == |s| + 1
    ensures r[i] == x
    ensures forall k :: 0 <= k < i ==> r[k] == s[k]
    ensures forall k :: i < k < |r| ==> r[k] == s[k - 1]
  {
    s[..i] + [x] + s[i..]
  }

  /** `splice(i, 1)`: the element at position `i` disappears and every later
      element moves one place to the left. */
  function RemoveAt<T>(s: seq<T>, i: int): (r: seq<T>)
    requires 0 <= i < |s|
    ensures |r| == |s| - 1
    ensures forall k :: 0 <= k < i ==> r[k] == s[k]
    ensures forall k :: i <= k < |r| ==> r[k] == s[k + 1]
  {
    s[..i] + s[i + 1..]
  }

  /** Removing what was just inserted gives back the original sequence. */
  lemma RemoveAfterInsert<T>(s: seq<T>, i: int, x: T)
    requires 0 <= i <= |s|
    ensures RemoveAt(InsertAt(s, i, x), i) == s
  {
  }

  /** Putting a removed element back where it was gives back the original sequence. */
  lemma InsertAfterRemove<T>(s: seq<T>, i: int)
    requires 0 <= i < |s|
    ensures InsertAt(RemoveAt(s, i), i, s[i]) == s
  {
  }
}
