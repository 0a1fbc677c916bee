/**
 Positional reordering of a sequence, as `onDragEnd` performs it with two
 `Array.prototype.splice` calls (src/App.js:62-64): take the element at the
 source index out, then put it back in at the destination index. Indices are
 the in-bounds ones the drag layer supplies, so `splice`'s clamping of
 out-of-range and negative indices does not arise.
 */
module Reorder {

  /** `items.splice(i, 1)`: the sequence without its element at index `i`;
      elements before `i` stay put, elements after it shift down by one. */
  function RemoveAt<T>(s: seq<T>, i: nat): (r: seq<T>)
    requires i < |s|
    ensures |r| == |s| - 1
    ensures forall k :: 0 <= k < i ==> r[k] == s[k]
    ensures forall k :: i <= k < |r| ==> r[k] == s[k + 1]
    ensures multiset(r) + multiset{s[i]} == multiset(s)
  {
    assert s == s[..i] + [s[i]] + s[i + 1..];
    s[..i] + s[i + 1..]
  }

  /** `items.splice(j, 0, x)`: `x` lands at index `j`; elements before `j`
      stay put, elements from `j` on shift up by one. */
  function InsertAt<T>(s: seq<T>, j: nat, x: T): (r: seq<T>)
    requires j <= |s|
    ensures |r| == |s| + 1 && r[j] == x
    ensures forall k :: 0 <= k < j ==> r[k] == s[k]
    ensures forall k :: j < k < |r| ==> r[k] == s[k - 1]
    ensures multiset(r) == multiset(s) + multiset{x}
  {
    assert s == s[..j] + s[j..];
    s[..j] + [x] + s[j..]
  }

  /** Inserting at a position undoes removing from it. */
  lemma InsertRemove<T>(s: seq<T>, i: nat)
    requires i < |s|
    ensures InsertAt(RemoveAt(s, i), i, s[i]) == s
  {
  }

  /** Removing from a position undoes inserting at it. */
  lemma RemoveInsert<T>(s: seq<T>, j: nat, x: T)
    requires j <= |s|
    ensures RemoveAt(InsertAt(s, j, x), j) == s
  {
  }

  /** The body of `onDragEnd`: the element at `src` is moved to `dst`. It is
      a permutation that puts the moved element at `dst` and leaves the
      others in the same relative order. */
  function Move<T>(s: seq<T>, src: nat, dst: nat): (r: seq<T>)
    requires src < |s| && dst < |s|
    ensures |r| == |s|
    ensures r[dst] == s[src]
    ensures RemoveAt(r, dst) == RemoveAt(s, src)
    ensures multiset(r) == multiset(s)
  {
    RemoveInsert(RemoveAt(s, src), dst, s[src]);
    InsertAt(RemoveAt(s, src), dst, s[src])
  }

  /** Where the element that ends up at index `k` came from: the moved
      element comes from `src`; the block between the two indices shifts by
      one towards the vacated slot; everything outside it keeps its index. */
  function Origin(src: nat, dst: nat, k: nat): nat {
    if k == dst then src
    else if src <= k < dst then k + 1
    else if dst < k <= src then k - 1
    else k
  }

  /** A reference definition of the move, one index at a time. */
  function MoveReference<T>(s: seq<T>, src: nat, dst: nat): seq<T>
    requires src < |s| && dst < |s|
  {
    seq(|s|, k requires 0 <= k < |s| => s[Origin(src, dst, k)])
  }

  /** The two splices agree with the index-by-index reference. */
  lemma MoveMatchesReference<T>(s: seq<T>, src: nat, dst: nat)
    requires src < |s| && dst < |s|
    ensures Move(s, src, dst) == MoveReference(s, src, dst)
  {
    var r := Move(s, src, dst);
    var t := RemoveAt(s, src);
    forall k | 0 <= k < |s|
      ensures r[k] == s[Origin(src, dst, k)]
    {
      if k < dst {
        assert r[k] == t[k];
      } else if k > dst {
        assert r[k] == t[k - 1];
      }
    }
  }

  /** Dropping an element where it was picked up changes nothing. */
  lemma MoveInPlace<T>(s: seq<T>, i: nat)
    requires i < |s|
    ensures Move(s, i, i) == s
  {
    InsertRemove(s, i);
  }

  /** Moving from `i` to `j` and then from `j` back to `i` restores the
      original sequence. */
  lemma MoveRoundTrip<T>(s: seq<T>, i: nat, j: nat)
    requires i < |s| && j < |s|
    ensures Move(Move(s, i, j), j, i) == s
  {
    var t := Move(s, i, j);
    assert RemoveAt(t, j) == RemoveAt(s, i) && t[j] == s[i];
    InsertRemove(s, i);
  }
}
