/**
 * In-place array surgery of the to-do app (`splice`, `push`), stated on
 * sequences: remove one element, insert one element, move one element.
 */
module Splice {

  /** `a.splice(i, 1)`: the sequence without its element at `i`. */
  function RemoveAt<T>(s: seq<T>, i: nat): (r: seq<T>)
    requires i < |s|
    ensures |r| == |s| - 1
    ensures forall k :: 0 <= k < i ==> r[k] == s[k]
    ensures forall k :: i <= k < |r| ==> r[k] == s[k + 1]
  {
    s[..i] + s[i + 1..]
  }

  /** `a.splice(i, 0, x)`: the sequence with `x` inserted before position `i`. */
  function InsertAt<T>(s: seq<T>, i: nat, x: T): (r: seq<T>)
    requires i <= |s|
    ensures |r| == |s| + 1
    ensures r[i] == x
    ensures forall k :: 0 <= k < i ==> r[k] == s[k]
    ensures forall k :: i < k < |r| ==> r[k] == s[k - 1]
  {
    s[..i] + [x] + s[i..]
  }

  /** `Math.min(Math.max(0, i), len)`: an insertion index always in bounds. */
  function Clamp(i: int, len: nat): (r: nat)
    ensures r <= len
    ensures 0 <= i <= len ==> r == i
    ensures i < 0 ==> r == 0
    ensures len < i ==> r == len
  {
    if i < 0 then 0 else if i < len then i else len
  }

  /** Take the element at `from` out and put it back in at `to` of the shortened sequence. */
  function Move<T>(s: seq<T>, from: nat, to: nat): (r: seq<T>)
    requires from < |s| && to < |s|
    ensures |r| == |s| && r[to] == s[from]
  {
    InsertAt(RemoveAt(s, from), to, s[from])
  }

  /** Take the element at `from` out and push it onto the end. */
  function MoveToEnd<T>(s: seq<T>, from: nat): (r: seq<T>)
    requires from < |s|
    ensures |r| == |s| && r[|s| - 1] == s[from]
  {
    RemoveAt(s, from) + [s[from]]
  }

  /** Splitting a sequence around one of its elements. */
  lemma MultisetAround<T>(s: seq<T>, i: nat)
    requires i < |s|
    ensures multiset(s) == multiset(RemoveAt(s, i)) + multiset{s[i]}
  {
    assert s == s[..i] + [s[i]] + s[i + 1..];
  }

  /** Removing then reinserting at the same place gives the original back. */
  lemma InsertRemoved<T>(s: seq<T>, i: nat)
    requires i < |s|
    ensures InsertAt(RemoveAt(s, i), i, s[i]) == s
  {
  }

  /** Inserting then removing at the same place gives the original back. */
  lemma RemoveInserted<T>(s: seq<T>, i: nat, x: T)
    requires i <= |s|
    ensures RemoveAt(InsertAt(s, i, x), i) == s
  {
  }

  /**
   * A move keeps the length and the multiset of elements, puts the moved
   * element at `to`, and leaves the others in their relative order.
   */
  lemma MoveIsPermutation<T>(s: seq<T>, from: nat, to: nat)
    requires from < |s| && to < |s|
    ensures |Move(s, from, to)| == |s|
    ensures Move(s, from, to)[to] == s[from]
    ensures multiset(Move(s, from, to)) == multiset(s)
    ensures RemoveAt(Move(s, from, to), to) == RemoveAt(s, from)
  {
    var u := RemoveAt(s, from);
    MultisetAround(s, from);
    MultisetAround(InsertAt(u, to, s[from]), to);
    RemoveInserted(u, to, s[from]);
  }

  /** Moving back from `to` to `from` undoes a move. */
  lemma MoveInverse<T>(s: seq<T>, from: nat, to: nat)
    requires from < |s| && to < |s|
    ensures Move(Move(s, from, to), to, from) == s
  {
    var m := Move(s, from, to);
    RemoveInserted(RemoveAt(s, from), to, s[from]);
    assert RemoveAt(m, to) == RemoveAt(s, from);
    InsertRemoved(s, from);
  }

  /** Moving onto a neighbour swaps the two. */
  lemma MoveAdjacentSwaps<T>(s: seq<T>, from: nat, to: nat)
    requires from < |s| && to < |s|
    requires from == to + 1 || to == from + 1
    ensures Move(s, from, to) == s[from := s[to]][to := s[from]]
  {
  }

  /**
   * Moving to the end keeps the multiset of elements, puts the moved
   * element last, and leaves the others in their relative order.
   */
  lemma MoveToEndIsPermutation<T>(s: seq<T>, from: nat)
    requires from < |s|
    ensures |MoveToEnd(s, from)| == |s|
    ensures MoveToEnd(s, from)[|s| - 1] == s[from]
    ensures MoveToEnd(s, from)[..|s| - 1] == RemoveAt(s, from)
    ensures multiset(MoveToEnd(s, from)) == multiset(s)
  {
    MultisetAround(s, from);
  }
}
