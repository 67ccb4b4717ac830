/** Sorting the node list in place, and draining its best nodes. */
module Sorting {
  import opened Ranking

  /** `List.Swap`: exchange two entries of the list. */
  method Swap(list: array<Node>, i: int, j: int)
    requires 0 <= i < list.Length && 0 <= j < list.Length
    modifies list
    ensures list[..] == old(list[..])[i := old(list[j])][j := old(list[i])]
    ensures multiset(list[..]) == multiset(old(list[..]))
  {
    list[i], list[j] := list[j], list[i];
  }

  /** `sort.Sort` on the list: reorders it by `Less` using only `Swap`.
      Insertion sort is what the library runs on short lists; only its
      outcome (a sorted permutation) is relied on. */
  method Sort(list: array<Node>)
    modifies list
    ensures Sorted(list[..])
    ensures multiset(list[..]) == multiset(old(list[..]))
  {
    var i := 0;
    while i < list.Length
      invariant 0 <= i <= list.Length
      invariant Sorted(list[..i])
      invariant multiset(list[..]) == multiset(old(list[..]))
    {
      Insert(list, i);
      i := i + 1;
    }
  }

  /** Moves `list[i]` down into the sorted prefix `list[..i]`. */
  method Insert(list: array<Node>, i: int)
    requires 0 <= i < list.Length
    requires Sorted(list[..i])
    modifies list
    ensures Sorted(list[..i + 1])
    ensures list[i + 1..] == old(list[i + 1..])
    ensures multiset(list[..]) == multiset(old(list[..]))
  {
    var j := i;
    while 0 < j && Less(list[j], list[j - 1])
      invariant 0 <= j <= i
      invariant forall k, m :: 0 <= k < m <= i && k != j && m != j ==> !Less(list[m], list[k])
      invariant forall m :: j < m <= i ==> !Less(list[m], list[j])
      invariant list[i + 1..] == old(list[i + 1..])
      invariant multiset(list[..]) == multiset(old(list[..]))
    {
      Swap(list, j - 1, j);
      j := j - 1;
    }
  }

  /** `List.toChannel`: sorts the list in place, then emits its first
      `maxCount` nodes in order, or all of them when the list is shorter
      (none when `maxCount` is not positive). */
  method ToChannel(list: array<Node>, maxCount: int) returns (emitted: seq<Node>)
    modifies list
    ensures Sorted(list[..])
    ensures multiset(list[..]) == multiset(old(list[..]))
    ensures |emitted| == if maxCount <= 0 then 0 else if maxCount < list.Length then maxCount else list.Length
    ensures emitted == list[..|emitted|]
  {
    var max: int;
    if maxCount < list.Length {
      max := maxCount;
    } else {
      max := list.Length;
    }
    Sort(list);
    emitted := [];
    var i := 0;
    while i < max
      invariant 0 <= i <= (if max < 0 then 0 else max)
      invariant emitted == list[..i]
    {
      emitted := emitted + [list[i]];
      i := i + 1;
    }
  }
}
