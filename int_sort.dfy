/**
 * Ascending sort of integers, standing for Go's `sort.Ints`, which raft.go's
 * updateCommit applies to a copy of matchIndex. Any algorithm that returns a
 * sorted permutation returns the same sequence, so a functional insertion sort
 * stands in for the library routine.
 */
module IntSort {

  predicate Sorted(s: seq<int>)
  {
    forall i, j :: 0 <= i < j < |s| ==> s[i] <= s[j]
  }

  /** How many elements of `s` are at least `v` (how many slots of a
      matchIndex vector have reached index `v`). */
  function CountAtLeast(s: seq<int>, v: int): (c: nat)
    ensures c <= |s|
  {
    if s == [] then 0 else (if s[0] >= v then 1 else 0) + CountAtLeast(s[1..], v)
  }

  /** Inserts `x` into the sorted `s` at its place. */
  function Insert(x: int, s: seq<int>): (r: seq<int>)
    requires Sorted(s)
    ensures Sorted(r)
    ensures multiset(r) == multiset(s) + multiset{x}
    ensures |r| == |s| + 1
    ensures r[0] == x || (s != [] && r[0] == s[0])
  {
    if s == [] || x <= s[0] then
      [x] + s
    else
      assert s == [s[0]] + s[1..];
      [s[0]] + Insert(x, s[1..])
  }

  /** Inserting `x` adds one to the count of every bound `x` reaches. */
  lemma {:induction false} InsertCount(x: int, s: seq<int>, v: int)
    requires Sorted(s)
    ensures CountAtLeast(Insert(x, s), v) == CountAtLeast(s, v) + (if x >= v then 1 else 0)
  {
    if s == [] || x <= s[0] {
      assert Insert(x, s)[1..] == s;
    } else {
      InsertCount(x, s[1..], v);
      assert Insert(x, s)[1..] == Insert(x, s[1..]);
    }
  }

  /** The ascending-sorted permutation of `s`. */
  function SortInts(s: seq<int>): (r: seq<int>)
    ensures Sorted(r)
    ensures multiset(r) == multiset(s)
    ensures |r| == |s|
  {
    if s == [] then []
    else
      assert s == [s[0]] + s[1..];
      Insert(s[0], SortInts(s[1..]))
  }

  /** Sorting keeps, for every bound, how many elements reach it. */
  lemma {:induction false} SortCount(s: seq<int>, v: int)
    ensures CountAtLeast(SortInts(s), v) == CountAtLeast(s, v)
  {
    if s != [] {
      SortCount(s[1..], v);
      InsertCount(s[0], SortInts(s[1..]), v);
    }
  }

  /** If every element from position `k` on is at least `v`, at least
      `|s| - k` elements are. */
  lemma {:induction false} CountAtLeastSuffix(s: seq<int>, k: nat, v: int)
    requires k <= |s|
    requires forall i :: k <= i < |s| ==> s[i] >= v
    ensures CountAtLeast(s, v) >= |s| - k
  {
    if s != [] {
      CountAtLeastSuffix(s[1..], if k == 0 then 0 else k - 1, v);
    }
  }

  /** In an ascending sequence, the element at position `k` is held by at
      least the `|r| - k` elements from `k` on. */
  lemma SortedCountAtLeast(r: seq<int>, k: nat)
    requires Sorted(r) && k < |r|
    ensures CountAtLeast(r, r[k]) >= |r| - k
  {
    CountAtLeastSuffix(r, k, r[k]);
  }

  /** If every element before position `k` is below `v`, at most `|s| - k`
      elements are at least `v`. */
  lemma {:induction false} CountAtLeastPrefixBelow(s: seq<int>, k: nat, v: int)
    requires k <= |s|
    requires forall i :: 0 <= i < k ==> s[i] < v
    ensures CountAtLeast(s, v) <= |s| - k
  {
    if s != [] {
      CountAtLeastPrefixBelow(s[1..], if k == 0 then 0 else k - 1, v);
    }
  }

  /** In an ascending sequence the element at position `k` is at least `v`
      whenever more than `|r| - k - 1` elements are: the order statistic is
      pinned down by the counts. */
  lemma SortedOrderStatistic(r: seq<int>, k: nat, v: int)
    requires Sorted(r) && k < |r|
    requires CountAtLeast(r, v) > |r| - k - 1
    ensures r[k] >= v
  {
    if r[k] < v {
      CountAtLeastPrefixBelow(r, k + 1, v);
    }
  }

  /** The element at position `k` of the sorted `s` is the greatest bound that
      at least `|s| - k` elements of `s` reach. */
  lemma SortedIsGreatestReached(s: seq<int>, k: nat)
    requires k < |s|
    ensures forall v :: CountAtLeast(s, v) >= |s| - k ==> v <= SortInts(s)[k]
  {
    forall v | CountAtLeast(s, v) >= |s| - k
      ensures v <= SortInts(s)[k]
    {
      SortCount(s, v);
      SortedOrderStatistic(SortInts(s), k, v);
    }
  }

  /** Taking out the element at position `i` lowers the count of every bound
      it reaches by one and leaves the others alone. */
  lemma {:induction false} CountAtLeastRemove(s: seq<int>, i: nat, v: int)
    requires i < |s|
    ensures CountAtLeast(s, v) == CountAtLeast(s[..i] + s[i + 1..], v) + (if s[i] >= v then 1 else 0)
  {
    if i == 0 {
      assert s[..i] + s[i + 1..] == s[1..];
    } else {
      CountAtLeastRemove(s[1..], i - 1, v);
      assert s[..i] + s[i + 1..] == [s[0]] + (s[1..][..i - 1] + s[1..][i..]);
    }
  }
}
