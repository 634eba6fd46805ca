/** The bubble sort of the sorting visualiser
    (client/src/components/visualizers/utils/algorithms/bubbleSort.ts): a
    copy of the input is sorted in place by adjacent swaps. */
module BubbleSortAlgorithm {
  import opened SortSpec

  /** One pass of the inner loop over `a[..len]`: each adjacent pair that is
      out of order (`a[j] > a[j + 1]`) is swapped, which carries the largest
      number of the prefix to its last slot. Nothing at or after `len`
      moves. */
  method BubblePass(a: array<int>, len: int)
    requires 1 <= len <= a.Length
    modifies a
    ensures multiset(a[..len]) == old(multiset(a[..len]))
    ensures a[len..] == old(a[len..])
    ensures forall p :: 0 <= p < len ==> a[p] <= a[len - 1]
  {
    var j := 0;
    while j < len - 1
      invariant 0 <= j <= len - 1
      invariant multiset(a[..]) == old(multiset(a[..]))
      invariant forall p :: len <= p < a.Length ==> a[p] == old(a[p])
      invariant forall p :: 0 <= p <= j ==> a[p] <= a[j]
    {
      if a[j] > a[j + 1] {
        Swap(a, j);
      }
      j := j + 1;
    }
    assert a[len..] == old(a[len..]);
    PrefixKeepsMultiset(old(a[..]), a[..], len);
  }

  /** The destructuring swap of two neighbouring cells. */
  method Swap(a: array<int>, j: int)
    requires 0 <= j < j + 1 < a.Length
    modifies a
    ensures a[j] == old(a[j + 1]) && a[j + 1] == old(a[j])
    ensures forall p :: 0 <= p < a.Length && p != j && p != j + 1 ==> a[p] == old(a[p])
    ensures multiset(a[..]) == old(multiset(a[..]))
  {
    a[j], a[j + 1] := a[j + 1], a[j];
  }

  /** Two arrays with the same numbers and the same suffix have the same
      numbers before the suffix. */
  lemma PrefixKeepsMultiset(before: seq<int>, after: seq<int>, len: int)
    requires 0 <= len <= |before| == |after|
    requires multiset(after) == multiset(before)
    requires after[len..] == before[len..]
    ensures multiset(after[..len]) == multiset(before[..len])
  {
    assert after == after[..len] + after[len..];
    assert before == before[..len] + before[len..];
    assert multiset(after[..len]) == multiset(after) - multiset(after[len..]);
    assert multiset(before[..len]) == multiset(before) - multiset(before[len..]);
  }

  /** After the passes so far, the last `|s| - m` slots hold the largest
      numbers in ascending order. */
  predicate SuffixPlaced(s: seq<int>, m: int)
    requires 0 <= m <= |s|
  {
    && Sorted(s[m..])
    && forall p, q :: 0 <= p < m <= q < |s| ==> s[p] <= s[q]
  }

  /** `bubbleSort(array, ...)`: the array it sorts in place ends as
      the input in ascending order. */
  method BubbleSort(input: seq<int>) returns (sorted: seq<int>)
    ensures Sorted(sorted)
    ensures multiset(sorted) == multiset(input)
    ensures Sorted(input) ==> sorted == input
  {
    var arr := new int[|input|];
    forall k | 0 <= k < |input| {
      arr[k] := input[k];
    }
    assert arr[..] == input;
    var n := arr.Length;
    var i := 0;
    while i < n - 1
      invariant 0 <= i && (n > 0 ==> i <= n - 1) && (n == 0 ==> i == 0)
      invariant multiset(arr[..]) == multiset(input)
      invariant SuffixPlaced(arr[..], n - i)
    {
      ghost var before := arr[..];
      BubblePass(arr, n - i);
      PassPlacesOneMore(before, arr[..], n - i);
      i := i + 1;
    }
    sorted := arr[..];
    AllPlaced(sorted, n - i);
    if Sorted(input) {
      SortedPermutationUnique(sorted, input);
    }
  }

  /** A pass over the first `m` slots grows the placed suffix by one, and
      keeps the multiset of the whole array. */
  lemma PassPlacesOneMore(before: seq<int>, after: seq<int>, m: int)
    requires 1 <= m <= |before| == |after|
    requires SuffixPlaced(before, m)
    requires multiset(after[..m]) == multiset(before[..m])
    requires after[m..] == before[m..]
    requires forall p :: 0 <= p < m ==> after[p] <= after[m - 1]
    ensures SuffixPlaced(after, m - 1)
    ensures multiset(after) == multiset(before)
  {
    assert after == after[..m] + after[m..];
    assert before == before[..m] + before[m..];
    forall q | m <= q < |after|
      ensures forall p :: 0 <= p < m ==> after[p] <= after[q]
    {
      assert forall p :: 0 <= p < m ==> before[..m][p] <= before[q];
      BoundCarriesOver(before[..m], after[..m], before[q]);
      assert after[q] == before[q];
      assert forall p :: 0 <= p < m ==> after[p] == after[..m][p];
    }
  }

  /** When at most one slot is left unplaced, the whole array is sorted. */
  lemma AllPlaced(s: seq<int>, m: int)
    requires 0 <= m <= 1 && m <= |s|
    requires SuffixPlaced(s, m)
    ensures Sorted(s)
  {
  }
}
