/** The merge sort of the sorting visualiser
    (client/src/components/visualizers/utils/algorithms/mergeSort.ts): a
    copy of the input is sorted in place by a top-down divide, with each
    merge reading the two halves from copies. */
module MergeSortAlgorithm {
  import opened SortSpec

  /** The result of merging `a` and `b`: repeatedly take the smaller head,
      preferring the left one on ties (`left[i] <= right[j]`). */
  function Merged(a: seq<int>, b: seq<int>): (r: seq<int>)
    ensures |r| == |a| + |b|
  {
    if a == [] then b
    else if b == [] then a
    else if a[0] <= b[0] then [a[0]] + Merged(a[1..], b)
    else [b[0]] + Merged(a, b[1..])
  }

  /** Merging keeps every number of both inputs, and nothing else. */
  lemma {:induction false} MergedPermutes(a: seq<int>, b: seq<int>)
    ensures multiset(Merged(a, b)) == multiset(a) + multiset(b)
  {
    if a != [] && b != [] {
      if a[0] <= b[0] {
        MergedPermutes(a[1..], b);
        assert a == [a[0]] + a[1..];
      } else {
        MergedPermutes(a, b[1..]);
        assert b == [b[0]] + b[1..];
      }
    }
  }

  /** Every number of the merge is bounded below by a bound of both inputs. */
  lemma MergedAbove(a: seq<int>, b: seq<int>, v: int)
    requires forall i :: 0 <= i < |a| ==> v <= a[i]
    requires forall i :: 0 <= i < |b| ==> v <= b[i]
    ensures forall i :: 0 <= i < |Merged(a, b)| ==> v <= Merged(a, b)[i]
  {
    MergedPermutes(a, b);
    forall i | 0 <= i < |Merged(a, b)| ensures v <= Merged(a, b)[i] {
      assert Merged(a, b)[i] in multiset(a) + multiset(b);
    }
  }

  /** Merging two sorted runs gives a sorted run. */
  lemma {:induction false} MergedSorted(a: seq<int>, b: seq<int>)
    requires Sorted(a) && Sorted(b)
    ensures Sorted(Merged(a, b))
  {
    if a != [] && b != [] {
      if a[0] <= b[0] {
        MergedSorted(a[1..], b);
        MergedAbove(a[1..], b, a[0]);
      } else {
        MergedSorted(a, b[1..]);
        MergedAbove(a, b[1..], b[0]);
      }
    }
  }

  /** `merge(arr, l, m, r)`: merges the runs `arr[l..m]` and `arr[m+1..r]`
      (inclusive bounds) into `arr[l..r]`; the rest of `arr` is left alone. */
  method Merge(arr: array<int>, l: int, m: int, r: int)
    requires 0 <= l <= m < r < arr.Length
    modifies arr
    ensures arr[l..r + 1] == Merged(old(arr[l..m + 1]), old(arr[m + 1..r + 1]))
    ensures forall p :: 0 <= p < arr.Length && !(l <= p <= r) ==> arr[p] == old(arr[p])
  {
    var left := arr[l..m + 1];
    var right := arr[m + 1..r + 1];
    ghost var merged := Merged(left, right);
    var i, j, k := MergeHeads(arr, left, right, l);
    // One run is used up; what is left of the other is already in order.
    ghost var i0, j0, k0 := i, j, k;
    assert merged[i + j..] == left[i..] + right[j..] by {
      if i == |left| { assert left[i..] == []; } else { assert right[j..] == []; }
    }
    i, k := Drain(arr, left, i, k);
    ghost var k1 := k;
    j, k := Drain(arr, right, j, k);
    forall p | l <= p <= r ensures arr[p] == merged[p - l] {
      if p < k0 {
      } else if p < k1 {
        assert arr[p] == left[i0 + p - k0];
        assert merged[p - l] == merged[i0 + j0..][p - k0];
      } else {
        assert arr[p] == right[j0 + p - k1];
        assert merged[p - l] == merged[i0 + j0..][p - k0];
      }
    }
    assert arr[l..r + 1] == merged;
  }

  /** The first loop of `merge`: while both runs have numbers left, write
      the smaller head (the left one on ties) at `k`. It stops with one run
      used up, having written the first `i + j` numbers of the merge. */
  method MergeHeads(arr: array<int>, left: seq<int>, right: seq<int>, l: int) returns (i: int, j: int, k: int)
    requires 0 <= l && l + |left| + |right| <= arr.Length
    modifies arr
    ensures 0 <= i <= |left| && 0 <= j <= |right| && k == l + i + j
    ensures i == |left| || j == |right|
    ensures Merged(left[i..], right[j..]) == Merged(left, right)[i + j..]
    ensures forall p :: l <= p < k ==> arr[p] == Merged(left, right)[p - l]
    ensures forall p :: 0 <= p < arr.Length && !(l <= p < k) ==> arr[p] == old(arr[p])
  {
    ghost var merged := Merged(left, right);
    i, j, k := 0, 0, l;
    while i < |left| && j < |right|
      invariant 0 <= i <= |left| && 0 <= j <= |right| && k == l + i + j
      invariant Merged(left[i..], right[j..]) == merged[i + j..]
      invariant forall p :: l <= p < k ==> arr[p] == merged[p - l]
      invariant forall p :: 0 <= p < arr.Length && !(l <= p < k) ==> arr[p] == old(arr[p])
    {
      HeadStep(left, right, i, j, merged);
      if left[i] <= right[j] {
        arr[k] := left[i];
        i := i + 1;
      } else {
        arr[k] := right[j];
        j := j + 1;
      }
      k := k + 1;
    }
  }

  /** The tail loops of `merge`: copy what is left of `run`, from index `i`
      on, into `arr` from index `k` on. */
  method Drain(arr: array<int>, run: seq<int>, i: int, k: int) returns (i': int, k': int)
    requires 0 <= i <= |run| && 0 <= k && k + |run| - i <= arr.Length
    modifies arr
    ensures i' == |run| && k' == k + |run| - i
    ensures forall p :: k <= p < k' ==> arr[p] == run[i + p - k]
    ensures forall p :: 0 <= p < arr.Length && !(k <= p < k') ==> arr[p] == old(arr[p])
  {
    i', k' := i, k;
    while i' < |run|
      invariant i <= i' <= |run| && k' == k + i' - i
      invariant forall p :: k <= p < k' ==> arr[p] == run[i + p - k]
      invariant forall p :: 0 <= p < arr.Length && !(k <= p < k') ==> arr[p] == old(arr[p])
    {
      arr[k'] := run[i'];
      i', k' := i' + 1, k' + 1;
    }
  }

  /** While both runs have numbers left, the next number of the merge is
      the smaller head, the left one on ties. */
  lemma HeadStep(left: seq<int>, right: seq<int>, i: int, j: int, merged: seq<int>)
    requires 0 <= i < |left| && 0 <= j < |right| && i + j < |merged|
    requires Merged(left[i..], right[j..]) == merged[i + j..]
    ensures left[i] <= right[j] ==>
      merged[i + j] == left[i] && Merged(left[i + 1..], right[j..]) == merged[i + j + 1..]
    ensures left[i] > right[j] ==>
      merged[i + j] == right[j] && Merged(left[i..], right[j + 1..]) == merged[i + j + 1..]
  {
    MergeStep(left, right, i, j);
    if left[i] <= right[j] {
      Uncons(merged, i + j, left[i], Merged(left[i + 1..], right[j..]));
    } else {
      Uncons(merged, i + j, right[j], Merged(left[i..], right[j + 1..]));
    }
  }

  /** Splitting the head off a suffix of `s`. */
  lemma Uncons(s: seq<int>, n: int, x: int, rest: seq<int>)
    requires 0 <= n < |s| && s[n..] == [x] + rest
    ensures s[n] == x && s[n + 1..] == rest
  {
    assert s[n..][0] == x;
    assert s[n + 1..] == s[n..][1..];
  }

  /** One step of the merge: the number written next is the head of what
      is still to be merged. */
  lemma MergeStep(left: seq<int>, right: seq<int>, i: int, j: int)
    requires 0 <= i <= |left| && 0 <= j <= |right| && (i < |left| || j < |right|)
    ensures i < |left| && (j == |right| || left[i] <= right[j]) ==>
      Merged(left[i..], right[j..]) == [left[i]] + Merged(left[i + 1..], right[j..])
    ensures j < |right| && (i == |left| || left[i] > right[j]) ==>
      Merged(left[i..], right[j..]) == [right[j]] + Merged(left[i..], right[j + 1..])
  {
    if i < |left| {
      assert left[i..][1..] == left[i + 1..];
    }
    if j < |right| {
      assert right[j..][1..] == right[j + 1..];
    }
  }

  /** `divide(arr, l, r)`: sorts `arr[l..r]` (inclusive bounds) by sorting
      each half and merging them; a range of at most one number is left as
      it is. Nothing outside the range moves. */
  method Divide(arr: array<int>, l: int, r: int)
    requires 0 <= l <= r + 1 <= arr.Length
    modifies arr
    ensures Sorted(arr[l..r + 1])
    ensures multiset(arr[l..r + 1]) == old(multiset(arr[l..r + 1]))
    ensures forall p :: 0 <= p < arr.Length && !(l <= p <= r) ==> arr[p] == old(arr[p])
    decreases r - l
  {
    if l >= r {
      return;
    }
    var m := (l + r) / 2;
    ghost var before := arr[..];
    Divide(arr, l, m);
    ghost var mid := arr[..];
    Divide(arr, m + 1, r);
    ghost var a, b := mid[l..m + 1], arr[m + 1..r + 1];
    assert arr[l..m + 1] == a;
    Merge(arr, l, m, r);
    MergedSorted(a, b);
    MergeHalves(before, mid, l, m, r, b);
  }

  /** Merging the two sorted halves of a range keeps the numbers of the
      range: `mid` is the array after the left half is sorted, `b` the
      right half once it is sorted too. */
  lemma MergeHalves(before: seq<int>, mid: seq<int>, l: int, m: int, r: int, b: seq<int>)
    requires 0 <= l <= m < r < |before| == |mid|
    requires multiset(mid[l..m + 1]) == multiset(before[l..m + 1])
    requires forall p :: m < p <= r ==> mid[p] == before[p]
    requires multiset(b) == multiset(mid[m + 1..r + 1])
    ensures multiset(Merged(mid[l..m + 1], b)) == multiset(before[l..r + 1])
  {
    MergedPermutes(mid[l..m + 1], b);
    assert mid[m + 1..r + 1] == before[m + 1..r + 1];
    assert before[l..r + 1] == before[l..m + 1] + before[m + 1..r + 1];
  }

  /** `mergeSort(array, ...)`: the array it sorts in place ends as
      the input in ascending order. */
  method MergeSort(input: seq<int>) returns (sorted: seq<int>)
    ensures Sorted(sorted)
    ensures multiset(sorted) == multiset(input)
    ensures Sorted(input) ==> sorted == input
  {
    var arr := new int[|input|];
    forall k | 0 <= k < |input| {
      arr[k] := input[k];
    }
    assert arr[..] == input;
    assert arr[0..arr.Length] == input;
    Divide(arr, 0, arr.Length - 1);
    assert arr[0..arr.Length] == arr[..];
    sorted := arr[..];
    if Sorted(input) {
      SortedPermutationUnique(sorted, input);
    }
  }
}
