/** What the sorting visualisers promise about the array they leave behind:
    ascending order, and the same numbers as the input. */
module SortSpec {
  /** Ascending (non-decreasing) order, the order `>`/`<=` on numbers gives. */
  predicate Sorted(s: seq<int>)
  {
    forall i, j :: 0 <= i < j < |s| ==> s[i] <= s[j]
  }

  /** There is only one ascending arrangement of a multiset of numbers, so
      any two sorts of the same input agree, and sorting leaves an already
      sorted input as it is. */
  lemma {:induction false} SortedPermutationUnique(a: seq<int>, b: seq<int>)
    requires Sorted(a) && Sorted(b)
    requires multiset(a) == multiset(b)
    ensures a == b
  {
    if a != [] {
      SortedHeadsAgree(a, b);
      TailsPermute(a, b);
      SortedTail(a);
      SortedTail(b);
      SortedPermutationUnique(a[1..], b[1..]);
      assert a == [a[0]] + a[1..];
      assert b == [b[0]] + b[1..];
    } else {
      assert |b| == |multiset(b)| == 0;
    }
  }

  lemma SortedHeadsAgree(a: seq<int>, b: seq<int>)
    requires Sorted(a) && Sorted(b) && a != []
    requires multiset(a) == multiset(b)
    ensures b != [] && a[0] == b[0]
  {
    assert a[0] in multiset(b);
    var p :| 0 <= p < |b| && b[p] == a[0];
    assert b[0] in multiset(a);
    var q :| 0 <= q < |a| && a[q] == b[0];
    assert a[0] <= a[q] && b[0] <= b[p];
  }

  lemma TailsPermute(a: seq<int>, b: seq<int>)
    requires a != [] && b != [] && a[0] == b[0]
    requires multiset(a) == multiset(b)
    ensures multiset(a[1..]) == multiset(b[1..])
  {
    assert a == [a[0]] + a[1..];
    assert b == [b[0]] + b[1..];
    assert multiset(a[1..]) == multiset(a) - multiset{a[0]};
    assert multiset(b[1..]) == multiset(b) - multiset{b[0]};
  }

  lemma SortedTail(a: seq<int>)
    requires Sorted(a) && a != []
    ensures Sorted(a[1..])
  {
  }

  /** An upper bound on every element carries over to a permutation. */
  lemma BoundCarriesOver(s: seq<int>, t: seq<int>, v: int)
    requires multiset(s) == multiset(t)
    requires forall i :: 0 <= i < |s| ==> s[i] <= v
    ensures forall i :: 0 <= i < |t| ==> t[i] <= v
  {
    forall i | 0 <= i < |t| ensures t[i] <= v {
      assert t[i] in multiset(s);
    }
  }
}
