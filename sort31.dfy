/** `sorting_network_sorter_impl<31u>`: sorts the first 16 and the next 15
    elements of the range with the 16- and 15-element networks, then merges
    the two sorted halves with 64 `swap_if` calls. */
module SortThirtyOne {
  import opened Order
  import opened CompareSwap
  import opened MergeNetwork
  import opened ZeroOnePrinciple

  /** Where the insertion of `s[i]` into the sorted `s[lo..i]` has got to:
      `s[lo..j]` and `s[j..i + 1]` are sorted and nothing in the first goes
      after anything in the second except possibly `s[j]`. */
  ghost predicate Inserting<T>(less: (T, T) -> bool, s: seq<T>, lo: int, j: int, i: int)
  {
    && SortedWithin(less, s, lo, j)
    && SortedWithin(less, s, j, i + 1)
    && forall k, m :: lo <= k < j < m <= i && 0 <= k && m < |s| ==> !less(s[m], s[k])
  }

  /** One compare-exchange of the neighbours `j - 1` and `j` moves the
      insertion one place down. */
  lemma InsertingStep<T(!new)>(less: (T, T) -> bool, s: seq<T>, lo: nat, j: nat, i: nat)
    requires StrictWeakOrder(less) && lo < j <= i < |s| && Inserting(less, s, lo, j, i)
    ensures Inserting(less, CompareExchange(less, s, j - 1, j), lo, j - 1, i)
  {
    var r := CompareExchange(less, s, j - 1, j);
    var p, q := s[j - 1], s[j];
    CompareExchangeFrame(less, s, j - 1, j);
    CompareExchangeOrders(less, s, j - 1, j);
    assert r[j - 1] == Lower(less, p, q) && r[j] == Upper(less, p, q);
    forall k, m | j - 1 <= k < m <= i
      ensures !less(r[m], r[k])
    {
      if k == j - 1 && m > j {
        assert !less(s[m], p) && !less(s[m], q);
      } else if k == j {
        assert !less(s[m], p) && !less(s[m], q);
      }
    }
    forall k, m | lo <= k < j - 1 < m <= i
      ensures !less(r[m], r[k])
    {
      if m == j {
        assert !less(p, s[k]);
        if !less(q, p) {
          NotLessTransitive(less, s[k], p, q);
        }
      }
    }
  }

  /** Inserting the element at `i` into the sorted `s[lo..i]` starts with
      nothing moved yet. */
  lemma InsertingStart<T>(less: (T, T) -> bool, s: seq<T>, lo: nat, i: nat)
    requires lo <= i < |s| && SortedWithin(less, s, lo, i)
    ensures Inserting(less, s, lo, i, i)
  {
  }

  /** Once the insertion has reached `lo`, `s[lo..i + 1]` is sorted. */
  lemma InsertingDone<T>(less: (T, T) -> bool, s: seq<T>, lo: nat, i: nat)
    requires lo <= i < |s| && Inserting(less, s, lo, lo, i)
    ensures SortedWithin(less, s, lo, i + 1)
  {
  }

  /** `t` is `s` with only the elements of `lo..hi` rearranged among themselves. */
  ghost predicate RearrangedWithin<T>(t: seq<T>, s: seq<T>, lo: int, hi: int)
  {
    && 0 <= lo <= hi <= |t| == |s|
    && multiset(t) == multiset(s)
    && t[..lo] == s[..lo] && t[hi..] == s[hi..]
  }

  /** Two rearrangements within the same range make one. */
  lemma RearrangedWithinTrans<T>(u: seq<T>, t: seq<T>, s: seq<T>, lo: int, hi: int)
    requires RearrangedWithin(u, t, lo, hi) && RearrangedWithin(t, s, lo, hi)
    ensures RearrangedWithin(u, s, lo, hi)
  {
  }

  /** The insertion pass as a function: the compare-exchanges of the
      neighbours `(j - 1, j)`, `(j - 2, j - 1)`, ..., `(lo, lo + 1)`, in
      that order. */
  function InsertDown<T>(less: (T, T) -> bool, s: seq<T>, lo: nat, j: nat): (r: seq<T>)
    requires lo <= j < |s|
    ensures |r| == |s|
    decreases j
  {
    if j == lo then s else InsertDown(less, CompareExchange(less, s, j - 1, j), lo, j - 1)
  }

  /** The insertion network on `lo..i`: one pass for each of `lo + 1`, ...,
      `i - 1`, in that order. */
  function InsertionSort<T>(less: (T, T) -> bool, s: seq<T>, lo: nat, i: nat): (r: seq<T>)
    requires lo <= i <= |s|
    ensures |r| == |s|
    decreases i
  {
    if i == lo then s else InsertDown(less, InsertionSort(less, s, lo, i - 1), lo, i - 1)
  }

  /** Finishing an insertion that has got to `j` leaves `lo..i + 1` sorted. */
  lemma {:induction false} InsertDownSorts<T(!new)>(less: (T, T) -> bool, s: seq<T>, lo: nat, j: nat, i: nat)
    requires StrictWeakOrder(less) && lo <= j <= i < |s| && Inserting(less, s, lo, j, i)
    ensures SortedWithin(less, InsertDown(less, s, lo, j), lo, i + 1)
    decreases j
  {
    if j == lo {
      InsertingDone(less, s, lo, i);
    } else {
      InsertingStep(less, s, lo, j, i);
      InsertDownSorts(less, CompareExchange(less, s, j - 1, j), lo, j - 1, i);
    }
  }

  /** An insertion pass only rearranges the elements. */
  lemma {:induction false} InsertDownPermutes<T>(less: (T, T) -> bool, s: seq<T>, lo: nat, j: nat)
    requires lo <= j < |s|
    ensures multiset(InsertDown(less, s, lo, j)) == multiset(s)
    decreases j
  {
    if j > lo {
      CompareExchangePermutes(less, s, j - 1, j);
      InsertDownPermutes(less, CompareExchange(less, s, j - 1, j), lo, j - 1);
    }
  }

  /** An insertion pass on `lo..j + 1` writes nothing outside that range. */
  lemma {:induction false} InsertDownFrame<T>(less: (T, T) -> bool, s: seq<T>, lo: nat, j: nat)
    requires lo <= j < |s|
    ensures forall k :: 0 <= k < |s| && !(lo <= k <= j) ==> InsertDown(less, s, lo, j)[k] == s[k]
    decreases j
  {
    if j > lo {
      CompareExchangeFrame(less, s, j - 1, j);
      InsertDownFrame(less, CompareExchange(less, s, j - 1, j), lo, j - 1);
    }
  }

  /** An insertion pass below `hi` only rearranges `lo..hi`. */
  lemma InsertDownRearranges<T>(less: (T, T) -> bool, s: seq<T>, lo: nat, j: nat, hi: nat)
    requires lo <= j < hi <= |s|
    ensures RearrangedWithin(InsertDown(less, s, lo, j), s, lo, hi)
  {
    var t := InsertDown(less, s, lo, j);
    InsertDownPermutes(less, s, lo, j);
    InsertDownFrame(less, s, lo, j);
    assert t[..lo] == s[..lo];
    assert t[hi..] == s[hi..];
  }

  /** The insertion network sorts the range it has covered. */
  lemma {:induction false} InsertionSortSorts<T(!new)>(less: (T, T) -> bool, s: seq<T>, lo: nat, i: nat)
    requires StrictWeakOrder(less) && lo <= i <= |s|
    ensures SortedWithin(less, InsertionSort(less, s, lo, i), lo, i)
    decreases i
  {
    if i > lo {
      var t := InsertionSort(less, s, lo, i - 1);
      InsertionSortSorts(less, s, lo, i - 1);
      InsertingStart(less, t, lo, i - 1);
      InsertDownSorts(less, t, lo, i - 1, i - 1);
    }
  }

  /** The insertion network on `lo..i` only rearranges `lo..hi`, for any `hi`
      from `i` on. */
  lemma {:induction false} InsertionSortRearranges<T>(less: (T, T) -> bool, s: seq<T>, lo: nat, i: nat, hi: nat)
    requires lo <= i <= hi <= |s|
    ensures RearrangedWithin(InsertionSort(less, s, lo, i), s, lo, hi)
    decreases i
  {
    if i > lo {
      var t := InsertionSort(less, s, lo, i - 1);
      InsertionSortRearranges(less, s, lo, i - 1, hi);
      InsertDownRearranges(less, t, lo, i - 1, hi);
      RearrangedWithinTrans(InsertDown(less, t, lo, i - 1), t, s, lo, hi);
    }
  }

  /** What a range sorter promises, for the insertion network on `lo..hi`:
      the range ends sorted and holds the same elements, nothing outside it
      changes, and under a total order a sorted range is left as it is. */
  lemma InsertionSortCorrect<T(!new)>(less: (T, T) -> bool, s: seq<T>, lo: nat, hi: nat)
    requires StrictWeakOrder(less) && lo <= hi <= |s|
    ensures var t := InsertionSort(less, s, lo, hi);
      && Sorted(less, t[lo..hi]) && multiset(t[lo..hi]) == multiset(s[lo..hi])
      && t[..lo] == s[..lo] && t[hi..] == s[hi..]
      && (StrictTotalOrder(less) && Sorted(less, s[lo..hi]) ==> t == s)
  {
    var t := InsertionSort(less, s, lo, hi);
    InsertionSortSorts(less, s, lo, hi);
    InsertionSortRearranges(less, s, lo, hi, hi);
    SortedWithinSlice(less, t, lo, hi);
    PermutesWithin(t, s, lo, hi);
    if StrictTotalOrder(less) && Sorted(less, s[lo..hi]) {
      SortedPermutationUnique(less, t[lo..hi], s[lo..hi]);
      assert t == t[..lo] + t[lo..hi] + t[hi..];
      assert s == s[..lo] + s[lo..hi] + s[hi..];
    }
  }

  /** One pass of the insertion network on the array: `swap_if` on the
      neighbours `(i - 1, i)`, `(i - 2, i - 1)`, ..., `(lo, lo + 1)`. */
  method InsertionPass<T(!new)>(a: array<T>, lo: nat, i: nat, less: (T, T) -> bool)
    requires lo <= i < a.Length
    modifies a
    ensures a[..] == InsertDown(less, old(a[..]), lo, i)
  {
    var j := i;
    while j > lo
      invariant lo <= j <= i
      invariant InsertDown(less, a[..], lo, j) == InsertDown(less, old(a[..]), lo, i)
    {
      SwapIf(a, j - 1, j, less);
      j := j - 1;
    }
  }

  /** Stands in for `sorting_network_sorter<16u>` and `<15u>`: sorts
      `a[lo..hi]` in place with the insertion network, a network of
      `swap_if` calls on neighbours, and touches nothing outside the range. */
  method SortRange<T(!new)>(a: array<T>, lo: nat, hi: nat, less: (T, T) -> bool)
    requires lo <= hi <= a.Length && StrictWeakOrder(less)
    modifies a
    ensures Sorted(less, a[lo..hi])
    ensures multiset(a[lo..hi]) == multiset(old(a[lo..hi]))
    ensures a[..lo] == old(a[..lo]) && a[hi..] == old(a[hi..])
    ensures StrictTotalOrder(less) && Sorted(less, old(a[lo..hi])) ==> a[..] == old(a[..])
  {
    var i := lo;
    while i < hi
      invariant lo <= i <= hi
      invariant a[..] == InsertionSort(less, old(a[..]), lo, i)
    {
      InsertionPass(a, lo, i, less);
      i := i + 1;
    }
    InsertionSortCorrect(less, old(a[..]), lo, hi);
  }

  /** After the two half sorts (`s0` the input, `first` the state after
      the first, `h` after the second) both halves are sorted, the first 31
      elements are rearranged among themselves and the rest is untouched. */
  lemma HalvesSorted<T>(less: (T, T) -> bool, s0: seq<T>, first: seq<T>, h: seq<T>)
    requires |s0| == |first| == |h| >= Wires
    requires Sorted(less, first[0..16]) && multiset(first[0..16]) == multiset(s0[0..16])
    requires first[16..] == s0[16..]
    requires Sorted(less, h[16..Wires]) && multiset(h[16..Wires]) == multiset(first[16..Wires])
    requires h[..16] == first[..16] && h[Wires..] == first[Wires..]
    ensures Sorted(less, h[..16]) && Sorted(less, h[16..Wires])
    ensures multiset(h[..Wires]) == multiset(s0[..Wires]) && h[Wires..] == s0[Wires..]
  {
    assert h[..16] == first[0..16];
    assert first[16..Wires] == first[16..][..15] == s0[16..][..15] == s0[16..Wires];
    assert h[..Wires] == h[..16] + h[16..Wires];
    assert s0[..Wires] == s0[0..16] + s0[16..Wires];
    assert h[Wires..] == first[16..][15..] == s0[16..][15..] == s0[Wires..];
  }

  /** Under a total order, the half sorts leave an input whose first 31
      elements are sorted as it is. */
  lemma HalvesUnchanged<T(!new)>(less: (T, T) -> bool, s0: seq<T>, first: seq<T>, h: seq<T>)
    requires |s0| >= Wires
    requires StrictTotalOrder(less) && Sorted(less, s0[..Wires])
    requires Sorted(less, s0[0..16]) ==> first == s0
    requires Sorted(less, first[16..Wires]) ==> h == first
    ensures h == s0
  {
    SortedSlice(less, s0[..Wires], 0, 16);
    SortedSlice(less, s0[..Wires], 16, Wires);
    assert s0[..Wires][0..16] == s0[0..16] && s0[..Wires][16..Wires] == s0[16..Wires];
  }

  /** The merge turns two sorted halves into 31 sorted elements, rearranges
      only them, and leaves an already sorted input as it is. */
  lemma MergeCorrect<T(!new)>(less: (T, T) -> bool, h: seq<T>)
    requires StrictWeakOrder(less) && |h| >= Wires
    requires Sorted(less, h[..16]) && Sorted(less, h[16..Wires])
    ensures Sorted(less, Merge(less, h)[..Wires])
    ensures multiset(Merge(less, h)[..Wires]) == multiset(h[..Wires])
    ensures Merge(less, h)[Wires..] == h[Wires..]
  {
    MergeSorts(less, h);
    MergePermutes(less, h);
    MergeFrame(less, h);
    PermutesWithin(Merge(less, h), h, 0, Wires);
  }


  /** Sorts the first 31 elements of `a` in place: the two half sorts, then
      the merge network, call by call in source order. The source never
      reads the end of the range, so the model has no parameter for it: the
      array only has to hold the 31 elements the network accesses. */
  method Sort31<T(!new)>(a: array<T>, less: (T, T) -> bool)
    requires a.Length >= Wires && StrictWeakOrder(less)
    modifies a
    ensures Sorted(less, a[..Wires])
    ensures multiset(a[..Wires]) == multiset(old(a[..Wires]))
    ensures a[Wires..] == old(a[Wires..])
    ensures StrictTotalOrder(less) && Sorted(less, old(a[..Wires])) ==> a[..] == old(a[..])
  {
    ghost var s0 := a[..];
    SortRange(a, 0, 16, less);
    ghost var first := a[..];
    SortRange(a, 16, Wires, less);
    ghost var h := a[..];

    // Residue0
    SwapIf(a, 0, 16, less);
    SwapIf(a, 8, 24, less);
    SwapIf(a, 8, 16, less);
    SwapIf(a, 4, 20, less);
    SwapIf(a, 12, 28, less);
    SwapIf(a, 12, 20, less);
    SwapIf(a, 4, 8, less);
    SwapIf(a, 12, 16, less);
    SwapIf(a, 20, 24, less);
    assert a[..] == Residue0(less, h);
    ghost var h1 := a[..];
    // Residue2
    SwapIf(a, 2, 18, less);
    SwapIf(a, 10, 26, less);
    SwapIf(a, 10, 18, less);
    SwapIf(a, 6, 22, less);
    SwapIf(a, 14, 30, less);
    SwapIf(a, 14, 22, less);
    SwapIf(a, 6, 10, less);
    SwapIf(a, 14, 18, less);
    SwapIf(a, 22, 26, less);
    assert a[..] == Residue2(less, h1);
    ghost var h2 := a[..];
    // EvenStride2
    SwapIf(a, 2, 4, less);
    SwapIf(a, 6, 8, less);
    SwapIf(a, 10, 12, less);
    SwapIf(a, 14, 16, less);
    SwapIf(a, 18, 20, less);
    SwapIf(a, 22, 24, less);
    SwapIf(a, 26, 28, less);
    assert a[..] == EvenStride2(less, h2);
    ghost var h3 := a[..];
    // Residue1
    SwapIf(a, 1, 17, less);
    SwapIf(a, 9, 25, less);
    SwapIf(a, 9, 17, less);
    SwapIf(a, 5, 21, less);
    SwapIf(a, 13, 29, less);
    SwapIf(a, 13, 21, less);
    SwapIf(a, 5, 9, less);
    SwapIf(a, 13, 17, less);
    SwapIf(a, 21, 25, less);
    assert a[..] == Residue1(less, h3);
    ghost var h4 := a[..];
    // Residue3
    SwapIf(a, 3, 19, less);
    SwapIf(a, 11, 27, less);
    SwapIf(a, 11, 19, less);
    SwapIf(a, 7, 23, less);
    SwapIf(a, 15, 23, less);
    SwapIf(a, 7, 11, less);
    SwapIf(a, 15, 19, less);
    SwapIf(a, 23, 27, less);
    assert a[..] == Residue3(less, h4);
    ghost var h5 := a[..];
    // OddStride2
    SwapIf(a, 3, 5, less);
    SwapIf(a, 7, 9, less);
    SwapIf(a, 11, 13, less);
    SwapIf(a, 15, 17, less);
    SwapIf(a, 19, 21, less);
    SwapIf(a, 23, 25, less);
    SwapIf(a, 27, 29, less);
    assert a[..] == OddStride2(less, h5);
    ghost var h6 := a[..];
    // FinalAdjacent
    SwapIf(a, 1, 2, less);
    SwapIf(a, 3, 4, less);
    SwapIf(a, 5, 6, less);
    SwapIf(a, 7, 8, less);
    SwapIf(a, 9, 10, less);
    SwapIf(a, 11, 12, less);
    SwapIf(a, 13, 14, less);
    SwapIf(a, 15, 16, less);
    SwapIf(a, 17, 18, less);
    SwapIf(a, 19, 20, less);
    SwapIf(a, 21, 22, less);
    SwapIf(a, 23, 24, less);
    SwapIf(a, 25, 26, less);
    SwapIf(a, 27, 28, less);
    SwapIf(a, 29, 30, less);
    assert a[..] == FinalAdjacent(less, h6);
    assert a[..] == Merge(less, h);
    HalvesSorted(less, s0, first, h);
    MergeCorrect(less, h);
    if StrictTotalOrder(less) && Sorted(less, s0[..Wires]) {
      HalvesUnchanged(less, s0, first, h);
      MergeSortedUnchanged(less, h);
    }
  }
}
