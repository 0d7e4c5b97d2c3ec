/** Comparators as the library uses them: a `Compare` object is a function
    `less(x, y)` that must be a strict weak ordering. */
module Order {

  /** The two elements are equivalent under `less`: neither precedes the other. */
  predicate Equivalent<T>(less: (T, T) -> bool, x: T, y: T)
  {
    !less(x, y) && !less(y, x)
  }

  /** The requirement the C++ standard places on a `Compare` object:
      irreflexive, transitive, and with a transitive equivalence. */
  ghost predicate StrictWeakOrder<T(!new)>(less: (T, T) -> bool)
  {
    && (forall x :: !less(x, x))
    && (forall x, y, z :: less(x, y) && less(y, z) ==> less(x, z))
    && (forall x, y, z :: Equivalent(less, x, y) && Equivalent(less, y, z) ==> Equivalent(less, x, z))
  }

  /** A strict weak ordering whose equivalent elements are equal: the total
      orders under which a sorted arrangement is unique. */
  ghost predicate StrictTotalOrder<T(!new)>(less: (T, T) -> bool)
  {
    StrictWeakOrder(less) && forall x, y :: Equivalent(less, x, y) ==> x == y
  }

  /** No element of `s[lo..hi]` compares less than an element before it;
      stated on the positions of `s` itself, so that it survives writes
      outside the range. */
  ghost predicate SortedWithin<T>(less: (T, T) -> bool, s: seq<T>, lo: int, hi: int)
  {
    forall i, j :: lo <= i < j < hi && 0 <= i && j < |s| ==> !less(s[j], s[i])
  }

  /** No element of `s` compares less than an element before it. */
  ghost predicate Sorted<T>(less: (T, T) -> bool, s: seq<T>)
  {
    SortedWithin(less, s, 0, |s|)
  }

  /** A range of `s` is sorted exactly when its slice is. */
  lemma SortedWithinSlice<T>(less: (T, T) -> bool, s: seq<T>, lo: nat, hi: nat)
    requires lo <= hi <= |s|
    ensures SortedWithin(less, s, lo, hi) <==> Sorted(less, s[lo..hi])
  {
    if SortedWithin(less, s, lo, hi) {
      forall i, j | 0 <= i < j < hi - lo ensures !less(s[lo..hi][j], s[lo..hi][i]) {
        assert s[lo..hi][j] == s[lo + j] && s[lo..hi][i] == s[lo + i];
      }
    }
    if Sorted(less, s[lo..hi]) {
      forall i, j | lo <= i < j < hi ensures !less(s[j], s[i]) {
        assert s[lo..hi][j - lo] == s[j] && s[lo..hi][i - lo] == s[i];
      }
    }
  }

  /** A rearrangement of `s` that keeps every element outside `lo..hi` in
      place rearranges the elements of `lo..hi` among themselves. */
  lemma PermutesWithin<T>(s: seq<T>, t: seq<T>, lo: nat, hi: nat)
    requires lo <= hi <= |s| == |t| && multiset(s) == multiset(t)
    requires s[..lo] == t[..lo] && s[hi..] == t[hi..]
    ensures multiset(s[lo..hi]) == multiset(t[lo..hi])
  {
    assert s == s[..lo] + s[lo..hi] + s[hi..];
    assert t == t[..lo] + t[lo..hi] + t[hi..];
    assert multiset(s) == multiset(s[..lo]) + multiset(s[lo..hi]) + multiset(s[hi..]);
    assert multiset(t) == multiset(t[..lo]) + multiset(t[lo..hi]) + multiset(t[hi..]);
    assert multiset(s[lo..hi]) == multiset(s) - multiset(s[..lo]) - multiset(s[hi..]);
    assert multiset(t[lo..hi]) == multiset(t) - multiset(t[..lo]) - multiset(t[hi..]);
  }

  /** A strict weak ordering is asymmetric. */
  lemma Asymmetric<T(!new)>(less: (T, T) -> bool, x: T, y: T)
    requires StrictWeakOrder(less)
    requires less(x, y)
    ensures !less(y, x)
  {
  }

  /** "Not after" is transitive: if x does not follow y and y does not
      follow z, then x does not follow z. */
  lemma NotLessTransitive<T(!new)>(less: (T, T) -> bool, x: T, y: T, z: T)
    requires StrictWeakOrder(less)
    requires !less(y, x) && !less(z, y)
    ensures !less(z, x)
  {
    if less(x, y) {
      assert less(z, x) && less(x, y) ==> less(z, y);
    } else if less(y, z) {
      assert less(y, z) && less(z, x) ==> less(y, x);
    } else {
      assert Equivalent(less, x, y) && Equivalent(less, y, z);
    }
  }

  /** Every slice of a sorted sequence is sorted. */
  lemma SortedSlice<T>(less: (T, T) -> bool, s: seq<T>, lo: nat, hi: nat)
    requires lo <= hi <= |s| && Sorted(less, s)
    ensures Sorted(less, s[lo..hi])
  {
    forall i, j | 0 <= i < j < hi - lo ensures !less(s[lo..hi][j], s[lo..hi][i]) {
      assert s[lo..hi][j] == s[lo + j] && s[lo..hi][i] == s[lo + i];
    }
  }

  /** The first element of a sorted sequence goes before none of the others. */
  lemma SortedHeadFirst<T(!new)>(less: (T, T) -> bool, s: seq<T>, x: T)
    requires StrictWeakOrder(less) && Sorted(less, s) && x in s
    ensures !less(x, s[0])
  {
    var k :| 0 <= k < |s| && s[k] == x;
    assert k == 0 || !less(s[k], s[0]);
  }

  /** Dropping the first element keeps a sequence sorted. */
  lemma SortedTail<T>(less: (T, T) -> bool, s: seq<T>)
    requires |s| > 0 && Sorted(less, s)
    ensures Sorted(less, s[1..])
  {
    forall i, j | 0 <= i < j < |s| - 1 ensures !less(s[1..][j], s[1..][i]) {
      assert s[1..][j] == s[j + 1] && s[1..][i] == s[i + 1];
    }
  }

  /** Two arrangements of the same elements with the same first element
      arrange the same remaining elements. */
  lemma MultisetTail<T>(a: seq<T>, b: seq<T>)
    requires |a| > 0 && |b| > 0 && a[0] == b[0] && multiset(a) == multiset(b)
    ensures multiset(a[1..]) == multiset(b[1..])
  {
    assert a == [a[0]] + a[1..] && b == [b[0]] + b[1..];
    assert multiset(a[1..]) == multiset(a) - multiset{a[0]};
    assert multiset(b[1..]) == multiset(b) - multiset{b[0]};
  }

  /** Under a total order two sorted arrangements of the same elements are
      the same sequence. */
  lemma {:induction false} SortedPermutationUnique<T(!new)>(less: (T, T) -> bool, a: seq<T>, b: seq<T>)
    requires StrictTotalOrder(less) && Sorted(less, a) && Sorted(less, b)
    requires multiset(a) == multiset(b)
    ensures a == b
    decreases |a|
  {
    assert |a| == |multiset(a)| == |multiset(b)| == |b|;
    if |a| > 0 {
      assert a[0] in multiset(b) && b[0] in multiset(a);
      SortedHeadFirst(less, b, a[0]);
      SortedHeadFirst(less, a, b[0]);
      assert Equivalent(less, a[0], b[0]);
      MultisetTail(a, b);
      SortedTail(less, a);
      SortedTail(less, b);
      SortedPermutationUnique(less, a[1..], b[1..]);
      assert a == [a[0]] + a[1..] && b == [b[0]] + b[1..];
    }
  }
}
