/** The 0-1 principle for the merge: comparing every element with a pivot
    turns a run of the network on any strict weak order into a run on bits,
    so that the 0-1 case proved in `ZeroOne` carries over to every input. */
module ZeroOnePrinciple {
  import opened Order
  import opened CompareSwap
  import opened MergeNetwork
  import opened ZeroOne

  /** `x` as a bit against the pivot `p`: `Zero` when `x` goes strictly before `p`. */
  function BitOf<T>(less: (T, T) -> bool, p: T, x: T): Bit
  {
    if less(x, p) then Zero else One
  }

  /** Every element of `s` as a bit against the pivot `p`. */
  function Threshold<T>(less: (T, T) -> bool, p: T, s: seq<T>): (r: seq<Bit>)
    ensures |r| == |s|
  {
    seq(|s|, k requires 0 <= k < |s| => BitOf(less, p, s[k]))
  }

  /** Elements in order give bits in order, whatever the pivot. */
  lemma BitOfMonotone<T(!new)>(less: (T, T) -> bool, p: T, x: T, y: T)
    requires StrictWeakOrder(less) && !less(y, x)
    ensures !BitLess(BitOf(less, p, y), BitOf(less, p, x))
  {
    if !less(x, p) {
      NotLessTransitive(less, p, x, y);
    }
  }

  /** Taking bits commutes with taking the smaller and the larger of two elements. */
  lemma BitOfLowerUpper<T(!new)>(less: (T, T) -> bool, p: T, x: T, y: T)
    requires StrictWeakOrder(less)
    ensures BitOf(less, p, Lower(less, x, y)) == Lower(BitLess, BitOf(less, p, x), BitOf(less, p, y))
    ensures BitOf(less, p, Upper(less, x, y)) == Upper(BitLess, BitOf(less, p, x), BitOf(less, p, y))
  {
    if less(y, x) {
      BitOfMonotone(less, p, y, x);
    } else {
      BitOfMonotone(less, p, x, y);
    }
  }

  /** Taking bits commutes with one compare-exchange. */
  lemma ThresholdCompareExchange<T(!new)>(less: (T, T) -> bool, p: T, s: seq<T>, i: nat, j: nat)
    requires StrictWeakOrder(less) && i < |s| && j < |s|
    ensures Threshold(less, p, CompareExchange(less, s, i, j)) == CompareExchange(BitLess, Threshold(less, p, s), i, j)
  {
    BitOfLowerUpper(less, p, s[i], s[j]);
    var r := CompareExchange(less, s, i, j);
    var t := Threshold(less, p, s);
    assert t[i] == BitOf(less, p, s[i]) && t[j] == BitOf(less, p, s[j]);
    var u := CompareExchange(BitLess, t, i, j);
    CompareExchangeFrame(less, s, i, j);
    CompareExchangeFrame(BitLess, t, i, j);
    assert forall k :: 0 <= k < |s| ==> Threshold(less, p, r)[k] == u[k];
  }

  /** Taking bits commutes with `Residue0`. */
  lemma ThresholdResidue0<T(!new)>(less: (T, T) -> bool, p: T, s: seq<T>)
    requires StrictWeakOrder(less) && |s| >= Wires
    ensures Threshold(less, p, Residue0(less, s)) == Residue0(BitLess, Threshold(less, p, s))
  {
    var s1 := CompareExchange(less, s, 0, 16);
    ThresholdCompareExchange(less, p, s, 0, 16);
    var s2 := CompareExchange(less, s1, 8, 24);
    ThresholdCompareExchange(less, p, s1, 8, 24);
    var s3 := CompareExchange(less, s2, 8, 16);
    ThresholdCompareExchange(less, p, s2, 8, 16);
    var s4 := CompareExchange(less, s3, 4, 20);
    ThresholdCompareExchange(less, p, s3, 4, 20);
    var s5 := CompareExchange(less, s4, 12, 28);
    ThresholdCompareExchange(less, p, s4, 12, 28);
    var s6 := CompareExchange(less, s5, 12, 20);
    ThresholdCompareExchange(less, p, s5, 12, 20);
    var s7 := CompareExchange(less, s6, 4, 8);
    ThresholdCompareExchange(less, p, s6, 4, 8);
    var s8 := CompareExchange(less, s7, 12, 16);
    ThresholdCompareExchange(less, p, s7, 12, 16);
    var s9 := CompareExchange(less, s8, 20, 24);
    ThresholdCompareExchange(less, p, s8, 20, 24);
  }

  /** Taking bits commutes with `Residue2`. */
  lemma ThresholdResidue2<T(!new)>(less: (T, T) -> bool, p: T, s: seq<T>)
    requires StrictWeakOrder(less) && |s| >= Wires
    ensures Threshold(less, p, Residue2(less, s)) == Residue2(BitLess, Threshold(less, p, s))
  {
    var s1 := CompareExchange(less, s, 2, 18);
    ThresholdCompareExchange(less, p, s, 2, 18);
    var s2 := CompareExchange(less, s1, 10, 26);
    ThresholdCompareExchange(less, p, s1, 10, 26);
    var s3 := CompareExchange(less, s2, 10, 18);
    ThresholdCompareExchange(less, p, s2, 10, 18);
    var s4 := CompareExchange(less, s3, 6, 22);
    ThresholdCompareExchange(less, p, s3, 6, 22);
    var s5 := CompareExchange(less, s4, 14, 30);
    ThresholdCompareExchange(less, p, s4, 14, 30);
    var s6 := CompareExchange(less, s5, 14, 22);
    ThresholdCompareExchange(less, p, s5, 14, 22);
    var s7 := CompareExchange(less, s6, 6, 10);
    ThresholdCompareExchange(less, p, s6, 6, 10);
    var s8 := CompareExchange(less, s7, 14, 18);
    ThresholdCompareExchange(less, p, s7, 14, 18);
    var s9 := CompareExchange(less, s8, 22, 26);
    ThresholdCompareExchange(less, p, s8, 22, 26);
  }

  /** Taking bits commutes with `EvenStride2`. */
  lemma ThresholdEvenStride2<T(!new)>(less: (T, T) -> bool, p: T, s: seq<T>)
    requires StrictWeakOrder(less) && |s| >= Wires
    ensures Threshold(less, p, EvenStride2(less, s)) == EvenStride2(BitLess, Threshold(less, p, s))
  {
    var s1 := CompareExchange(less, s, 2, 4);
    ThresholdCompareExchange(less, p, s, 2, 4);
    var s2 := CompareExchange(less, s1, 6, 8);
    ThresholdCompareExchange(less, p, s1, 6, 8);
    var s3 := CompareExchange(less, s2, 10, 12);
    ThresholdCompareExchange(less, p, s2, 10, 12);
    var s4 := CompareExchange(less, s3, 14, 16);
    ThresholdCompareExchange(less, p, s3, 14, 16);
    var s5 := CompareExchange(less, s4, 18, 20);
    ThresholdCompareExchange(less, p, s4, 18, 20);
    var s6 := CompareExchange(less, s5, 22, 24);
    ThresholdCompareExchange(less, p, s5, 22, 24);
    var s7 := CompareExchange(less, s6, 26, 28);
    ThresholdCompareExchange(less, p, s6, 26, 28);
  }

  /** Taking bits commutes with `Residue1`. */
  lemma ThresholdResidue1<T(!new)>(less: (T, T) -> bool, p: T, s: seq<T>)
    requires StrictWeakOrder(less) && |s| >= Wires
    ensures Threshold(less, p, Residue1(less, s)) == Residue1(BitLess, Threshold(less, p, s))
  {
    var s1 := CompareExchange(less, s, 1, 17);
    ThresholdCompareExchange(less, p, s, 1, 17);
    var s2 := CompareExchange(less, s1, 9, 25);
    ThresholdCompareExchange(less, p, s1, 9, 25);
    var s3 := CompareExchange(less, s2, 9, 17);
    ThresholdCompareExchange(less, p, s2, 9, 17);
    var s4 := CompareExchange(less, s3, 5, 21);
    ThresholdCompareExchange(less, p, s3, 5, 21);
    var s5 := CompareExchange(less, s4, 13, 29);
    ThresholdCompareExchange(less, p, s4, 13, 29);
    var s6 := CompareExchange(less, s5, 13, 21);
    ThresholdCompareExchange(less, p, s5, 13, 21);
    var s7 := CompareExchange(less, s6, 5, 9);
    ThresholdCompareExchange(less, p, s6, 5, 9);
    var s8 := CompareExchange(less, s7, 13, 17);
    ThresholdCompareExchange(less, p, s7, 13, 17);
    var s9 := CompareExchange(less, s8, 21, 25);
    ThresholdCompareExchange(less, p, s8, 21, 25);
  }

  /** Taking bits commutes with `Residue3`. */
  lemma ThresholdResidue3<T(!new)>(less: (T, T) -> bool, p: T, s: seq<T>)
    requires StrictWeakOrder(less) && |s| >= Wires
    ensures Threshold(less, p, Residue3(less, s)) == Residue3(BitLess, Threshold(less, p, s))
  {
    var s1 := CompareExchange(less, s, 3, 19);
    ThresholdCompareExchange(less, p, s, 3, 19);
    var s2 := CompareExchange(less, s1, 11, 27);
    ThresholdCompareExchange(less, p, s1, 11, 27);
    var s3 := CompareExchange(less, s2, 11, 19);
    ThresholdCompareExchange(less, p, s2, 11, 19);
    var s4 := CompareExchange(less, s3, 7, 23);
    ThresholdCompareExchange(less, p, s3, 7, 23);
    var s5 := CompareExchange(less, s4, 15, 23);
    ThresholdCompareExchange(less, p, s4, 15, 23);
    var s6 := CompareExchange(less, s5, 7, 11);
    ThresholdCompareExchange(less, p, s5, 7, 11);
    var s7 := CompareExchange(less, s6, 15, 19);
    ThresholdCompareExchange(less, p, s6, 15, 19);
    var s8 := CompareExchange(less, s7, 23, 27);
    ThresholdCompareExchange(less, p, s7, 23, 27);
  }

  /** Taking bits commutes with `OddStride2`. */
  lemma ThresholdOddStride2<T(!new)>(less: (T, T) -> bool, p: T, s: seq<T>)
    requires StrictWeakOrder(less) && |s| >= Wires
    ensures Threshold(less, p, OddStride2(less, s)) == OddStride2(BitLess, Threshold(less, p, s))
  {
    var s1 := CompareExchange(less, s, 3, 5);
    ThresholdCompareExchange(less, p, s, 3, 5);
    var s2 := CompareExchange(less, s1, 7, 9);
    ThresholdCompareExchange(less, p, s1, 7, 9);
    var s3 := CompareExchange(less, s2, 11, 13);
    ThresholdCompareExchange(less, p, s2, 11, 13);
    var s4 := CompareExchange(less, s3, 15, 17);
    ThresholdCompareExchange(less, p, s3, 15, 17);
    var s5 := CompareExchange(less, s4, 19, 21);
    ThresholdCompareExchange(less, p, s4, 19, 21);
    var s6 := CompareExchange(less, s5, 23, 25);
    ThresholdCompareExchange(less, p, s5, 23, 25);
    var s7 := CompareExchange(less, s6, 27, 29);
    ThresholdCompareExchange(less, p, s6, 27, 29);
  }

  /** Taking bits commutes with `FinalAdjacent`. */
  lemma ThresholdFinalAdjacent<T(!new)>(less: (T, T) -> bool, p: T, s: seq<T>)
    requires StrictWeakOrder(less) && |s| >= Wires
    ensures Threshold(less, p, FinalAdjacent(less, s)) == FinalAdjacent(BitLess, Threshold(less, p, s))
  {
    var s1 := CompareExchange(less, s, 1, 2);
    ThresholdCompareExchange(less, p, s, 1, 2);
    var s2 := CompareExchange(less, s1, 3, 4);
    ThresholdCompareExchange(less, p, s1, 3, 4);
    var s3 := CompareExchange(less, s2, 5, 6);
    ThresholdCompareExchange(less, p, s2, 5, 6);
    var s4 := CompareExchange(less, s3, 7, 8);
    ThresholdCompareExchange(less, p, s3, 7, 8);
    var s5 := CompareExchange(less, s4, 9, 10);
    ThresholdCompareExchange(less, p, s4, 9, 10);
    var s6 := CompareExchange(less, s5, 11, 12);
    ThresholdCompareExchange(less, p, s5, 11, 12);
    var s7 := CompareExchange(less, s6, 13, 14);
    ThresholdCompareExchange(less, p, s6, 13, 14);
    var s8 := CompareExchange(less, s7, 15, 16);
    ThresholdCompareExchange(less, p, s7, 15, 16);
    var s9 := CompareExchange(less, s8, 17, 18);
    ThresholdCompareExchange(less, p, s8, 17, 18);
    var s10 := CompareExchange(less, s9, 19, 20);
    ThresholdCompareExchange(less, p, s9, 19, 20);
    var s11 := CompareExchange(less, s10, 21, 22);
    ThresholdCompareExchange(less, p, s10, 21, 22);
    var s12 := CompareExchange(less, s11, 23, 24);
    ThresholdCompareExchange(less, p, s11, 23, 24);
    var s13 := CompareExchange(less, s12, 25, 26);
    ThresholdCompareExchange(less, p, s12, 25, 26);
    var s14 := CompareExchange(less, s13, 27, 28);
    ThresholdCompareExchange(less, p, s13, 27, 28);
    var s15 := CompareExchange(less, s14, 29, 30);
    ThresholdCompareExchange(less, p, s14, 29, 30);
  }

  /** Taking bits commutes with the whole merge. */
  lemma ThresholdMerge<T(!new)>(less: (T, T) -> bool, p: T, s: seq<T>)
    requires StrictWeakOrder(less) && |s| >= Wires
    ensures Threshold(less, p, Merge(less, s)) == Merge(BitLess, Threshold(less, p, s))
  {
    ThresholdResidue0(less, p, s);
    var s1 := Residue0(less, s);
    ThresholdResidue2(less, p, s1);
    var s2 := Residue2(less, s1);
    ThresholdEvenStride2(less, p, s2);
    var s3 := EvenStride2(less, s2);
    ThresholdResidue1(less, p, s3);
    var s4 := Residue1(less, s3);
    ThresholdResidue3(less, p, s4);
    var s5 := Residue3(less, s4);
    ThresholdOddStride2(less, p, s5);
    var s6 := OddStride2(less, s5);
    ThresholdFinalAdjacent(less, p, s6);
  }

  /** A sorted range gives a sorted range of bits. */
  lemma ThresholdSorted<T(!new)>(less: (T, T) -> bool, p: T, s: seq<T>, lo: nat, hi: nat)
    requires StrictWeakOrder(less) && lo <= hi <= |s| && Sorted(less, s[lo..hi])
    ensures Sorted(BitLess, Threshold(less, p, s)[lo..hi])
  {
    var t := Threshold(less, p, s);
    forall i, j | 0 <= i < j < hi - lo
      ensures !BitLess(t[lo..hi][j], t[lo..hi][i])
    {
      assert !less(s[lo..hi][j], s[lo..hi][i]);
      BitOfMonotone(less, p, s[lo + i], s[lo + j]);
    }
  }

  /** Against any pivot, the merge of two sorted halves gives sorted bits. */
  lemma MergeSortsThreshold<T(!new)>(less: (T, T) -> bool, p: T, s: seq<T>)
    requires StrictWeakOrder(less) && |s| >= Wires
    requires Sorted(less, s[..16]) && Sorted(less, s[16..Wires])
    ensures Sorted(BitLess, Threshold(less, p, Merge(less, s))[..Wires])
  {
    var b := Threshold(less, p, s);
    ThresholdSorted(less, p, s, 0, 16);
    ThresholdSorted(less, p, s, 16, Wires);
    assert b[0..16] == b[..16];
    MergeSortsBits(b);
    ThresholdMerge(less, p, s);
  }

  /** If the bits of `r` against its own element `r[i]` are sorted, no later
      element goes strictly before `r[i]`. */
  lemma PivotOrdered<T(!new)>(less: (T, T) -> bool, r: seq<T>, i: nat, j: nat)
    requires StrictWeakOrder(less) && i < j < Wires <= |r|
    requires Sorted(BitLess, Threshold(less, r[i], r)[..Wires])
    ensures !less(r[j], r[i])
  {
    var t := Threshold(less, r[i], r);
    assert !BitLess(t[..Wires][j], t[..Wires][i]);
    assert t[i] == One;
  }

  /** The merge sorts the first 31 elements of any sequence whose first 16
      and next 15 elements are sorted: the property the network promises once
      both half sorters have run. */
  lemma MergeSorts<T(!new)>(less: (T, T) -> bool, s: seq<T>)
    requires StrictWeakOrder(less) && |s| >= Wires
    requires Sorted(less, s[..16]) && Sorted(less, s[16..Wires])
    ensures Sorted(less, Merge(less, s)[..Wires])
  {
    var r := Merge(less, s);
    forall i, j | 0 <= i < j < Wires
      ensures !less(r[..Wires][j], r[..Wires][i])
    {
      MergeSortsThreshold(less, r[i], s);
      PivotOrdered(less, r, i, j);
    }
  }
}
