/** The merge that `sorting_network_sorter_impl<31u>` runs once both halves
    of its range are sorted: 64 `swap_if` calls on the wires 0..30, grouped
    into the seven stages in which they appear in the source. Each stage is a
    function on the whole sequence; elements from 31 on are never touched. */
module MergeNetwork {
  import opened Order
  import opened CompareSwap

  /** The number of wires the network sorts. */
  const Wires := 31

  /** Merges the two sorted runs of wires congruent to 0 modulo 4
      (0, 4, 8, 12 from the first half with 16, 20, 24, 28 from the second). */
  function Residue0<T>(less: (T, T) -> bool, s: seq<T>): (r: seq<T>)
    requires |s| >= Wires
    ensures |r| == |s|
  {
    var s := CompareExchange(less, s, 0, 16);
    var s := CompareExchange(less, s, 8, 24);
    var s := CompareExchange(less, s, 8, 16);
    var s := CompareExchange(less, s, 4, 20);
    var s := CompareExchange(less, s, 12, 28);
    var s := CompareExchange(less, s, 12, 20);
    var s := CompareExchange(less, s, 4, 8);
    var s := CompareExchange(less, s, 12, 16);
    var s := CompareExchange(less, s, 20, 24);
    s
  }

  /** Merges the runs of wires congruent to 2 modulo 4
      (2, 6, 10, 14 with 18, 22, 26, 30). */
  function Residue2<T>(less: (T, T) -> bool, s: seq<T>): (r: seq<T>)
    requires |s| >= Wires
    ensures |r| == |s|
  {
    var s := CompareExchange(less, s, 2, 18);
    var s := CompareExchange(less, s, 10, 26);
    var s := CompareExchange(less, s, 10, 18);
    var s := CompareExchange(less, s, 6, 22);
    var s := CompareExchange(less, s, 14, 30);
    var s := CompareExchange(less, s, 14, 22);
    var s := CompareExchange(less, s, 6, 10);
    var s := CompareExchange(less, s, 14, 18);
    var s := CompareExchange(less, s, 22, 26);
    s
  }

  /** Interleaves the two even classes: compares each wire 4k+2 with 4k+4. */
  function EvenStride2<T>(less: (T, T) -> bool, s: seq<T>): (r: seq<T>)
    requires |s| >= Wires
    ensures |r| == |s|
  {
    var s := CompareExchange(less, s, 2, 4);
    var s := CompareExchange(less, s, 6, 8);
    var s := CompareExchange(less, s, 10, 12);
    var s := CompareExchange(less, s, 14, 16);
    var s := CompareExchange(less, s, 18, 20);
    var s := CompareExchange(less, s, 22, 24);
    var s := CompareExchange(less, s, 26, 28);
    s
  }

  /** Merges the runs of wires congruent to 1 modulo 4
      (1, 5, 9, 13 with 17, 21, 25, 29). */
  function Residue1<T>(less: (T, T) -> bool, s: seq<T>): (r: seq<T>)
    requires |s| >= Wires
    ensures |r| == |s|
  {
    var s := CompareExchange(less, s, 1, 17);
    var s := CompareExchange(less, s, 9, 25);
    var s := CompareExchange(less, s, 9, 17);
    var s := CompareExchange(less, s, 5, 21);
    var s := CompareExchange(less, s, 13, 29);
    var s := CompareExchange(less, s, 13, 21);
    var s := CompareExchange(less, s, 5, 9);
    var s := CompareExchange(less, s, 13, 17);
    var s := CompareExchange(less, s, 21, 25);
    s
  }

  /** Merges the runs of wires congruent to 3 modulo 4
      (3, 7, 11, 15 with 19, 23, 27: the second half has only three). */
  function Residue3<T>(less: (T, T) -> bool, s: seq<T>): (r: seq<T>)
    requires |s| >= Wires
    ensures |r| == |s|
  {
    var s := CompareExchange(less, s, 3, 19);
    var s := CompareExchange(less, s, 11, 27);
    var s := CompareExchange(less, s, 11, 19);
    var s := CompareExchange(less, s, 7, 23);
    var s := CompareExchange(less, s, 15, 23);
    var s := CompareExchange(less, s, 7, 11);
    var s := CompareExchange(less, s, 15, 19);
    var s := CompareExchange(less, s, 23, 27);
    s
  }

  /** Interleaves the two odd classes: compares each wire 4k+3 with 4k+5. */
  function OddStride2<T>(less: (T, T) -> bool, s: seq<T>): (r: seq<T>)
    requires |s| >= Wires
    ensures |r| == |s|
  {
    var s := CompareExchange(less, s, 3, 5);
    var s := CompareExchange(less, s, 7, 9);
    var s := CompareExchange(less, s, 11, 13);
    var s := CompareExchange(less, s, 15, 17);
    var s := CompareExchange(less, s, 19, 21);
    var s := CompareExchange(less, s, 23, 25);
    var s := CompareExchange(less, s, 27, 29);
    s
  }

  /** The last stage: compares each wire 2k-1 with its neighbour 2k. */
  function FinalAdjacent<T>(less: (T, T) -> bool, s: seq<T>): (r: seq<T>)
    requires |s| >= Wires
    ensures |r| == |s|
  {
    var s := CompareExchange(less, s, 1, 2);
    var s := CompareExchange(less, s, 3, 4);
    var s := CompareExchange(less, s, 5, 6);
    var s := CompareExchange(less, s, 7, 8);
    var s := CompareExchange(less, s, 9, 10);
    var s := CompareExchange(less, s, 11, 12);
    var s := CompareExchange(less, s, 13, 14);
    var s := CompareExchange(less, s, 15, 16);
    var s := CompareExchange(less, s, 17, 18);
    var s := CompareExchange(less, s, 19, 20);
    var s := CompareExchange(less, s, 21, 22);
    var s := CompareExchange(less, s, 23, 24);
    var s := CompareExchange(less, s, 25, 26);
    var s := CompareExchange(less, s, 27, 28);
    var s := CompareExchange(less, s, 29, 30);
    s
  }

  /** `Residue0` writes only the wires it compares. */
  lemma Residue0Frame<T>(less: (T, T) -> bool, s: seq<T>)
    requires |s| >= Wires
    ensures forall k :: 0 <= k < |s| && k !in {0, 4, 8, 12, 16, 20, 24, 28} ==> Residue0(less, s)[k] == s[k]
  {
  }

  /** `Residue2` writes only the wires it compares. */
  lemma Residue2Frame<T>(less: (T, T) -> bool, s: seq<T>)
    requires |s| >= Wires
    ensures forall k :: 0 <= k < |s| && k !in {2, 6, 10, 14, 18, 22, 26, 30} ==> Residue2(less, s)[k] == s[k]
  {
  }

  /** `EvenStride2` writes only the wires it compares. */
  lemma EvenStride2Frame<T>(less: (T, T) -> bool, s: seq<T>)
    requires |s| >= Wires
    ensures forall k :: 0 <= k < |s| && k !in {2, 4, 6, 8, 10, 12, 14, 16, 18, 20, 22, 24, 26, 28} ==> EvenStride2(less, s)[k] == s[k]
  {
  }

  /** `Residue1` writes only the wires it compares. */
  lemma Residue1Frame<T>(less: (T, T) -> bool, s: seq<T>)
    requires |s| >= Wires
    ensures forall k :: 0 <= k < |s| && k !in {1, 5, 9, 13, 17, 21, 25, 29} ==> Residue1(less, s)[k] == s[k]
  {
  }

  /** `Residue3` writes only the wires it compares. */
  lemma Residue3Frame<T>(less: (T, T) -> bool, s: seq<T>)
    requires |s| >= Wires
    ensures forall k :: 0 <= k < |s| && k !in {3, 7, 11, 15, 19, 23, 27} ==> Residue3(less, s)[k] == s[k]
  {
  }

  /** `OddStride2` writes only the wires it compares. */
  lemma OddStride2Frame<T>(less: (T, T) -> bool, s: seq<T>)
    requires |s| >= Wires
    ensures forall k :: 0 <= k < |s| && k !in {3, 5, 7, 9, 11, 13, 15, 17, 19, 21, 23, 25, 27, 29} ==> OddStride2(less, s)[k] == s[k]
  {
  }

  /** `FinalAdjacent` writes only the wires it compares. */
  lemma FinalAdjacentFrame<T>(less: (T, T) -> bool, s: seq<T>)
    requires |s| >= Wires
    ensures forall k :: 0 <= k < |s| && k !in {1, 2, 3, 4, 5, 6, 7, 8, 9, 10, 11, 12, 13, 14, 15, 16, 17, 18, 19, 20, 21, 22, 23, 24, 25, 26, 27, 28, 29, 30} ==> FinalAdjacent(less, s)[k] == s[k]
  {
  }

  lemma Residue0Permutes<T>(less: (T, T) -> bool, s: seq<T>)
    requires |s| >= Wires
    ensures multiset(Residue0(less, s)) == multiset(s)
  {
    var s1 := CompareExchange(less, s, 0, 16);
    CompareExchangePermutes(less, s, 0, 16);
    var s2 := CompareExchange(less, s1, 8, 24);
    CompareExchangePermutes(less, s1, 8, 24);
    var s3 := CompareExchange(less, s2, 8, 16);
    CompareExchangePermutes(less, s2, 8, 16);
    var s4 := CompareExchange(less, s3, 4, 20);
    CompareExchangePermutes(less, s3, 4, 20);
    var s5 := CompareExchange(less, s4, 12, 28);
    CompareExchangePermutes(less, s4, 12, 28);
    var s6 := CompareExchange(less, s5, 12, 20);
    CompareExchangePermutes(less, s5, 12, 20);
    var s7 := CompareExchange(less, s6, 4, 8);
    CompareExchangePermutes(less, s6, 4, 8);
    var s8 := CompareExchange(less, s7, 12, 16);
    CompareExchangePermutes(less, s7, 12, 16);
    var s9 := CompareExchange(less, s8, 20, 24);
    CompareExchangePermutes(less, s8, 20, 24);
  }

  /** The suffix form of `Residue0Frame`, from wire 31 on. */
  lemma Residue0Beyond<T>(less: (T, T) -> bool, s: seq<T>)
    requires |s| >= Wires
    ensures Residue0(less, s)[Wires..] == s[Wires..]
  {
    Residue0Frame(less, s);
  }

  lemma Residue0InOrder<T>(less: (T, T) -> bool, s: seq<T>)
    requires |s| >= Wires && SortedWithin(less, s, 0, Wires)
    ensures Residue0(less, s) == s
  {
    CompareExchangeInOrder(less, s, 0, 16);
    CompareExchangeInOrder(less, s, 8, 24);
    CompareExchangeInOrder(less, s, 8, 16);
    CompareExchangeInOrder(less, s, 4, 20);
    CompareExchangeInOrder(less, s, 12, 28);
    CompareExchangeInOrder(less, s, 12, 20);
    CompareExchangeInOrder(less, s, 4, 8);
    CompareExchangeInOrder(less, s, 12, 16);
    CompareExchangeInOrder(less, s, 20, 24);
  }

  lemma Residue2Permutes<T>(less: (T, T) -> bool, s: seq<T>)
    requires |s| >= Wires
    ensures multiset(Residue2(less, s)) == multiset(s)
  {
    var s1 := CompareExchange(less, s, 2, 18);
    CompareExchangePermutes(less, s, 2, 18);
    var s2 := CompareExchange(less, s1, 10, 26);
    CompareExchangePermutes(less, s1, 10, 26);
    var s3 := CompareExchange(less, s2, 10, 18);
    CompareExchangePermutes(less, s2, 10, 18);
    var s4 := CompareExchange(less, s3, 6, 22);
    CompareExchangePermutes(less, s3, 6, 22);
    var s5 := CompareExchange(less, s4, 14, 30);
    CompareExchangePermutes(less, s4, 14, 30);
    var s6 := CompareExchange(less, s5, 14, 22);
    CompareExchangePermutes(less, s5, 14, 22);
    var s7 := CompareExchange(less, s6, 6, 10);
    CompareExchangePermutes(less, s6, 6, 10);
    var s8 := CompareExchange(less, s7, 14, 18);
    CompareExchangePermutes(less, s7, 14, 18);
    var s9 := CompareExchange(less, s8, 22, 26);
    CompareExchangePermutes(less, s8, 22, 26);
  }

  /** The suffix form of `Residue2Frame`, from wire 31 on. */
  lemma Residue2Beyond<T>(less: (T, T) -> bool, s: seq<T>)
    requires |s| >= Wires
    ensures Residue2(less, s)[Wires..] == s[Wires..]
  {
    Residue2Frame(less, s);
  }

  lemma Residue2InOrder<T>(less: (T, T) -> bool, s: seq<T>)
    requires |s| >= Wires && SortedWithin(less, s, 0, Wires)
    ensures Residue2(less, s) == s
  {
    CompareExchangeInOrder(less, s, 2, 18);
    CompareExchangeInOrder(less, s, 10, 26);
    CompareExchangeInOrder(less, s, 10, 18);
    CompareExchangeInOrder(less, s, 6, 22);
    CompareExchangeInOrder(less, s, 14, 30);
    CompareExchangeInOrder(less, s, 14, 22);
    CompareExchangeInOrder(less, s, 6, 10);
    CompareExchangeInOrder(less, s, 14, 18);
    CompareExchangeInOrder(less, s, 22, 26);
  }

  lemma EvenStride2Permutes<T>(less: (T, T) -> bool, s: seq<T>)
    requires |s| >= Wires
    ensures multiset(EvenStride2(less, s)) == multiset(s)
  {
    var s1 := CompareExchange(less, s, 2, 4);
    CompareExchangePermutes(less, s, 2, 4);
    var s2 := CompareExchange(less, s1, 6, 8);
    CompareExchangePermutes(less, s1, 6, 8);
    var s3 := CompareExchange(less, s2, 10, 12);
    CompareExchangePermutes(less, s2, 10, 12);
    var s4 := CompareExchange(less, s3, 14, 16);
    CompareExchangePermutes(less, s3, 14, 16);
    var s5 := CompareExchange(less, s4, 18, 20);
    CompareExchangePermutes(less, s4, 18, 20);
    var s6 := CompareExchange(less, s5, 22, 24);
    CompareExchangePermutes(less, s5, 22, 24);
    var s7 := CompareExchange(less, s6, 26, 28);
    CompareExchangePermutes(less, s6, 26, 28);
  }

  /** The suffix form of `EvenStride2Frame`, from wire 31 on. */
  lemma EvenStride2Beyond<T>(less: (T, T) -> bool, s: seq<T>)
    requires |s| >= Wires
    ensures EvenStride2(less, s)[Wires..] == s[Wires..]
  {
    EvenStride2Frame(less, s);
  }

  lemma EvenStride2InOrder<T>(less: (T, T) -> bool, s: seq<T>)
    requires |s| >= Wires && SortedWithin(less, s, 0, Wires)
    ensures EvenStride2(less, s) == s
  {
    CompareExchangeInOrder(less, s, 2, 4);
    CompareExchangeInOrder(less, s, 6, 8);
    CompareExchangeInOrder(less, s, 10, 12);
    CompareExchangeInOrder(less, s, 14, 16);
    CompareExchangeInOrder(less, s, 18, 20);
    CompareExchangeInOrder(less, s, 22, 24);
    CompareExchangeInOrder(less, s, 26, 28);
  }

  lemma Residue1Permutes<T>(less: (T, T) -> bool, s: seq<T>)
    requires |s| >= Wires
    ensures multiset(Residue1(less, s)) == multiset(s)
  {
    var s1 := CompareExchange(less, s, 1, 17);
    CompareExchangePermutes(less, s, 1, 17);
    var s2 := CompareExchange(less, s1, 9, 25);
    CompareExchangePermutes(less, s1, 9, 25);
    var s3 := CompareExchange(less, s2, 9, 17);
    CompareExchangePermutes(less, s2, 9, 17);
    var s4 := CompareExchange(less, s3, 5, 21);
    CompareExchangePermutes(less, s3, 5, 21);
    var s5 := CompareExchange(less, s4, 13, 29);
    CompareExchangePermutes(less, s4, 13, 29);
    var s6 := CompareExchange(less, s5, 13, 21);
    CompareExchangePermutes(less, s5, 13, 21);
    var s7 := CompareExchange(less, s6, 5, 9);
    CompareExchangePermutes(less, s6, 5, 9);
    var s8 := CompareExchange(less, s7, 13, 17);
    CompareExchangePermutes(less, s7, 13, 17);
    var s9 := CompareExchange(less, s8, 21, 25);
    CompareExchangePermutes(less, s8, 21, 25);
  }

  /** The suffix form of `Residue1Frame`, from wire 31 on. */
  lemma Residue1Beyond<T>(less: (T, T) -> bool, s: seq<T>)
    requires |s| >= Wires
    ensures Residue1(less, s)[Wires..] == s[Wires..]
  {
    Residue1Frame(less, s);
  }

  lemma Residue1InOrder<T>(less: (T, T) -> bool, s: seq<T>)
    requires |s| >= Wires && SortedWithin(less, s, 0, Wires)
    ensures Residue1(less, s) == s
  {
    CompareExchangeInOrder(less, s, 1, 17);
    CompareExchangeInOrder(less, s, 9, 25);
    CompareExchangeInOrder(less, s, 9, 17);
    CompareExchangeInOrder(less, s, 5, 21);
    CompareExchangeInOrder(less, s, 13, 29);
    CompareExchangeInOrder(less, s, 13, 21);
    CompareExchangeInOrder(less, s, 5, 9);
    CompareExchangeInOrder(less, s, 13, 17);
    CompareExchangeInOrder(less, s, 21, 25);
  }

  lemma Residue3Permutes<T>(less: (T, T) -> bool, s: seq<T>)
    requires |s| >= Wires
    ensures multiset(Residue3(less, s)) == multiset(s)
  {
    var s1 := CompareExchange(less, s, 3, 19);
    CompareExchangePermutes(less, s, 3, 19);
    var s2 := CompareExchange(less, s1, 11, 27);
    CompareExchangePermutes(less, s1, 11, 27);
    var s3 := CompareExchange(less, s2, 11, 19);
    CompareExchangePermutes(less, s2, 11, 19);
    var s4 := CompareExchange(less, s3, 7, 23);
    CompareExchangePermutes(less, s3, 7, 23);
    var s5 := CompareExchange(less, s4, 15, 23);
    CompareExchangePermutes(less, s4, 15, 23);
    var s6 := CompareExchange(less, s5, 7, 11);
    CompareExchangePermutes(less, s5, 7, 11);
    var s7 := CompareExchange(less, s6, 15, 19);
    CompareExchangePermutes(less, s6, 15, 19);
    var s8 := CompareExchange(less, s7, 23, 27);
    CompareExchangePermutes(less, s7, 23, 27);
  }

  /** The suffix form of `Residue3Frame`, from wire 31 on. */
  lemma Residue3Beyond<T>(less: (T, T) -> bool, s: seq<T>)
    requires |s| >= Wires
    ensures Residue3(less, s)[Wires..] == s[Wires..]
  {
    Residue3Frame(less, s);
  }

  lemma Residue3InOrder<T>(less: (T, T) -> bool, s: seq<T>)
    requires |s| >= Wires && SortedWithin(less, s, 0, Wires)
    ensures Residue3(less, s) == s
  {
    CompareExchangeInOrder(less, s, 3, 19);
    CompareExchangeInOrder(less, s, 11, 27);
    CompareExchangeInOrder(less, s, 11, 19);
    CompareExchangeInOrder(less, s, 7, 23);
    CompareExchangeInOrder(less, s, 15, 23);
    CompareExchangeInOrder(less, s, 7, 11);
    CompareExchangeInOrder(less, s, 15, 19);
    CompareExchangeInOrder(less, s, 23, 27);
  }

  lemma OddStride2Permutes<T>(less: (T, T) -> bool, s: seq<T>)
    requires |s| >= Wires
    ensures multiset(OddStride2(less, s)) == multiset(s)
  {
    var s1 := CompareExchange(less, s, 3, 5);
    CompareExchangePermutes(less, s, 3, 5);
    var s2 := CompareExchange(less, s1, 7, 9);
    CompareExchangePermutes(less, s1, 7, 9);
    var s3 := CompareExchange(less, s2, 11, 13);
    CompareExchangePermutes(less, s2, 11, 13);
    var s4 := CompareExchange(less, s3, 15, 17);
    CompareExchangePermutes(less, s3, 15, 17);
    var s5 := CompareExchange(less, s4, 19, 21);
    CompareExchangePermutes(less, s4, 19, 21);
    var s6 := CompareExchange(less, s5, 23, 25);
    CompareExchangePermutes(less, s5, 23, 25);
    var s7 := CompareExchange(less, s6, 27, 29);
    CompareExchangePermutes(less, s6, 27, 29);
  }

  /** The suffix form of `OddStride2Frame`, from wire 31 on. */
  lemma OddStride2Beyond<T>(less: (T, T) -> bool, s: seq<T>)
    requires |s| >= Wires
    ensures OddStride2(less, s)[Wires..] == s[Wires..]
  {
    OddStride2Frame(less, s);
  }

  lemma OddStride2InOrder<T>(less: (T, T) -> bool, s: seq<T>)
    requires |s| >= Wires && SortedWithin(less, s, 0, Wires)
    ensures OddStride2(less, s) == s
  {
    CompareExchangeInOrder(less, s, 3, 5);
    CompareExchangeInOrder(less, s, 7, 9);
    CompareExchangeInOrder(less, s, 11, 13);
    CompareExchangeInOrder(less, s, 15, 17);
    CompareExchangeInOrder(less, s, 19, 21);
    CompareExchangeInOrder(less, s, 23, 25);
    CompareExchangeInOrder(less, s, 27, 29);
  }

  lemma FinalAdjacentPermutes<T>(less: (T, T) -> bool, s: seq<T>)
    requires |s| >= Wires
    ensures multiset(FinalAdjacent(less, s)) == multiset(s)
  {
    var s1 := CompareExchange(less, s, 1, 2);
    CompareExchangePermutes(less, s, 1, 2);
    var s2 := CompareExchange(less, s1, 3, 4);
    CompareExchangePermutes(less, s1, 3, 4);
    var s3 := CompareExchange(less, s2, 5, 6);
    CompareExchangePermutes(less, s2, 5, 6);
    var s4 := CompareExchange(less, s3, 7, 8);
    CompareExchangePermutes(less, s3, 7, 8);
    var s5 := CompareExchange(less, s4, 9, 10);
    CompareExchangePermutes(less, s4, 9, 10);
    var s6 := CompareExchange(less, s5, 11, 12);
    CompareExchangePermutes(less, s5, 11, 12);
    var s7 := CompareExchange(less, s6, 13, 14);
    CompareExchangePermutes(less, s6, 13, 14);
    var s8 := CompareExchange(less, s7, 15, 16);
    CompareExchangePermutes(less, s7, 15, 16);
    var s9 := CompareExchange(less, s8, 17, 18);
    CompareExchangePermutes(less, s8, 17, 18);
    var s10 := CompareExchange(less, s9, 19, 20);
    CompareExchangePermutes(less, s9, 19, 20);
    var s11 := CompareExchange(less, s10, 21, 22);
    CompareExchangePermutes(less, s10, 21, 22);
    var s12 := CompareExchange(less, s11, 23, 24);
    CompareExchangePermutes(less, s11, 23, 24);
    var s13 := CompareExchange(less, s12, 25, 26);
    CompareExchangePermutes(less, s12, 25, 26);
    var s14 := CompareExchange(less, s13, 27, 28);
    CompareExchangePermutes(less, s13, 27, 28);
    var s15 := CompareExchange(less, s14, 29, 30);
    CompareExchangePermutes(less, s14, 29, 30);
  }

  /** The suffix form of `FinalAdjacentFrame`, from wire 31 on. */
  lemma FinalAdjacentBeyond<T>(less: (T, T) -> bool, s: seq<T>)
    requires |s| >= Wires
    ensures FinalAdjacent(less, s)[Wires..] == s[Wires..]
  {
    FinalAdjacentFrame(less, s);
  }

  lemma FinalAdjacentInOrder<T>(less: (T, T) -> bool, s: seq<T>)
    requires |s| >= Wires && SortedWithin(less, s, 0, Wires)
    ensures FinalAdjacent(less, s) == s
  {
    CompareExchangeInOrder(less, s, 1, 2);
    CompareExchangeInOrder(less, s, 3, 4);
    CompareExchangeInOrder(less, s, 5, 6);
    CompareExchangeInOrder(less, s, 7, 8);
    CompareExchangeInOrder(less, s, 9, 10);
    CompareExchangeInOrder(less, s, 11, 12);
    CompareExchangeInOrder(less, s, 13, 14);
    CompareExchangeInOrder(less, s, 15, 16);
    CompareExchangeInOrder(less, s, 17, 18);
    CompareExchangeInOrder(less, s, 19, 20);
    CompareExchangeInOrder(less, s, 21, 22);
    CompareExchangeInOrder(less, s, 23, 24);
    CompareExchangeInOrder(less, s, 25, 26);
    CompareExchangeInOrder(less, s, 27, 28);
    CompareExchangeInOrder(less, s, 29, 30);
  }

  /** The whole merge, stage after stage, in source order. */
  function Merge<T>(less: (T, T) -> bool, s: seq<T>): (r: seq<T>)
    requires |s| >= Wires
    ensures |r| == |s|
  {
    FinalAdjacent(less, OddStride2(less, Residue3(less, Residue1(less,
      EvenStride2(less, Residue2(less, Residue0(less, s)))))))
  }

  /** The merge only rearranges the elements it is given. */
  lemma MergePermutes<T>(less: (T, T) -> bool, s: seq<T>)
    requires |s| >= Wires
    ensures multiset(Merge(less, s)) == multiset(s)
  {
    var s1 := Residue0(less, s);
    var s2 := Residue2(less, s1);
    var s3 := EvenStride2(less, s2);
    var s4 := Residue1(less, s3);
    var s5 := Residue3(less, s4);
    var s6 := OddStride2(less, s5);
    Residue0Permutes(less, s);
    Residue2Permutes(less, s1);
    EvenStride2Permutes(less, s2);
    Residue1Permutes(less, s3);
    Residue3Permutes(less, s4);
    OddStride2Permutes(less, s5);
    FinalAdjacentPermutes(less, s6);
  }

  /** Nothing from wire 31 on is written. */
  lemma MergeFrame<T>(less: (T, T) -> bool, s: seq<T>)
    requires |s| >= Wires
    ensures Merge(less, s)[Wires..] == s[Wires..]
  {
    var s1 := Residue0(less, s);
    var s2 := Residue2(less, s1);
    var s3 := EvenStride2(less, s2);
    var s4 := Residue1(less, s3);
    var s5 := Residue3(less, s4);
    var s6 := OddStride2(less, s5);
    Residue0Beyond(less, s);
    Residue2Beyond(less, s1);
    EvenStride2Beyond(less, s2);
    Residue1Beyond(less, s3);
    Residue3Beyond(less, s4);
    OddStride2Beyond(less, s5);
    FinalAdjacentBeyond(less, s6);
  }

  /** A range that is already sorted goes through the merge unchanged: every
      comparison finds its pair in order. */
  lemma MergeSortedUnchanged<T>(less: (T, T) -> bool, s: seq<T>)
    requires |s| >= Wires && Sorted(less, s[..Wires])
    ensures Merge(less, s) == s
  {
    SortedWithinSlice(less, s, 0, Wires);
    Residue0InOrder(less, s);
    Residue2InOrder(less, s);
    EvenStride2InOrder(less, s);
    Residue1InOrder(less, s);
    Residue3InOrder(less, s);
    OddStride2InOrder(less, s);
    FinalAdjacentInOrder(less, s);
  }

  /** `t` is `s` after the neighbours `(2k - 1, 2k)` for k = 1, ..., m have
      been put in order: each such pair holds the smaller and the larger of
      its two elements in `s`, and every other position still holds its
      element in `s`. */
  ghost predicate AdjacentLayer<T>(less: (T, T) -> bool, s: seq<T>, t: seq<T>, m: int)
  {
    && |t| == |s|
    && (forall k :: 1 <= k <= m && 2 * k < |s| ==>
          t[2 * k - 1] == Lower(less, s[2 * k - 1], s[2 * k]) && t[2 * k] == Upper(less, s[2 * k - 1], s[2 * k]))
    && (forall p :: 0 <= p < |s| && (p == 0 || p > 2 * m) ==> t[p] == s[p])
  }

  /** The next pair of neighbours extends the layer by one. */
  lemma AdjacentLayerStep<T>(less: (T, T) -> bool, s: seq<T>, t: seq<T>, m: nat)
    requires 2 * m + 2 < |s| && AdjacentLayer(less, s, t, m)
    ensures AdjacentLayer(less, s, CompareExchange(less, t, 2 * m + 1, 2 * m + 2), m + 1)
  {
    assert t[2 * m + 1] == s[2 * m + 1] && t[2 * m + 2] == s[2 * m + 2];
  }

  /** The last stage is one layer of compare-exchanges on the disjoint
      neighbours `(2k - 1, 2k)`, k = 1, ..., 15: it puts each such pair in
      order and touches nothing else. */
  lemma FinalAdjacentLayer<T>(less: (T, T) -> bool, s: seq<T>)
    requires |s| >= Wires
    ensures AdjacentLayer(less, s, FinalAdjacent(less, s), 15)
  {
    AdjacentLayerStep(less, s, s, 0);
    var t1 := CompareExchange(less, s, 1, 2);
    AdjacentLayerStep(less, s, t1, 1);
    var t2 := CompareExchange(less, t1, 3, 4);
    AdjacentLayerStep(less, s, t2, 2);
    var t3 := CompareExchange(less, t2, 5, 6);
    AdjacentLayerStep(less, s, t3, 3);
    var t4 := CompareExchange(less, t3, 7, 8);
    AdjacentLayerStep(less, s, t4, 4);
    var t5 := CompareExchange(less, t4, 9, 10);
    AdjacentLayerStep(less, s, t5, 5);
    var t6 := CompareExchange(less, t5, 11, 12);
    AdjacentLayerStep(less, s, t6, 6);
    var t7 := CompareExchange(less, t6, 13, 14);
    AdjacentLayerStep(less, s, t7, 7);
    var t8 := CompareExchange(less, t7, 15, 16);
    AdjacentLayerStep(less, s, t8, 8);
    var t9 := CompareExchange(less, t8, 17, 18);
    AdjacentLayerStep(less, s, t9, 9);
    var t10 := CompareExchange(less, t9, 19, 20);
    AdjacentLayerStep(less, s, t10, 10);
    var t11 := CompareExchange(less, t10, 21, 22);
    AdjacentLayerStep(less, s, t11, 11);
    var t12 := CompareExchange(less, t11, 23, 24);
    AdjacentLayerStep(less, s, t12, 12);
    var t13 := CompareExchange(less, t12, 25, 26);
    AdjacentLayerStep(less, s, t13, 13);
    var t14 := CompareExchange(less, t13, 27, 28);
    AdjacentLayerStep(less, s, t14, 14);
    var t15 := CompareExchange(less, t14, 29, 30);
    assert t15 == FinalAdjacent(less, s);
  }
}
