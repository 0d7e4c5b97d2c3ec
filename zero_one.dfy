/** The merge on sequences of zeros and ones. A sorted run of bits is
    described by the number of zeros it starts with; each stage of the merge
    is proved to turn the runs it reads into the run it promises, so that two
    sorted halves come out as one sorted sequence. */
module ZeroOne {
  import opened Order
  import opened CompareSwap
  import opened MergeNetwork

  datatype Bit = Zero | One

  /** The comparator on bits: zero comes before one. */
  predicate BitLess(x: Bit, y: Bit)
  {
    x == Zero && y == One
  }

  /** The `n` wires `start`, `start + stride`, ... of `b` hold `z` zeros
      followed by ones (all zeros when `z >= n`). */
  ghost predicate Run(b: seq<Bit>, start: int, stride: int, n: int, z: int)
    requires stride > 0
  {
    forall p :: 0 <= p < |b| && start <= p < start + stride * n && (p - start) % stride == 0 ==>
      b[p] == (if p < start + stride * z then Zero else One)
  }

  /** A sorted range of bits is a run of zeros followed by ones. */
  lemma {:induction false} SortedRun(b: seq<Bit>, start: nat, n: nat) returns (z: nat)
    requires start + n <= |b| && Sorted(BitLess, b[start..start + n])
    ensures z <= n && Run(b, start, 1, n, z)
  {
    if n == 0 {
      z := 0;
    } else {
      assert b[start..start + n - 1] == b[start..start + n][..n - 1];
      var z' := SortedRun(b, start, n - 1);
      var last := b[start + n - 1];
      if z' == n - 1 && last == Zero {
        z := n;
      } else {
        z := z';
        if z' < n - 1 {
          assert b[start + z'] == One;
          assert b[start..start + n][z'] == One && b[start..start + n][n - 1] == last;
        }
      }
    }
  }

  /** A run of zeros followed by ones is sorted. */
  lemma RunSorted(b: seq<Bit>, n: nat, z: int)
    requires n <= |b| && Run(b, 0, 1, n, z)
    ensures Sorted(BitLess, b[..n])
  {
    forall i, j | 0 <= i < j < n ensures !BitLess(b[..n][j], b[..n][i]) {
      assert b[..n][i] == b[i] && b[..n][j] == b[j];
    }
  }

  /** Every fourth wire of a run, from offset `c`, is again a run; its zeros
      are the quarter of the zeros of the run, rounded according to `c`. */
  lemma ClassRun(b: seq<Bit>, start: int, n: int, z: int, c: int, m: int, w: int, q: int)
    requires 0 <= z <= n && 0 <= c < 4 && 0 <= m && c + 4 * (m - 1) < n
    requires w == start + c && q == (z - c + 3) / 4
    requires Run(b, start, 1, n, z)
    ensures Run(b, w, 4, m, q)
  {
    forall p | 0 <= p < |b| && w <= p < w + 4 * m && (p - w) % 4 == 0
      ensures b[p] == (if p < w + 4 * q then Zero else One)
    {
      var t := (p - w) / 4;
      assert p - w == 4 * t && 0 <= t < m;
      var i := c + 4 * t;
      assert p == start + i && 0 <= i < n;
      assert b[p] == (if i < z then Zero else One);
      assert 4 * q <= z - c + 3 < 4 * q + 4;
      assert i < z <==> t < q;
    }
  }

  /** Every other wire of a run taken four apart, from offset `off`, is
      again a run, with half of its zeros, rounded up for the first offset
      and down for the second. */
  lemma HalfRun(b: seq<Bit>, start: int, n: int, z: int, off: int, m: int)
    requires 0 <= z <= n && 0 <= off < 2 && 0 <= m && off + 2 * (m - 1) < n
    requires Run(b, start, 4, n, z)
    ensures Run(b, start + 4 * off, 8, m, (z - off + 1) / 2)
  {
    var q := (z - off + 1) / 2;
    forall p | 0 <= p < |b| && start + 4 * off <= p < start + 4 * off + 8 * m && (p - (start + 4 * off)) % 8 == 0
      ensures b[p] == (if p < start + 4 * off + 8 * q then Zero else One)
    {
      var t := (p - (start + 4 * off)) / 8;
      assert p - (start + 4 * off) == 8 * t && 0 <= t < m;
      var i := off + 2 * t;
      assert p - start == 4 * i && 0 <= i < n;
      assert (p - start) % 4 == 0;
      assert b[p] == (if i < z then Zero else One);
      assert 2 * q <= z - off + 1 < 2 * q + 2;
      assert i < z <==> t < q;
    }
  }

  /** The `2 + 2` odd-even merge of wires `w, w + 8` with `w + 16, w + 24`. */
  function Merge2x2(b: seq<Bit>, w: nat): seq<Bit>
    requires w + 24 < |b|
  {
    var b := CompareExchange(BitLess, b, w, w + 16);
    var b := CompareExchange(BitLess, b, w + 8, w + 24);
    CompareExchange(BitLess, b, w + 8, w + 16)
  }

  /** Two sorted pairs come out of `Merge2x2` as one sorted run of four. */
  lemma Merge2x2Run(b: seq<Bit>, w: nat, x: int, y: int)
    requires w + 24 < |b| && 0 <= x <= 2 && 0 <= y <= 2
    requires Run(b, w, 8, 2, x) && Run(b, w + 16, 8, 2, y)
    ensures Run(Merge2x2(b, w), w, 8, 4, x + y)
    ensures forall p :: 0 <= p < |b| && p != w && p != w + 8 && p != w + 16 && p != w + 24 ==> Merge2x2(b, w)[p] == b[p]
  {
  }

  /** The `2 + 1` merge of wires `w, w + 8` with `w + 16`: the `2 + 2` merge
      whose fourth wire is missing. */
  function Merge2x1(b: seq<Bit>, w: nat): seq<Bit>
    requires w + 16 < |b|
  {
    var b := CompareExchange(BitLess, b, w, w + 16);
    CompareExchange(BitLess, b, w + 8, w + 16)
  }

  /** A sorted pair and a single wire come out of `Merge2x1` as one sorted run of three. */
  lemma Merge2x1Run(b: seq<Bit>, w: nat, x: int, y: int)
    requires w + 16 < |b| && 0 <= x <= 2 && 0 <= y <= 1
    requires Run(b, w, 8, 2, x) && Run(b, w + 16, 8, 1, y)
    ensures Run(Merge2x1(b, w), w, 8, 3, x + y)
    ensures forall p :: 0 <= p < |b| && p != w && p != w + 8 && p != w + 16 ==> Merge2x1(b, w)[p] == b[p]
  {
  }

  /** The last layer of an odd-even merge of two runs of four taken four
      apart from wire `c`: wires `c + 4`, `c + 12`, `c + 20` against their
      successors. */
  function Interleave(b: seq<Bit>, c: nat): seq<Bit>
    requires c + 24 < |b|
  {
    var b := CompareExchange(BitLess, b, c + 4, c + 8);
    var b := CompareExchange(BitLess, b, c + 12, c + 16);
    CompareExchange(BitLess, b, c + 20, c + 24)
  }

  /** A run on the wires `c + 8k` and a run on the wires `c + 4 + 8k`, the
      first with at least as many zeros as the second and at most two more,
      come out of `Interleave` as one run on the wires `c + 4k`. */
  lemma InterleaveRun(b: seq<Bit>, c: nat, n: int, x: int, y: int)
    requires c + 4 + 8 * (n - 1) < |b| && c + 24 < |b| && 3 <= n <= 4
    requires 0 <= y <= x <= y + 2 && x <= 4 && y <= n
    requires Run(b, c, 8, 4, x) && Run(b, c + 4, 8, n, y)
    ensures Run(Interleave(b, c), c, 4, 4 + n, x + y)
  {
  }

  /** How the zeros of two runs split between their even- and odd-indexed
      wires: the two counts add up, and the even-indexed wires hold at least
      as many zeros as the odd-indexed ones and at most two more. */
  lemma HalvesSplit(x: int, y: int)
    requires 0 <= x && 0 <= y
    ensures x / 2 + y / 2 <= (x + 1) / 2 + (y + 1) / 2 <= x / 2 + y / 2 + 2
    ensures (x + 1) / 2 + (y + 1) / 2 + (x / 2 + y / 2) == x + y
  {
  }

  /** First phase of the odd-even merge of the run of four on the wires
      `a + 4k` with the run of `m` on the wires `a + 16 + 4k`: their
      even-indexed wires are merged by `Merge2x2`, their odd-indexed wires
      keep their runs. */
  lemma FirstPhaseRun(b: seq<Bit>, a: nat, m: int, x: int, y: int)
    requires a + 16 + 4 * (m - 1) < |b| && a + 24 < |b| && 3 <= m <= 4
    requires 0 <= x <= 4 && 0 <= y <= m
    requires Run(b, a, 4, 4, x) && Run(b, a + 16, 4, m, y)
    ensures Run(Merge2x2(b, a), a, 8, 4, (x + 1) / 2 + (y + 1) / 2)
    ensures Run(Merge2x2(b, a), a + 4, 8, 2, x / 2)
    ensures Run(Merge2x2(b, a), a + 20, 8, m - 2, y / 2)
  {
    HalfRun(b, a, 4, x, 0, 2);
    HalfRun(b, a, 4, x, 1, 2);
    HalfRun(b, a + 16, m, y, 0, 2);
    HalfRun(b, a + 16, m, y, 1, m - 2);
    Merge2x2Run(b, a, (x + 1) / 2, (y + 1) / 2);
  }

  /** Second phase, for two runs of four: the odd-indexed wires are merged
      by `Merge2x2`; the merged even-indexed wires keep their run. */
  lemma SecondPhaseRun(t: seq<Bit>, a: nat, e: int, x: int, y: int)
    requires a + 28 < |t| && 0 <= x <= 2 && 0 <= y <= 2
    requires Run(t, a, 8, 4, e) && Run(t, a + 4, 8, 2, x) && Run(t, a + 20, 8, 2, y)
    ensures Run(Merge2x2(t, a + 4), a, 8, 4, e)
    ensures Run(Merge2x2(t, a + 4), a + 4, 8, 4, x + y)
  {
    Merge2x2Run(t, a + 4, x, y);
  }

  /** Second phase, for a run of four and a run of three: the odd-indexed
      wires are merged by `Merge2x1`. */
  lemma SecondPhaseShortRun(t: seq<Bit>, a: nat, e: int, x: int, y: int)
    requires a + 20 < |t| && 0 <= x <= 2 && 0 <= y <= 1
    requires Run(t, a, 8, 4, e) && Run(t, a + 4, 8, 2, x) && Run(t, a + 20, 8, 1, y)
    ensures Run(Merge2x1(t, a + 4), a, 8, 4, e)
    ensures Run(Merge2x1(t, a + 4), a + 4, 8, 3, x + y)
  {
    Merge2x1Run(t, a + 4, x, y);
  }


  /** The odd-even merge of the run of four on the wires `a + 4k` with the
      run of four on the wires `a + 16 + 4k` is one run of eight. */
  lemma BlockMergeRun(b: seq<Bit>, a: nat, x: int, y: int)
    requires a + 28 < |b| && 0 <= x <= 4 && 0 <= y <= 4
    requires Run(b, a, 4, 4, x) && Run(b, a + 16, 4, 4, y)
    ensures Run(Interleave(Merge2x2(Merge2x2(b, a), a + 4), a), a, 4, 8, x + y)
  {
    HalvesSplit(x, y);
    FirstPhaseRun(b, a, 4, x, y);
    SecondPhaseRun(Merge2x2(b, a), a, (x + 1) / 2 + (y + 1) / 2, x / 2, y / 2);
    InterleaveRun(Merge2x2(Merge2x2(b, a), a + 4), a, 4, (x + 1) / 2 + (y + 1) / 2, x / 2 + y / 2);
  }

  /** The same merge with a run of three on the wires `a + 16 + 4k`. */
  lemma BlockMergeShortRun(b: seq<Bit>, a: nat, x: int, y: int)
    requires a + 24 < |b| && 0 <= x <= 4 && 0 <= y <= 3
    requires Run(b, a, 4, 4, x) && Run(b, a + 16, 4, 3, y)
    ensures Run(Interleave(Merge2x1(Merge2x2(b, a), a + 4), a), a, 4, 7, x + y)
  {
    HalvesSplit(x, y);
    FirstPhaseRun(b, a, 3, x, y);
    SecondPhaseShortRun(Merge2x2(b, a), a, (x + 1) / 2 + (y + 1) / 2, x / 2, y / 2);
    InterleaveRun(Merge2x1(Merge2x2(b, a), a + 4), a, 3, (x + 1) / 2 + (y + 1) / 2, x / 2 + y / 2);
  }

  /** `Residue0` is the odd-even merge of the two runs it reads. */
  lemma Residue0Structure(b: seq<Bit>)
    requires |b| >= Wires
    ensures Residue0(BitLess, b) == Interleave(Merge2x2(Merge2x2(b, 0), 4), 0)
  {
  }

  /** The run the odd-even merge of the classes of wires 0 and 16 produces
      is the run `Residue0` produces. */
  lemma Residue0FromBlock(b: seq<Bit>, z: int)
    requires |b| >= Wires && Run(Interleave(Merge2x2(Merge2x2(b, 0), 4), 0), 0, 4, 8, z)
    ensures Run(Residue0(BitLess, b), 0, 4, 8, z)
  {
    Residue0Structure(b);
  }

  /** `Residue0` merges the sorted class of wire 0 in the first half with the
      sorted class of wire 16 in the second half into one sorted class. */
  lemma Residue0Run(b: seq<Bit>, x: int, y: int)
    requires |b| >= Wires && 0 <= x <= 4 && 0 <= y <= 4
    requires Run(b, 0, 4, 4, x) && Run(b, 16, 4, 4, y)
    ensures Run(Residue0(BitLess, b), 0, 4, 8, x + y)
  {
    BlockMergeRun(b, 0, x, y);
    Residue0FromBlock(b, x + y);
  }

  /** `Residue2` is the odd-even merge of the two runs it reads. */
  lemma Residue2Structure(b: seq<Bit>)
    requires |b| >= Wires
    ensures Residue2(BitLess, b) == Interleave(Merge2x2(Merge2x2(b, 2), 6), 2)
  {
  }

  /** `Residue2` merges the sorted class of wire 2 in the first half with the
      sorted class of wire 18 in the second half into one sorted class. */
  lemma Residue2Run(b: seq<Bit>, x: int, y: int)
    requires |b| >= Wires && 0 <= x <= 4 && 0 <= y <= 4
    requires Run(b, 2, 4, 4, x) && Run(b, 18, 4, 4, y)
    ensures Run(Residue2(BitLess, b), 2, 4, 8, x + y)
  {
    BlockMergeRun(b, 2, x, y);
    Residue2Structure(b);
  }

  /** `Residue1` is the odd-even merge of the two runs it reads. */
  lemma Residue1Structure(b: seq<Bit>)
    requires |b| >= Wires
    ensures Residue1(BitLess, b) == Interleave(Merge2x2(Merge2x2(b, 1), 5), 1)
  {
  }

  /** `Residue1` merges the sorted class of wire 1 in the first half with the
      sorted class of wire 17 in the second half into one sorted class. */
  lemma Residue1Run(b: seq<Bit>, x: int, y: int)
    requires |b| >= Wires && 0 <= x <= 4 && 0 <= y <= 4
    requires Run(b, 1, 4, 4, x) && Run(b, 17, 4, 4, y)
    ensures Run(Residue1(BitLess, b), 1, 4, 8, x + y)
  {
    BlockMergeRun(b, 1, x, y);
    Residue1Structure(b);
  }

  /** `Residue3` is the odd-even merge of the two runs it reads. */
  lemma Residue3Structure(b: seq<Bit>)
    requires |b| >= Wires
    ensures Residue3(BitLess, b) == Interleave(Merge2x1(Merge2x2(b, 3), 7), 3)
  {
  }

  /** `Residue3` merges the sorted class of wire 3 in the first half with the
      sorted class of wire 19 in the second half into one sorted class. */
  lemma Residue3Run(b: seq<Bit>, x: int, y: int)
    requires |b| >= Wires && 0 <= x <= 4 && 0 <= y <= 3
    requires Run(b, 3, 4, 4, x) && Run(b, 19, 4, 3, y)
    ensures Run(Residue3(BitLess, b), 3, 4, 7, x + y)
  {
    BlockMergeShortRun(b, 3, x, y);
    Residue3Structure(b);
  }
  /** The wires `start`, `start + stride`, ... up to `last` of `t` already hold
      their place in a run of `z` zeros; every other wire still holds its
      value in `b`. */
  ghost predicate Settled(b: seq<Bit>, t: seq<Bit>, start: int, stride: int, last: int, z: int)
    requires stride > 0
  {
    |t| == |b| &&
    forall p :: 0 <= p < |t| ==>
      t[p] == (if start <= p <= last && (p - start) % stride == 0 then (if p < start + stride * z then Zero else One) else b[p])
  }

  /** One comparison of `EvenStride2` settles the next two even wires. */
  lemma EvenStride2Step(b: seq<Bit>, t: seq<Bit>, m: int, x: int, y: int)
    requires |b| >= Wires && 0 <= y <= x <= y + 2 && x <= 8
    requires Run(b, 0, 4, 8, x) && Run(b, 2, 4, 8, y)
    requires 0 <= m < 7 && Settled(b, t, 0, 2, 4 * m, x + y)
    ensures Settled(b, CompareExchange(BitLess, t, 4 * m + 2, 4 * m + 4), 0, 2, 4 * m + 4, x + y)
  {
  }

  /** One comparison of `OddStride2` settles the next two odd wires. */
  lemma OddStride2Step(b: seq<Bit>, t: seq<Bit>, m: int, x: int, y: int)
    requires |b| >= Wires && 0 <= y <= x <= y + 2 && x <= 8 && y <= 7
    requires Run(b, 1, 4, 8, x) && Run(b, 3, 4, 7, y)
    requires 0 <= m < 7 && Settled(b, t, 1, 2, 4 * m + 1, x + y)
    ensures Settled(b, CompareExchange(BitLess, t, 4 * m + 3, 4 * m + 5), 1, 2, 4 * m + 5, x + y)
  {
  }

  /** One comparison of `FinalAdjacent` settles the next two wires. */
  lemma FinalAdjacentStep(b: seq<Bit>, t: seq<Bit>, m: int, x: int, y: int)
    requires |b| >= Wires && 0 <= y <= x <= y + 2 && x <= 16
    requires Run(b, 0, 2, 16, x) && Run(b, 1, 2, 15, y)
    requires 0 <= m < 15 && Settled(b, t, 0, 1, 2 * m, x + y)
    ensures Settled(b, CompareExchange(BitLess, t, 2 * m + 1, 2 * m + 2), 0, 1, 2 * m + 2, x + y)
  {
  }

  /** Every comparison of `EvenStride2`, in source order, settles its pair. */
  lemma EvenStride2Settles(b: seq<Bit>, x: int, y: int)
    requires |b| >= Wires && 0 <= y <= x <= y + 2 && x <= 8
    requires Run(b, 0, 4, 8, x) && Run(b, 2, 4, 8, y)
    ensures Settled(b, EvenStride2(BitLess, b), 0, 2, 28, x + y)
  {
    var t0 := b;
    var t1 := CompareExchange(BitLess, t0, 2, 4);
    EvenStride2Step(b, t0, 0, x, y);
    var t2 := CompareExchange(BitLess, t1, 6, 8);
    EvenStride2Step(b, t1, 1, x, y);
    var t3 := CompareExchange(BitLess, t2, 10, 12);
    EvenStride2Step(b, t2, 2, x, y);
    var t4 := CompareExchange(BitLess, t3, 14, 16);
    EvenStride2Step(b, t3, 3, x, y);
    var t5 := CompareExchange(BitLess, t4, 18, 20);
    EvenStride2Step(b, t4, 4, x, y);
    var t6 := CompareExchange(BitLess, t5, 22, 24);
    EvenStride2Step(b, t5, 5, x, y);
    var t7 := CompareExchange(BitLess, t6, 26, 28);
    EvenStride2Step(b, t6, 6, x, y);
    assert t7 == EvenStride2(BitLess, b);
  }

  /** The sorted classes of wires 0 + 4k and 2 + 4k, the first with at least
      as many zeros as the second and at most two more, come out of
      `EvenStride2` as one sorted run over the even wires. */
  lemma EvenStride2Run(b: seq<Bit>, x: int, y: int)
    requires |b| >= Wires && 0 <= y <= x <= y + 2 && x <= 8
    requires Run(b, 0, 4, 8, x) && Run(b, 2, 4, 8, y)
    ensures Run(EvenStride2(BitLess, b), 0, 2, 16, x + y)
  {
    EvenStride2Settles(b, x, y);
  }

  /** Every comparison of `OddStride2`, in source order, settles its pair. */
  lemma OddStride2Settles(b: seq<Bit>, x: int, y: int)
    requires |b| >= Wires && 0 <= y <= x <= y + 2 && x <= 8 && y <= 7
    requires Run(b, 1, 4, 8, x) && Run(b, 3, 4, 7, y)
    ensures Settled(b, OddStride2(BitLess, b), 1, 2, 29, x + y)
  {
    var t0 := b;
    var t1 := CompareExchange(BitLess, t0, 3, 5);
    OddStride2Step(b, t0, 0, x, y);
    var t2 := CompareExchange(BitLess, t1, 7, 9);
    OddStride2Step(b, t1, 1, x, y);
    var t3 := CompareExchange(BitLess, t2, 11, 13);
    OddStride2Step(b, t2, 2, x, y);
    var t4 := CompareExchange(BitLess, t3, 15, 17);
    OddStride2Step(b, t3, 3, x, y);
    var t5 := CompareExchange(BitLess, t4, 19, 21);
    OddStride2Step(b, t4, 4, x, y);
    var t6 := CompareExchange(BitLess, t5, 23, 25);
    OddStride2Step(b, t5, 5, x, y);
    var t7 := CompareExchange(BitLess, t6, 27, 29);
    OddStride2Step(b, t6, 6, x, y);
    assert t7 == OddStride2(BitLess, b);
  }

  /** The sorted classes of wires 1 + 4k and 3 + 4k, the first with at least
      as many zeros as the second and at most two more, come out of
      `OddStride2` as one sorted run over the odd wires. */
  lemma OddStride2Run(b: seq<Bit>, x: int, y: int)
    requires |b| >= Wires && 0 <= y <= x <= y + 2 && x <= 8 && y <= 7
    requires Run(b, 1, 4, 8, x) && Run(b, 3, 4, 7, y)
    ensures Run(OddStride2(BitLess, b), 1, 2, 15, x + y)
  {
    OddStride2Settles(b, x, y);
  }

  /** Every comparison of `FinalAdjacent`, in source order, settles its pair. */
  lemma FinalAdjacentSettles(b: seq<Bit>, x: int, y: int)
    requires |b| >= Wires && 0 <= y <= x <= y + 2 && x <= 16
    requires Run(b, 0, 2, 16, x) && Run(b, 1, 2, 15, y)
    ensures Settled(b, FinalAdjacent(BitLess, b), 0, 1, 30, x + y)
  {
    var t0 := b;
    var t1 := CompareExchange(BitLess, t0, 1, 2);
    FinalAdjacentStep(b, t0, 0, x, y);
    var t2 := CompareExchange(BitLess, t1, 3, 4);
    FinalAdjacentStep(b, t1, 1, x, y);
    var t3 := CompareExchange(BitLess, t2, 5, 6);
    FinalAdjacentStep(b, t2, 2, x, y);
    var t4 := CompareExchange(BitLess, t3, 7, 8);
    FinalAdjacentStep(b, t3, 3, x, y);
    var t5 := CompareExchange(BitLess, t4, 9, 10);
    FinalAdjacentStep(b, t4, 4, x, y);
    var t6 := CompareExchange(BitLess, t5, 11, 12);
    FinalAdjacentStep(b, t5, 5, x, y);
    var t7 := CompareExchange(BitLess, t6, 13, 14);
    FinalAdjacentStep(b, t6, 6, x, y);
    var t8 := CompareExchange(BitLess, t7, 15, 16);
    FinalAdjacentStep(b, t7, 7, x, y);
    var t9 := CompareExchange(BitLess, t8, 17, 18);
    FinalAdjacentStep(b, t8, 8, x, y);
    var t10 := CompareExchange(BitLess, t9, 19, 20);
    FinalAdjacentStep(b, t9, 9, x, y);
    var t11 := CompareExchange(BitLess, t10, 21, 22);
    FinalAdjacentStep(b, t10, 10, x, y);
    var t12 := CompareExchange(BitLess, t11, 23, 24);
    FinalAdjacentStep(b, t11, 11, x, y);
    var t13 := CompareExchange(BitLess, t12, 25, 26);
    FinalAdjacentStep(b, t12, 12, x, y);
    var t14 := CompareExchange(BitLess, t13, 27, 28);
    FinalAdjacentStep(b, t13, 13, x, y);
    var t15 := CompareExchange(BitLess, t14, 29, 30);
    FinalAdjacentStep(b, t14, 14, x, y);
    assert t15 == FinalAdjacent(BitLess, b);
  }

  /** Sorted even wires and sorted odd wires, the even ones with at least as
      many zeros as the odd ones and at most two more, come out of
      `FinalAdjacent` as one run of zeros followed by ones over all 31 wires,
      with the zeros of both. */
  lemma FinalAdjacentRun(b: seq<Bit>, x: int, y: int)
    requires |b| >= Wires && 0 <= y <= x <= y + 2 && x <= 16
    requires Run(b, 0, 2, 16, x) && Run(b, 1, 2, 15, y)
    ensures Run(FinalAdjacent(BitLess, b), 0, 1, 31, x + y)
  {
    FinalAdjacentSettles(b, x, y);
  }

  /** How the zeros of a run split among its four classes of wires. */
  lemma QuartersSplit(z: int)
    requires 0 <= z
    ensures var a0, a1, a2, a3 := (z + 3) / 4, (z + 2) / 4, (z + 1) / 4, z / 4;
      && a2 <= a0 <= a2 + 1 && a3 <= a1 <= a3 + 1
      && a1 + a3 <= a0 + a2 <= a1 + a3 + 1
      && a0 + a1 + a2 + a3 == z
  {
  }

  /** `t` holds the same bits as `b` on the wires `start`, `start + stride`,
      ... (`n` of them). */
  ghost predicate Agree(b: seq<Bit>, t: seq<Bit>, start: int, stride: int, n: int)
    requires stride > 0
  {
    |t| == |b| &&
    forall p :: 0 <= p < |b| && start <= p < start + stride * n && (p - start) % stride == 0 ==> t[p] == b[p]
  }

  /** A run survives on wires where nothing changed. */
  lemma RunAgree(b: seq<Bit>, t: seq<Bit>, start: int, stride: int, n: int, z: int)
    requires stride > 0 && Run(b, start, stride, n, z) && Agree(b, t, start, stride, n)
    ensures Run(t, start, stride, n, z)
  {
  }

  /** A run on every fourth wire survives where every other wire is kept. */
  lemma RunAgreeHalf(b: seq<Bit>, t: seq<Bit>, start: int, n: int, w: int, m: int, z: int)
    requires 0 <= start <= w && (w - start) % 2 == 0
    requires w + 4 * (m - 1) <= start + 2 * (n - 1)
    requires Run(b, w, 4, m, z) && Agree(b, t, start, 2, n)
    ensures Run(t, w, 4, m, z)
  {
    forall p | 0 <= p < |t| && w <= p < w + 4 * m && (p - w) % 4 == 0
      ensures t[p] == (if p < w + 4 * z then Zero else One)
    {
      assert (p - start) % 2 == 0;
    }
  }

  /** `Residue0` keeps the other even class and the odd wires. */
  lemma Residue0Keeps(b: seq<Bit>)
    requires |b| >= Wires
    ensures Agree(b, Residue0(BitLess, b), 2, 4, 4)
    ensures Agree(b, Residue0(BitLess, b), 18, 4, 4)
    ensures Agree(b, Residue0(BitLess, b), 1, 2, 15)
  {
    Residue0Frame(BitLess, b);
  }

  /** `Residue2` keeps the other even class and the odd wires. */
  lemma Residue2Keeps(b: seq<Bit>)
    requires |b| >= Wires
    ensures Agree(b, Residue2(BitLess, b), 0, 4, 8)
    ensures Agree(b, Residue2(BitLess, b), 1, 2, 15)
  {
    Residue2Frame(BitLess, b);
  }

  /** `EvenStride2` keeps the odd wires. */
  lemma EvenStride2Keeps(b: seq<Bit>)
    requires |b| >= Wires
    ensures Agree(b, EvenStride2(BitLess, b), 1, 2, 15)
  {
    EvenStride2Frame(BitLess, b);
  }

  /** `Residue1` keeps the even wires and the other odd class. */
  lemma Residue1Keeps(b: seq<Bit>)
    requires |b| >= Wires
    ensures Agree(b, Residue1(BitLess, b), 0, 2, 16)
    ensures Agree(b, Residue1(BitLess, b), 3, 4, 4)
    ensures Agree(b, Residue1(BitLess, b), 19, 4, 3)
  {
    Residue1Frame(BitLess, b);
  }

  /** `Residue3` keeps the even wires and the other odd class. */
  lemma Residue3Keeps(b: seq<Bit>)
    requires |b| >= Wires
    ensures Agree(b, Residue3(BitLess, b), 0, 2, 16)
    ensures Agree(b, Residue3(BitLess, b), 1, 4, 8)
  {
    Residue3Frame(BitLess, b);
  }

  /** `OddStride2` keeps the even wires. */
  lemma OddStride2Keeps(b: seq<Bit>)
    requires |b| >= Wires
    ensures Agree(b, OddStride2(BitLess, b), 0, 2, 16)
  {
    OddStride2Frame(BitLess, b);
  }

  /** The odd classes of both halves: sorted runs on the wires `1 + 4k` and
      `3 + 4k` of each half. */
  ghost predicate OddClasses(b: seq<Bit>, x1: int, y1: int, x3: int, y3: int)
  {
    Run(b, 1, 4, 4, x1) && Run(b, 17, 4, 4, y1) && Run(b, 3, 4, 4, x3) && Run(b, 19, 4, 3, y3)
  }

  /** The odd classes survive wherever the odd wires are kept. */
  lemma OddClassesKept(b: seq<Bit>, t: seq<Bit>, x1: int, y1: int, x3: int, y3: int)
    requires OddClasses(b, x1, y1, x3, y3) && Agree(b, t, 1, 2, 15)
    ensures OddClasses(t, x1, y1, x3, y3)
  {
    RunAgreeHalf(b, t, 1, 15, 1, 4, x1);
    RunAgreeHalf(b, t, 1, 15, 17, 4, y1);
    RunAgreeHalf(b, t, 1, 15, 3, 4, x3);
    RunAgreeHalf(b, t, 1, 15, 19, 3, y3);
  }

  /** `Residue0` merges class 0 of both halves and keeps class 2 and the odd
      classes. */
  lemma Residue0Advance(b: seq<Bit>, x0: int, y0: int, x2: int, y2: int, x1: int, y1: int, x3: int, y3: int)
    requires |b| >= Wires && 0 <= x0 <= 4 && 0 <= y0 <= 4
    requires Run(b, 0, 4, 4, x0) && Run(b, 16, 4, 4, y0) && Run(b, 2, 4, 4, x2) && Run(b, 18, 4, 4, y2)
    requires OddClasses(b, x1, y1, x3, y3)
    ensures var r := Residue0(BitLess, b);
      && Run(r, 0, 4, 8, x0 + y0) && Run(r, 2, 4, 4, x2) && Run(r, 18, 4, 4, y2)
      && OddClasses(r, x1, y1, x3, y3)
  {
    var r := Residue0(BitLess, b);
    Residue0Run(b, x0, y0);
    Residue0Keeps(b);
    RunAgree(b, r, 2, 4, 4, x2);
    RunAgree(b, r, 18, 4, 4, y2);
    OddClassesKept(b, r, x1, y1, x3, y3);
  }

  /** `Residue2` merges class 2 of both halves and keeps the merged class 0
      and the odd classes. */
  lemma Residue2Advance(b: seq<Bit>, e0: int, x2: int, y2: int, x1: int, y1: int, x3: int, y3: int)
    requires |b| >= Wires && 0 <= x2 <= 4 && 0 <= y2 <= 4
    requires Run(b, 0, 4, 8, e0) && Run(b, 2, 4, 4, x2) && Run(b, 18, 4, 4, y2)
    requires OddClasses(b, x1, y1, x3, y3)
    ensures var r := Residue2(BitLess, b);
      && Run(r, 0, 4, 8, e0) && Run(r, 2, 4, 8, x2 + y2)
      && OddClasses(r, x1, y1, x3, y3)
  {
    var r := Residue2(BitLess, b);
    Residue2Run(b, x2, y2);
    Residue2Keeps(b);
    RunAgree(b, r, 0, 4, 8, e0);
    OddClassesKept(b, r, x1, y1, x3, y3);
  }

  /** `EvenStride2` joins the two merged even classes into one run on the
      even wires and keeps the odd classes. */
  lemma EvenStride2Advance(b: seq<Bit>, e0: int, e2: int, x1: int, y1: int, x3: int, y3: int)
    requires |b| >= Wires && 0 <= e2 <= e0 <= e2 + 2 && e0 <= 8
    requires Run(b, 0, 4, 8, e0) && Run(b, 2, 4, 8, e2)
    requires OddClasses(b, x1, y1, x3, y3)
    ensures var r := EvenStride2(BitLess, b);
      Run(r, 0, 2, 16, e0 + e2) && OddClasses(r, x1, y1, x3, y3)
  {
    EvenStride2Run(b, e0, e2);
    EvenStride2Keeps(b);
    OddClassesKept(b, EvenStride2(BitLess, b), x1, y1, x3, y3);
  }

  /** After the three stages on the even wires the even wires hold one
      sorted run and the odd classes of both halves are where they were. */
  lemma EvenPhaseRuns(b: seq<Bit>, x0: int, x1: int, x2: int, x3: int, y0: int, y1: int, y2: int, y3: int)
    requires |b| >= Wires && 0 <= x0 <= 4 && 0 <= y0 <= 4 && 0 <= x2 <= 4 && 0 <= y2 <= 4
    requires x2 <= x0 <= x2 + 1 && y2 <= y0 <= y2 + 1
    requires Run(b, 0, 4, 4, x0) && Run(b, 16, 4, 4, y0) && Run(b, 2, 4, 4, x2) && Run(b, 18, 4, 4, y2)
    requires OddClasses(b, x1, y1, x3, y3)
    ensures var c := EvenStride2(BitLess, Residue2(BitLess, Residue0(BitLess, b)));
      Run(c, 0, 2, 16, x0 + y0 + x2 + y2) && OddClasses(c, x1, y1, x3, y3)
  {
    Residue0Advance(b, x0, y0, x2, y2, x1, y1, x3, y3);
    var b1 := Residue0(BitLess, b);
    Residue2Advance(b1, x0 + y0, x2, y2, x1, y1, x3, y3);
    EvenStride2Advance(Residue2(BitLess, b1), x0 + y0, x2 + y2, x1, y1, x3, y3);
  }

  /** `Residue1` merges class 1 of both halves and keeps class 3 and the even
      wires. */
  lemma Residue1Advance(c: seq<Bit>, x1: int, y1: int, x3: int, y3: int, e: int)
    requires |c| >= Wires && 0 <= x1 <= 4 && 0 <= y1 <= 4
    requires OddClasses(c, x1, y1, x3, y3) && Run(c, 0, 2, 16, e)
    ensures var r := Residue1(BitLess, c);
      && Run(r, 1, 4, 8, x1 + y1) && Run(r, 3, 4, 4, x3) && Run(r, 19, 4, 3, y3)
      && Run(r, 0, 2, 16, e)
  {
    var r := Residue1(BitLess, c);
    Residue1Run(c, x1, y1);
    Residue1Keeps(c);
    RunAgree(c, r, 3, 4, 4, x3);
    RunAgree(c, r, 19, 4, 3, y3);
    RunAgree(c, r, 0, 2, 16, e);
  }

  /** `Residue3` merges class 3 of both halves and keeps the merged class 1
      and the even wires. */
  lemma Residue3Advance(c: seq<Bit>, o1: int, x3: int, y3: int, e: int)
    requires |c| >= Wires && 0 <= x3 <= 4 && 0 <= y3 <= 3
    requires Run(c, 1, 4, 8, o1) && Run(c, 3, 4, 4, x3) && Run(c, 19, 4, 3, y3)
    requires Run(c, 0, 2, 16, e)
    ensures var r := Residue3(BitLess, c);
      Run(r, 1, 4, 8, o1) && Run(r, 3, 4, 7, x3 + y3) && Run(r, 0, 2, 16, e)
  {
    var r := Residue3(BitLess, c);
    Residue3Run(c, x3, y3);
    Residue3Keeps(c);
    RunAgree(c, r, 1, 4, 8, o1);
    RunAgree(c, r, 0, 2, 16, e);
  }

  /** `OddStride2` joins the two merged odd classes into one run on the odd
      wires and keeps the even wires. */
  lemma OddStride2Advance(c: seq<Bit>, o1: int, o3: int, e: int)
    requires |c| >= Wires && 0 <= o3 <= o1 <= o3 + 2 && o1 <= 8 && o3 <= 7
    requires Run(c, 1, 4, 8, o1) && Run(c, 3, 4, 7, o3) && Run(c, 0, 2, 16, e)
    ensures var r := OddStride2(BitLess, c);
      Run(r, 1, 2, 15, o1 + o3) && Run(r, 0, 2, 16, e)
  {
    OddStride2Run(c, o1, o3);
    OddStride2Keeps(c);
    RunAgree(c, OddStride2(BitLess, c), 0, 2, 16, e);
  }

  /** After the three stages on the odd wires the odd wires hold one sorted
      run and the even wires are where they were. */
  lemma OddPhaseRuns(c: seq<Bit>, x1: int, y1: int, x3: int, y3: int, e: int)
    requires |c| >= Wires && 0 <= x1 <= 4 && 0 <= y1 <= 4 && 0 <= x3 <= 4 && 0 <= y3 <= 3
    requires x3 <= x1 <= x3 + 1 && y3 <= y1 <= y3 + 1
    requires OddClasses(c, x1, y1, x3, y3) && Run(c, 0, 2, 16, e)
    ensures var d := OddStride2(BitLess, Residue3(BitLess, Residue1(BitLess, c)));
      Run(d, 1, 2, 15, x1 + y1 + x3 + y3) && Run(d, 0, 2, 16, e)
  {
    Residue1Advance(c, x1, y1, x3, y3, e);
    var c1 := Residue1(BitLess, c);
    Residue3Advance(c1, x1 + y1, x3, y3, e);
    OddStride2Advance(Residue3(BitLess, c1), x1 + y1, x3 + y3, e);
  }

  /** Two sorted halves of bits split into eight sorted classes of wires.
      Within each half, class 0 holds at least as many zeros as class 2 and
      at most one more, class 1 likewise against class 3, and the classes 0
      and 2 together hold at least as many zeros as the classes 1 and 3
      together and at most one more. */
  lemma HalvesClassRuns(b: seq<Bit>) returns (x0: int, x1: int, x2: int, x3: int, y0: int, y1: int, y2: int, y3: int)
    requires |b| >= Wires && Sorted(BitLess, b[..16]) && Sorted(BitLess, b[16..Wires])
    ensures 0 <= x0 <= 4 && 0 <= x1 <= 4 && 0 <= x2 <= 4 && 0 <= x3 <= 4
    ensures 0 <= y0 <= 4 && 0 <= y1 <= 4 && 0 <= y2 <= 4 && 0 <= y3 <= 3
    ensures x2 <= x0 <= x2 + 1 && x3 <= x1 <= x3 + 1 && x1 + x3 <= x0 + x2 <= x1 + x3 + 1
    ensures y2 <= y0 <= y2 + 1 && y3 <= y1 <= y3 + 1 && y1 + y3 <= y0 + y2 <= y1 + y3 + 1
    ensures Run(b, 0, 4, 4, x0) && Run(b, 16, 4, 4, y0) && Run(b, 2, 4, 4, x2) && Run(b, 18, 4, 4, y2)
    ensures OddClasses(b, x1, y1, x3, y3)
  {
    assert b[0..16] == b[..16];
    var z1 := SortedRun(b, 0, 16);
    var z2 := SortedRun(b, 16, 15);
    QuartersSplit(z1);
    QuartersSplit(z2);
    x0, x1, x2, x3 := (z1 + 3) / 4, (z1 + 2) / 4, (z1 + 1) / 4, z1 / 4;
    y0, y1, y2, y3 := (z2 + 3) / 4, (z2 + 2) / 4, (z2 + 1) / 4, z2 / 4;
    ClassRun(b, 0, 16, z1, 0, 4, 0, x0);
    ClassRun(b, 0, 16, z1, 1, 4, 1, x1);
    ClassRun(b, 0, 16, z1, 2, 4, 2, x2);
    ClassRun(b, 0, 16, z1, 3, 4, 3, x3);
    ClassRun(b, 16, 15, z2, 0, 4, 16, y0);
    ClassRun(b, 16, 15, z2, 1, 4, 17, y1);
    ClassRun(b, 16, 15, z2, 2, 4, 18, y2);
    ClassRun(b, 16, 15, z2, 3, 3, 19, y3);
  }

  /** The same condition on the even and odd wires makes the first 31
      elements `FinalAdjacent` produces sorted under `BitLess`. */
  lemma FinalAdjacentSorts(b: seq<Bit>, x: int, y: int)
    requires |b| >= Wires && 0 <= y <= x <= y + 2 && x <= 16
    requires Run(b, 0, 2, 16, x) && Run(b, 1, 2, 15, y)
    ensures Sorted(BitLess, FinalAdjacent(BitLess, b)[..Wires])
  {
    FinalAdjacentRun(b, x, y);
    RunSorted(FinalAdjacent(BitLess, b), Wires, x + y);
  }

  /** A sorted run on the even wires whose zeros number at least those of
      the four odd classes together and at most two more, with sorted odd
      classes in which, within each half, class 1 holds at least as many zeros
      as class 3 and at most one more, comes out of the last four stages
      sorted. */
  lemma OddPhaseSorts(c: seq<Bit>, x1: int, y1: int, x3: int, y3: int, e: int)
    requires |c| >= Wires
    requires 0 <= x1 <= 4 && 0 <= y1 <= 4 && 0 <= x3 <= 4 && 0 <= y3 <= 3
    requires x3 <= x1 <= x3 + 1 && y3 <= y1 <= y3 + 1
    requires x1 + y1 + x3 + y3 <= e <= x1 + y1 + x3 + y3 + 2 && e <= 16
    requires Run(c, 0, 2, 16, e) && OddClasses(c, x1, y1, x3, y3)
    ensures Sorted(BitLess, FinalAdjacent(BitLess, OddStride2(BitLess, Residue3(BitLess, Residue1(BitLess, c))))[..Wires])
  {
    OddPhaseRuns(c, x1, y1, x3, y3, e);
    FinalAdjacentSorts(OddStride2(BitLess, Residue3(BitLess, Residue1(BitLess, c))), e, x1 + y1 + x3 + y3);
  }

  /** Balanced sorted classes of wires come out of the merge sorted. */
  lemma MergeSortsClasses(b: seq<Bit>, x0: int, x1: int, x2: int, x3: int, y0: int, y1: int, y2: int, y3: int)
    requires |b| >= Wires
    requires 0 <= x0 <= 4 && 0 <= x1 <= 4 && 0 <= x2 <= 4 && 0 <= x3 <= 4
    requires 0 <= y0 <= 4 && 0 <= y1 <= 4 && 0 <= y2 <= 4 && 0 <= y3 <= 3
    requires x2 <= x0 <= x2 + 1 && x3 <= x1 <= x3 + 1 && x1 + x3 <= x0 + x2 <= x1 + x3 + 1
    requires y2 <= y0 <= y2 + 1 && y3 <= y1 <= y3 + 1 && y1 + y3 <= y0 + y2 <= y1 + y3 + 1
    requires Run(b, 0, 4, 4, x0) && Run(b, 16, 4, 4, y0) && Run(b, 2, 4, 4, x2) && Run(b, 18, 4, 4, y2)
    requires OddClasses(b, x1, y1, x3, y3)
    ensures Sorted(BitLess, Merge(BitLess, b)[..Wires])
  {
    EvenPhaseRuns(b, x0, x1, x2, x3, y0, y1, y2, y3);
    OddPhaseSorts(EvenStride2(BitLess, Residue2(BitLess, Residue0(BitLess, b))), x1, y1, x3, y3, x0 + y0 + x2 + y2);
  }

  /** The 0-1 case of the merge: two sorted halves of bits come out sorted. */
  lemma MergeSortsBits(b: seq<Bit>)
    requires |b| >= Wires && Sorted(BitLess, b[..16]) && Sorted(BitLess, b[16..Wires])
    ensures Sorted(BitLess, Merge(BitLess, b)[..Wires])
  {
    var x0, x1, x2, x3, y0, y1, y2, y3 := HalvesClassRuns(b);
    MergeSortsClasses(b, x0, x1, x2, x3, y0, y1, y2, y3);
  }
}
