/** `swap_if(x, y, compare)`: the compare-exchange element every sorting
    network of the library is built from. It exchanges `x` and `y` when
    `compare(y, x)` holds and leaves both alone otherwise. */
module CompareSwap {
  import opened Order

  /** The value `swap_if(x, y, less)` leaves in `x`. */
  function Lower<T>(less: (T, T) -> bool, x: T, y: T): T
  {
    if less(y, x) then y else x
  }

  /** The value `swap_if(x, y, less)` leaves in `y`. */
  function Upper<T>(less: (T, T) -> bool, x: T, y: T): T
  {
    if less(y, x) then x else y
  }

  /** The sequence after `swap_if(s[i], s[j], less)`. */
  function CompareExchange<T>(less: (T, T) -> bool, s: seq<T>, i: nat, j: nat): (r: seq<T>)
    requires i < |s| && j < |s|
    ensures |r| == |s|
  {
    s[i := Lower(less, s[i], s[j])][j := Upper(less, s[i], s[j])]
  }

  /** Taking `a` out of a multiset for `b` and then `b` out for `a` gives
      the multiset back. */
  lemma ReplaceAndRestore<T>(m: multiset<T>, a: T, b: T)
    requires a in m
    ensures m - multiset{a} + multiset{b} - multiset{b} + multiset{a} == m
  {
  }

  /** The exchange only permutes the sequence. */
  lemma CompareExchangePermutes<T>(less: (T, T) -> bool, s: seq<T>, i: nat, j: nat)
    requires i < |s| && j < |s|
    ensures multiset(CompareExchange(less, s, i, j)) == multiset(s)
  {
    var r := CompareExchange(less, s, i, j);
    if less(s[j], s[i]) && i != j {
      var t := s[i := s[j]];
      assert r == t[j := s[i]];
      assert t[j] == s[j];
      assert multiset(t) == multiset(s) - multiset{s[i]} + multiset{s[j]};
      assert multiset(r) == multiset(t) - multiset{s[j]} + multiset{s[i]};
      ReplaceAndRestore(multiset(s), s[i], s[j]);
    } else {
      assert r == s;
    }
  }

  /** No element other than the pair is touched. */
  lemma CompareExchangeFrame<T>(less: (T, T) -> bool, s: seq<T>, i: nat, j: nat)
    requires i < |s| && j < |s|
    ensures forall k :: 0 <= k < |s| && k != i && k != j ==> CompareExchange(less, s, i, j)[k] == s[k]
  {
  }

  /** After the exchange the pair is in order. */
  lemma CompareExchangeOrders<T(!new)>(less: (T, T) -> bool, s: seq<T>, i: nat, j: nat)
    requires StrictWeakOrder(less)
    requires i < |s| && j < |s| && i != j
    ensures !less(CompareExchange(less, s, i, j)[j], CompareExchange(less, s, i, j)[i])
  {
    if less(s[j], s[i]) {
      Asymmetric(less, s[j], s[i]);
    }
  }

  /** A pair already in order is left as it is, whatever the comparator. */
  lemma CompareExchangeInOrder<T>(less: (T, T) -> bool, s: seq<T>, i: nat, j: nat)
    requires i < |s| && j < |s| && !less(s[j], s[i])
    ensures CompareExchange(less, s, i, j) == s
  {
    assert CompareExchange(less, s, i, j) == s[i := s[i]][j := s[j]];
  }

  /** The exchange leaves the sequence unchanged exactly when the pair is
      already in order. */
  lemma CompareExchangeUnchangedIff<T(!new)>(less: (T, T) -> bool, s: seq<T>, i: nat, j: nat)
    requires StrictWeakOrder(less)
    requires i < |s| && j < |s| && i != j
    ensures CompareExchange(less, s, i, j) == s <==> !less(s[j], s[i])
  {
    if less(s[j], s[i]) {
      assert CompareExchange(less, s, i, j)[i] == s[j];
      assert s[j] != s[i];
    } else {
      CompareExchangeInOrder(less, s, i, j);
    }
  }

  /** Applying the same compare-exchange twice is the same as applying it once. */
  lemma CompareExchangeIdempotent<T(!new)>(less: (T, T) -> bool, s: seq<T>, i: nat, j: nat)
    requires StrictWeakOrder(less)
    requires i < |s| && j < |s| && i != j
    ensures CompareExchange(less, CompareExchange(less, s, i, j), i, j) == CompareExchange(less, s, i, j)
  {
    CompareExchangeOrders(less, s, i, j);
  }

  /** `swap_if` on the elements at `i` and `j` of `a`. */
  method SwapIf<T(!new)>(a: array<T>, i: nat, j: nat, less: (T, T) -> bool)
    requires i < a.Length && j < a.Length
    modifies a
    ensures a[..] == CompareExchange(less, old(a[..]), i, j)
  {
    if less(a[j], a[i]) {
      a[i], a[j] := a[j], a[i];
    }
  }
}
