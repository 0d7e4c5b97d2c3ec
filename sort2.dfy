/** `sorting_network_sorter_impl<2u>`: the sorting network for two elements,
    a single `swap_if` on the first two positions of the range. */
module SortTwo {
  import opened Order
  import opened CompareSwap

  /** Sorts `a[0]` and `a[1]` in place. The source never reads the end of the
      range, so the model has no parameter for it: the array only has to
      hold the two elements the network accesses. */
  method Sort2<T(!new)>(a: array<T>, less: (T, T) -> bool)
    requires a.Length >= 2 && StrictWeakOrder(less)
    modifies a
    ensures a[..] == CompareExchange(less, old(a[..]), 0, 1)
    ensures !less(a[1], a[0])
    ensures multiset(a[..2]) == multiset(old(a[..2]))
    ensures a[2..] == old(a[2..])
    ensures !less(old(a[1]), old(a[0])) ==> a[..] == old(a[..])
  {
    ghost var s := a[..];
    SwapIf(a, 0, 1, less);
    CompareExchangeOrders(less, s, 0, 1);
    CompareExchangePermutes(less, s, 0, 1);
    CompareExchangeFrame(less, s, 0, 1);
    assert a[2..] == s[2..];
    PermutesWithin(a[..], s, 0, 2);
    if !less(s[1], s[0]) {
      CompareExchangeInOrder(less, s, 0, 1);
    }
  }
}
