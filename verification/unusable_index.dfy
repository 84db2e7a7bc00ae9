/** The unusable index of `get_unusable_index` (buddy.c:444-456): the share
    of the free pages that sit in chunks too small to serve a request of a
    given order. The C function returns a double; here it is the ratio of
    two naturals. */
module Fragmentation {
  import opened PowerOfTwo
  import opened BuddyAllocator
  import opened BuddyInvariant

  /** The numerator as the C loop writes it: the sum over orders a below
      `k` of (number of order-a chunks) * 2^a. */
  function WeightedCount(lists: seq<seq<nat>>, k: nat): (r: nat)
    requires k <= |lists|
    ensures r == 0 <==> forall j | 0 <= j < k :: lists[j] == []
  {
    if k == 0 then 0 else WeightedCount(lists, k - 1) + |lists[k - 1]| * Pow2(k - 1)
  }

  /** The numerator of the unusable index is the C loop's weighted count. */
  lemma {:induction false} UnusableIsWeightedCount(lists: seq<seq<nat>>, k: nat)
    requires k <= |lists|
    ensures FreePagesBelow(lists, k) == WeightedCount(lists, k)
    decreases k
  {
    if k > 0 {
      UnusableIsWeightedCount(lists, k - 1);
      ListPagesCount(lists[k - 1], k - 1);
    }
  }

  /** The loop of `get_unusable_index`: 0 for order 0; otherwise add up
      count * 2^a over the orders below `order` and put the sum over the
      free page counter. */
  method UnusableLoop(s: Allocator, order: nat) returns (r: Ratio)
    requires WellFormed(s) && order <= NR_ORDERS
    ensures r == UnusableIndex(s, order)
    ensures r.num == WeightedCount(s.lists, order)
  {
    if order == 0 {
      return Ratio(0, s.free);
    }
    var sum := 0;
    for a := 0 to order
      invariant sum == FreePagesBelow(s.lists, a)
    {
      ListPagesCount(s.lists[a], a);
      sum := sum + |s.lists[a]| * Pow2(a);
    }
    UnusableIsWeightedCount(s.lists, order);
    r := Ratio(sum, s.free);
  }

  /** A larger order can only count more pages as unusable. */
  lemma UnusableMonotone(s: Allocator, a: nat, b: nat)
    requires WellFormed(s) && a <= b <= NR_ORDERS
    ensures UnusableIndex(s, a).num <= UnusableIndex(s, b).num
    ensures UnusableIndex(s, a).den == UnusableIndex(s, b).den
  {
    FreePagesBelowMonotone(s.lists, a, b);
  }

  /** With consistent counters the index lies in [0, 1], and past
      MAX_ORDER every free page is counted. */
  lemma UnusableAtMostOne(s: Allocator, order: nat)
    requires WellFormed(s) && s.free == FreePages(s.lists) && order <= NR_ORDERS
    ensures UnusableIndex(s, order).num <= UnusableIndex(s, order).den
    ensures UnusableIndex(s, NR_ORDERS).num == s.free
  {
    FreePagesBelowMonotone(s.lists, order, NR_ORDERS);
  }

  /** No free page is unusable at an order exactly when every list below
      that order is empty. */
  lemma {:induction false} UnusableZero(lists: seq<seq<nat>>, k: nat)
    requires k <= |lists|
    ensures FreePagesBelow(lists, k) == 0 <==> forall o | 0 <= o < k :: lists[o] == []
    decreases k
  {
    if k > 0 {
      UnusableZero(lists, k - 1);
      if lists[k - 1] != [] {
        assert ListPages(lists[k - 1], k - 1) >= Pow2(k - 1) >= 1;
      }
    }
  }
}
