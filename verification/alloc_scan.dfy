/** How `alloc_pages` (buddy.c:199-238) picks the list to take a chunk from,
    as the C code writes it, next to the pick the rest of this model uses
    (`FirstNonEmpty` inside `Alloc`). The C search scans orders
    order+1 .. MAX_ORDER-1 only and then, unless `free` is 0, takes the head
    of list MAX_ORDER without checking that this list holds a chunk. */
module AllocScan {
  import opened PowerOfTwo
  import opened BuddyAllocator

  /** The decision the C code reaches before touching any list: refuse with
      an error, or pop the head of list `k`. */
  datatype Pick = Refuse(error: Error) | PopFrom(k: nat)

  /** The scan over orders order+1 up to MAX_ORDER-1
      (buddy.c:231-235): the first non-empty order in [b, MAX_ORDER), or
      MAX_ORDER when there is none, whether list MAX_ORDER is empty or not. */
  function Scan(lists: seq<seq<nat>>, b: nat): (r: nat)
    requires |lists| == NR_ORDERS && b <= MAX_ORDER
    ensures b <= r <= MAX_ORDER
    ensures forall j | b <= j < r :: lists[j] == []
    ensures r < MAX_ORDER ==> lists[r] != []
    decreases MAX_ORDER - b
  {
    if b == MAX_ORDER || lists[b] != [] then b else Scan(lists, b + 1)
  }

  /** The pick of `alloc_pages` as written (buddy.c:199-238). */
  function SourcePick(s: Allocator, order: nat): (p: Pick)
    requires WellFormed(s)
    ensures p == Refuse(InvalidOrder) <==> order > MAX_ORDER
    ensures p.PopFrom? ==> order <= p.k <= MAX_ORDER
  {
    if order > MAX_ORDER then Refuse(InvalidOrder)
    else if s.lists[order] != [] then PopFrom(order)
    else if order == MAX_ORDER then Refuse(OutOfMemory)
    else if order + 1 == MAX_ORDER then
      (if s.lists[MAX_ORDER] != [] then PopFrom(MAX_ORDER) else Refuse(OutOfMemory))
    else
      var b := Scan(s.lists, order + 1);
      if s.free == 0 then Refuse(OutOfMemory) else PopFrom(b)
  }

  /** The pick with the missing check added: when the scan ends at an empty
      list, refuse with ENOMEM. */
  function CorrectedPick(s: Allocator, order: nat): (p: Pick)
    requires WellFormed(s)
    ensures p.PopFrom? ==> p.k <= MAX_ORDER && s.lists[p.k] != []
  {
    match SourcePick(s, order)
    case PopFrom(k) => if s.lists[k] == [] then Refuse(OutOfMemory) else PopFrom(k)
    case Refuse(e) => Refuse(e)
  }

  /** The C pick goes wrong in exactly one way: it pops the empty list
      MAX_ORDER when every list from `order` up is empty but `free` is not
      0, which holds whenever smaller chunks are still free. */
  lemma SourcePopsEmptyExactly(s: Allocator, order: nat)
    requires WellFormed(s)
    ensures (SourcePick(s, order).PopFrom? && s.lists[SourcePick(s, order).k] == [])
        <==> (order + 1 < MAX_ORDER && s.free != 0
              && forall j | order <= j < NR_ORDERS :: s.lists[j] == [])
  {
    if order + 1 < MAX_ORDER && s.lists[order] == [] {
      var b := Scan(s.lists, order + 1);
      if b == MAX_ORDER && s.lists[MAX_ORDER] == [] {
        assert forall j | order <= j < NR_ORDERS :: s.lists[j] == [];
      }
    }
  }

  /** The corrected pick is the pick of `Alloc`: the same error for a bad
      order, ENOMEM exactly when `Alloc` runs out of memory, and otherwise
      the list `Alloc` takes from. */
  lemma CorrectedPickIsAlloc(s: Allocator, order: nat)
    requires WellFormed(s) && s.free == FreePages(s.lists)
    ensures CorrectedPick(s, order) == Refuse(InvalidOrder) <==> Alloc(s, order) == Failure(InvalidOrder)
    ensures CorrectedPick(s, order) == Refuse(OutOfMemory) <==> Alloc(s, order) == Failure(OutOfMemory)
    ensures CorrectedPick(s, order).PopFrom? <==> Alloc(s, order).Success?
    ensures CorrectedPick(s, order).PopFrom? ==> CorrectedPick(s, order).k == FirstNonEmpty(s.lists, order)
  {
    if order <= MAX_ORDER {
      var k := FirstNonEmpty(s.lists, order);
      if s.lists[order] == [] && order + 1 < MAX_ORDER {
        var b := Scan(s.lists, order + 1);
        if s.free == 0 {
          EmptyWhenNoFreePages(s.lists, NR_ORDERS);
        }
        if s.lists[b] != [] {
          assert b == k;
        }
      }
    }
  }

  /** No free pages means every list is empty. */
  lemma {:induction false} EmptyWhenNoFreePages(lists: seq<seq<nat>>, k: nat)
    requires k <= |lists| && FreePagesBelow(lists, k) == 0
    ensures forall j | 0 <= j < k :: lists[j] == []
    decreases k
  {
    if k > 0 {
      EmptyWhenNoFreePages(lists, k - 1);
    }
  }

  /** A state that `alloc_pages` itself reaches from `init_buddy(4)` by
      allocating orders 0, 3, 2 and 1: one free page, at 0x1. */
  const Stuck: Allocator := Allocator([[1], [], [], [], []], 15, 1)

  /** Page totals of the states on the way to `Stuck`. */
  lemma StuckPages()
    ensures FreePages([[], [], [], [], [0]]) == 16
    ensures FreePages([[1], [2], [4], [8], []]) == 15
    ensures FreePages([[1], [2], [4], [], []]) == 7
    ensures FreePages([[1], [2], [], [], []]) == 3
    ensures FreePages(Stuck.lists) == 1
  {
    Pow2Small();
    var z: seq<seq<nat>> := [[], [], [], [], [0]];
    assert FreePagesBelow(z, 2) == 0 && FreePagesBelow(z, 4) == 0 && ListPages(z[4], 4) == 16;
    var l := [[1], [2], [4], [8], []];
    assert FreePagesBelow(l, 1) == 1 && FreePagesBelow(l, 2) == 3;
    assert FreePagesBelow(l, 3) == 7 && FreePagesBelow(l, 4) == 15;
    var m := [[1], [2], [4], [], []];
    assert FreePagesBelow(m, 1) == 1 && FreePagesBelow(m, 2) == 3 && FreePagesBelow(m, 3) == 7;
    assert FreePagesBelow(m, 4) == 7;
    var p := [[1], [2], [], [], []];
    assert FreePagesBelow(p, 2) == 3 && FreePagesBelow(p, 3) == 3 && FreePagesBelow(p, 4) == 3;
    assert FreePagesBelow(Stuck.lists, 2) == 1 && FreePagesBelow(Stuck.lists, 4) == 1;
  }

  /** The allocations that lead to `Stuck`. */
  lemma ReachStuck()
    ensures Init(4) == Success(Allocator([[], [], [], [], [0]], 0, 16))
    ensures var s0 := Allocator([[], [], [], [], [0]], 0, 16);
            && s0.free == FreePages(s0.lists)
            && Alloc(s0, 0) == Success(Grant(0, Allocator([[1], [2], [4], [8], []], 1, 15)))
  {
    Pow2Small();
    var s := Init(4).value;
    assert s.lists[4] == [0];
    assert s.lists == [[], [], [], [], [0]];
    var s0 := Allocator([[], [], [], [], [0]], 0, 16);
    StuckPages();
    assert FirstNonEmpty(s0.lists, 0) == 4;
    var g := Alloc(s0, 0).value;
    assert g.next.lists[0] == [1] && g.next.lists[1] == [2] && g.next.lists[2] == [4];
    assert g.next.lists[3] == [8] && g.next.lists[4] == [];
    assert g.next.lists == [[1], [2], [4], [8], []];
  }

  lemma ReachStuckRest()
    ensures var s1 := Allocator([[1], [2], [4], [8], []], 1, 15);
            && s1.free == FreePages(s1.lists)
            && Alloc(s1, 3) == Success(Grant(8, Allocator([[1], [2], [4], [], []], 9, 7)))
    ensures var s2 := Allocator([[1], [2], [4], [], []], 9, 7);
            && s2.free == FreePages(s2.lists)
            && Alloc(s2, 2) == Success(Grant(4, Allocator([[1], [2], [], [], []], 13, 3)))
    ensures var s3 := Allocator([[1], [2], [], [], []], 13, 3);
            && s3.free == FreePages(s3.lists)
            && Alloc(s3, 1) == Success(Grant(2, Stuck))
  {
    Pow2Small();
    StuckPages();
    var s1 := Allocator([[1], [2], [4], [8], []], 1, 15);
    assert FirstNonEmpty(s1.lists, 3) == 3;
    assert Alloc(s1, 3).value.next.lists == [[1], [2], [4], [], []];
    var s2 := Allocator([[1], [2], [4], [], []], 9, 7);
    assert FirstNonEmpty(s2.lists, 2) == 2;
    assert Alloc(s2, 2).value.next.lists == [[1], [2], [], [], []];
    var s3 := Allocator([[1], [2], [], [], []], 13, 3);
    assert FirstNonEmpty(s3.lists, 1) == 1;
    assert Alloc(s3, 1).value.next.lists == Stuck.lists;
  }

  /** In `Stuck`, `alloc_pages(1)` as written pops the empty list 4 (a
      null dereference in the C code), while `Alloc` reports ENOMEM. */
  lemma StuckPopsEmptyList()
    ensures Stuck.free == FreePages(Stuck.lists)
    ensures SourcePick(Stuck, 1) == PopFrom(4) && Stuck.lists[4] == []
    ensures CorrectedPick(Stuck, 1) == Refuse(OutOfMemory)
    ensures Alloc(Stuck, 1) == Failure(OutOfMemory)
  {
    Pow2Small();
    StuckPages();
    assert Scan(Stuck.lists, 2) == 4;
    assert FirstNonEmpty(Stuck.lists, 1) == NR_ORDERS;
  }
}
