/** The worked examples in the comments of buddy.c: the 32-page pool in
    which pages 0x14-0x17 and 0x1c end up allocated (lines 86-122, 394-399
    and 430-441), and the split and merge examples of `alloc_pages` and
    `free_pages` (lines 167-191 and 351-358). Each step is one call, stated
    with the exact allocator state it produces. */
module Scenario {
  import opened PowerOfTwo
  import opened FreeList
  import opened BuddyAllocator

  const S0: Allocator := Allocator([[], [], [], [], [0, 16]], 0, 32)
  const S1: Allocator := Allocator([[], [], [], [], [16]], 16, 16)
  const S2: Allocator := Allocator([[], [], [20], [24], []], 20, 12)
  const S3: Allocator := Allocator([[], [], [], [24], []], 24, 8)
  const S4: Allocator := Allocator([[], [], [28], [], []], 28, 4)
  const S5: Allocator := Allocator([[29], [30], [], [], []], 29, 3)
  const S6: Allocator := Allocator([[29], [30], [16], [], []], 25, 7)
  const S7: Allocator := Allocator([[29], [30], [16, 24], [], []], 21, 11)
  const S8: Allocator := Allocator([[29], [30], [16, 24], [], [0]], 5, 27)

  /** `init_buddy(5)` queues the two order-4 chunks 0x00 and 0x10. */
  lemma InitFive()
    ensures Init(5) == Success(S0)
  {
    Pow2Small();
    var s := Init(5).value;
    assert s.lists[4] == [0, 16];
    assert s.lists == S0.lists;
  }

  /** `alloc_pages(4)` takes 0x00 from the head of list 4. */
  lemma AllocFour()
    ensures S0.free == FreePages(S0.lists)
    ensures Alloc(S0, 4) == Success(Grant(0, S1))
  {
    Pow2Small();
    assert FirstNonEmpty(S0.lists, 4) == 4;
    var g := Alloc(S0, 4).value;
    assert g.next.lists == S1.lists;
  }

  /** `alloc_pages(2)` finds lists 2 and 3 empty, splits 0x10:4 into
      0x10:2, 0x14:2 and 0x18:3, and hands out 0x10. */
  lemma AllocTwoSplits()
    ensures S1.free == FreePages(S1.lists)
    ensures Alloc(S1, 2) == Success(Grant(16, S2))
  {
    Pow2Small();
    assert FirstNonEmpty(S1.lists, 2) == 4;
    var g := Alloc(S1, 2).value;
    assert g.next.lists[2] == [20] && g.next.lists[3] == [24] && g.next.lists[4] == [];
    assert g.next.lists == S2.lists;
  }

  /** The next `alloc_pages(2)` takes the queued 0x14. */
  lemma AllocTwoQueued()
    ensures S2.free == FreePages(S2.lists)
    ensures Alloc(S2, 2) == Success(Grant(20, S3))
  {
    Pow2Small();
    assert FirstNonEmpty(S2.lists, 2) == 2;
    var g := Alloc(S2, 2).value;
    assert g.next.lists == S3.lists;
  }

  /** A third `alloc_pages(2)` splits 0x18:3 and hands out 0x18. */
  lemma AllocTwoAgain()
    ensures S3.free == FreePages(S3.lists)
    ensures Alloc(S3, 2) == Success(Grant(24, S4))
  {
    Pow2Small();
    assert FirstNonEmpty(S3.lists, 2) == 3;
    var g := Alloc(S3, 2).value;
    assert g.next.lists[2] == [28] && g.next.lists[3] == [];
    assert g.next.lists == S4.lists;
  }

  /** `alloc_pages(0)` splits 0x1c:2 into 0x1c:0, 0x1d:0 and 0x1e:1. */
  lemma AllocZero()
    ensures S4.free == FreePages(S4.lists)
    ensures Alloc(S4, 0) == Success(Grant(28, S5))
  {
    Pow2Small();
    assert FirstNonEmpty(S4.lists, 0) == 2;
    var g := Alloc(S4, 0).value;
    assert g.next.lists[0] == [29] && g.next.lists[1] == [30] && g.next.lists[2] == [];
    assert g.next.lists == S5.lists;
  }

  /** `free_pages(0x10, 2)`: the buddy 0x14 is allocated, so 0x10:2 is
      queued as it is. */
  lemma FreeSixteen()
    ensures Free(S5, 16, 2) == S6
  {
    Pow2Small();
    assert BuddyOf(16, 2) == 20;
    assert Merge(S5.lists, 16, 2) == Carried(S5.lists, 16, 2);
    assert S5.lists[2] + [16] == [16];
    assert Free(S5, 16, 2).lists == S5.lists[2 := [16]];
  }

  /** `free_pages(0x18, 2)`: the buddy 0x1c is allocated, so 0x18:2 is
      queued behind 0x10. */
  lemma FreeTwentyFour()
    ensures Free(S6, 24, 2) == S7
  {
    Pow2Small();
    assert BuddyOf(24, 2) == 28;
    assert Merge(S6.lists, 24, 2) == Carried(S6.lists, 24, 2);
    assert S6.lists[2] + [24] == [16, 24];
    assert Free(S6, 24, 2).lists == S6.lists[2 := [16, 24]];
  }

  /** `free_pages(0x00, 4)`: order 4 is MAX_ORDER, so the chunk is queued
      without looking for a buddy, giving the state of the example: 27
      free pages, 0x1d:0, 0x1e:1, 0x10:2, 0x18:2 and 0x00:4. */
  lemma FreeZero()
    ensures Free(S7, 0, 4) == S8
    ensures S8.free == FreePages(S8.lists) && S8.inUse + S8.free == 32
  {
    Pow2Small();
    assert Merge(S7.lists, 0, 4) == Carried(S7.lists, 0, 4);
    assert S7.lists[4] + [0] == [0];
    assert Free(S7, 0, 4).lists == S7.lists[4 := [0]];
  }

  /** The unusable indexes of the example state: UI(0) = 0, UI(1) = 1/27,
      UI(2) = 3/27, UI(3) = 11/27, and UI(5) = 27/27 counts every page. */
  lemma ExampleUnusable()
    ensures UnusableIndex(S8, 0) == Ratio(0, 27)
    ensures UnusableIndex(S8, 1) == Ratio(1, 27)
    ensures UnusableIndex(S8, 2) == Ratio(3, 27)
    ensures UnusableIndex(S8, 3) == Ratio(11, 27)
    ensures UnusableIndex(S8, 5) == Ratio(27, 27)
  {
    Pow2Small();
  }

  /** From the example state `alloc_pages(2)` returns 0x10, not 0x18: the
      lists are first in, first out. */
  lemma ExampleFifo()
    ensures Alloc(S8, 2) == Success(Grant(16, Allocator([[29], [30], [24], [], [0]], 9, 23)))
  {
    Pow2Small();
    FreeZero();
    assert FirstNonEmpty(S8.lists, 2) == 2;
    var g := Alloc(S8, 2).value;
    assert g.next.lists == [[29], [30], [24], [], [0]];
  }

  /** The split example of `alloc_pages` (buddy.c:171-191): in a fresh
      16-page pool, `alloc_pages(2)` splits 0x0:4 into 0x0:3 + 0x8:3 and
      0x0:3 into 0x0:2 + 0x4:2, queues 0x8:3 and 0x4:2 and hands out
      0x0. */
  lemma SplitExample()
    ensures Init(4) == Success(Allocator([[], [], [], [], [0]], 0, 16))
    ensures 16 == FreePages([[], [], [], [], [0]])
    ensures Alloc(Allocator([[], [], [], [], [0]], 0, 16), 2)
         == Success(Grant(0, Allocator([[], [], [4], [8], []], 4, 12)))
  {
    Pow2Small();
    var s := Init(4).value;
    assert s.lists[4] == [0];
    assert s.lists == [[], [], [], [], [0]];
    var s0 := Allocator([[], [], [], [], [0]], 0, 16);
    assert FirstNonEmpty(s0.lists, 2) == 4;
    var g := Alloc(s0, 2).value;
    assert g.next.lists[2] == [4] && g.next.lists[3] == [8] && g.next.lists[4] == [];
    assert g.next.lists == [[], [], [4], [8], []];
  }

  /** The merge example of `free_pages` (buddy.c:351-358): freeing the
      0x0:2 chunk handed out by the split example merges it with 0x4:2
      into 0x0:3, then with 0x8:3 into 0x0:4, and queues 0x0:4, which gives
      back the fresh pool. */
  lemma MergeExample()
    ensures Free(Allocator([[], [], [4], [8], []], 4, 12), 0, 2)
         == Allocator([[], [], [], [], [0]], 0, 16)
  {
    Pow2Small();
    var s := Allocator([[], [], [4], [8], []], 4, 12);
    assert BuddyOf(0, 2) == 4 && BuddyOf(0, 3) == 8;
    var l1 := s.lists[2 := Without(s.lists[2], 4)];
    assert Without([4], 4) == [];
    assert l1 == [[], [], [], [8], []];
    assert Without([8], 8) == [];
    var l2 := l1[3 := Without(l1[3], 8)];
    assert l2 == [[], [], [], [], []];
    assert Merge(l2, 0, 4) == Carried(l2, 0, 4);
    assert Merge(s.lists, 0, 2) == Carried(l2, 0, 4);
    assert l2[4] + [0] == [0];
    assert Free(s, 0, 2).lists == l2[4 := [0]];
  }

  /** `print_free_pages(2)` on the example state reports 0x10 then 0x18. */
  method ExamplePrint() returns (reported: seq<nat>)
    ensures reported == [16, 24]
  {
    var t;
    reported, t := PrintFreePages(S8, 2);
  }
}
