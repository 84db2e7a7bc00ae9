/** Freeing a chunk right after allocating it: the merge cascade of
    `free_pages` retraces the split cascade of `alloc_pages` and puts the
    whole chunk back, at the tail of the list it was taken from. */
module RoundTrip {
  import opened PowerOfTwo
  import opened FreeList
  import opened BuddyAllocator
  import opened BuddyInvariant

  /** None of the right halves x + 2^i of orders i in [j, k) is queued in
      list i. */
  predicate HalvesAbsent(lists: seq<seq<nat>>, x: nat, j: nat, k: nat)
    requires k <= |lists|
    decreases k - j
  {
    j >= k || (x + Pow2(j) !in lists[j] && HalvesAbsent(lists, x, j + 1, k))
  }

  /** Merging the order-j chunk at x when the halves of orders [j, k) are
      queued at the tails of their lists (and were not queued before)
      collects every half and ends with the order-k chunk at x, provided
      the order-k buddy of x is not free. */
  lemma {:induction false} MergeUndoesSplit(lists: seq<seq<nat>>, x: nat, j: nat, k: nat)
    requires |lists| == NR_ORDERS && j <= k <= MAX_ORDER && AlignedTo(x, k)
    requires HalvesAbsent(lists, x, j, k)
    requires k == MAX_ORDER || BuddyOf(x, k) !in lists[k]
    ensures Merge(Split(lists, x, k, j), x, j) == Carried(lists, x, k)
    decreases k - j
  {
    if j == k {
      SplitNothing(lists, x, k);
    } else {
      UndoOneHalf(lists, x, j, k);
      MergeUndoesSplit(lists, x, j + 1, k);
    }
  }

  /** One merge of the cascade takes back the order-j half that the split
      queued at the tail of list j. */
  lemma UndoOneHalf(lists: seq<seq<nat>>, x: nat, j: nat, k: nat)
    requires |lists| == NR_ORDERS && j < k <= MAX_ORDER && AlignedTo(x, k)
    requires x + Pow2(j) !in lists[j]
    ensures Merge(Split(lists, x, k, j), x, j) == Merge(Split(lists, x, k, j + 1), x, j + 1)
  {
    var S := Split(lists, x, k, j);
    var h := x + Pow2(j);
    AlignedDown(x, j + 1, k);
    assert BuddyOf(x, j) == h;
    WithoutUnique(lists[j], [], h);
    assert lists[j] + [h] + [] == S[j] && lists[j] + [] == lists[j];
    assert S[j := Without(S[j], h)] == Split(lists, x, k, j + 1);
  }

  /** What a successful `alloc_pages` relies on to be undone: the chunk it
      took is aligned, none of the halves it queued was free before, and
      the taken chunk's own buddy is not free. */
  lemma TakenChunk(s: Allocator, n: nat, o: nat, k: nat)
    requires Inv(s, n) && o <= k <= MAX_ORDER && s.lists[k] != []
    ensures var x := s.lists[k][0];
            var popped := s.lists[k := s.lists[k][1..]];
            && AlignedTo(x, k)
            && HalvesAbsent(popped, x, o, k)
            && (k == MAX_ORDER || BuddyOf(x, k) !in popped[k])
  {
    var x := s.lists[k][0];
    var popped := s.lists[k := s.lists[k][1..]];
    assert IsFree(s.lists, Chunk(x, k));
    HalvesNotFree(s.lists, x, o, k);
    if k < MAX_ORDER {
      BuddyNotQueued(s.lists, x, k);
      assert forall y | y in popped[k] :: y in s.lists[k];
    }
  }

  /** A free chunk's buddy is not queued in the same list. */
  lemma BuddyNotQueued(lists: seq<seq<nat>>, x: nat, k: nat)
    requires NoFreeBuddies(lists) && k < MAX_ORDER && k < |lists| && x in lists[k]
    ensures forall y | y in lists[k] :: y != BuddyOf(x, k)
  {
    forall y | y in lists[k]
      ensures y != BuddyOf(x, k)
    {
      assert IsFree(lists, Chunk(x, k)) && IsFree(lists, Chunk(y, k));
    }
  }

  /** The halves carved from a free chunk were not free themselves, and
      popping list k leaves the lists below k as they were. */
  lemma {:induction false} HalvesNotFree(lists: seq<seq<nat>>, x: nat, j: nat, k: nat)
    requires Disjoint(lists) && IsFree(lists, Chunk(x, k)) && AlignedTo(x, k) && j <= k
    requires lists[k] != []
    ensures HalvesAbsent(lists[k := lists[k][1..]], x, j, k)
    decreases k - j
  {
    if j < k {
      HalfNotFree(lists, x, j, k);
      HalvesNotFree(lists, x, j + 1, k);
    }
  }

  /** `free_pages(page, o)` right after `alloc_pages(o)` returned `page`
      restores both counters and every free list, except that the chunk
      taken from list k is queued again at that list's tail rather than at
      its head. */
  lemma AllocThenFree(s: Allocator, n: nat, o: nat)
    requires Inv(s, n) && Alloc(s, o).Success?
    ensures var g := Alloc(s, o).value;
            var k := FirstNonEmpty(s.lists, o);
            var t := Free(g.next, g.page, o);
            && k < NR_ORDERS && s.lists[k] != []
            && t.inUse == s.inUse && t.free == s.free
            && t.lists == s.lists[k := s.lists[k][1..] + [s.lists[k][0]]]
  {
    var g := Alloc(s, o).value;
    var k := FirstNonEmpty(s.lists, o);
    var x := g.page;
    var popped := s.lists[k := s.lists[k][1..]];
    assert g.next.lists == Split(popped, x, k, o);
    TakenChunk(s, n, o, k);
    MergeUndoesSplit(popped, x, o, k);
  }

  /** Rotating the head of a queue to its tail keeps its entries. */
  lemma RotateKeeps(q: seq<nat>)
    requires q != []
    ensures multiset(q[1..] + [q[0]]) == multiset(q)
  {
    assert q == [q[0]] + q[1..];
  }

  /** Hence after allocating and freeing the same chunk every order holds
      the same free chunks as before. */
  lemma AllocThenFreeSameChunks(s: Allocator, n: nat, o: nat)
    requires Inv(s, n) && Alloc(s, o).Success?
    ensures var g := Alloc(s, o).value;
            var t := Free(g.next, g.page, o);
            && |t.lists| == |s.lists|
            && forall j | 0 <= j < |s.lists| :: multiset(t.lists[j]) == multiset(s.lists[j])
  {
    AllocThenFree(s, n, o);
    var k := FirstNonEmpty(s.lists, o);
    RotateKeeps(s.lists[k]);
  }
}
