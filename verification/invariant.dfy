/** The allocator's invariants over a pool of 2^n pages and their
    preservation by `init_buddy`, `alloc_pages` and `free_pages`:
    every free chunk is aligned to its order and lies inside the pool, no
    two free chunks share a page, no list queues a page twice, no two
    buddies below MAX_ORDER are free at once, `free` equals the pages the
    lists hold, and `allocated + free` equals the pool size. */
module BuddyInvariant {
  import opened PowerOfTwo
  import opened FreeList
  import opened BuddyAllocator

  /** An order-`order` chunk: the pages [start, start + 2^order). */
  datatype Chunk = Chunk(start: nat, order: nat)

  /** The two chunks share at least one page. */
  predicate Overlap(c: Chunk, d: Chunk)
  {
    c.start < d.start + Pow2(d.order) && d.start < c.start + Pow2(c.order)
  }

  /** The chunk is queued in the free list of its order. */
  predicate IsFree(lists: seq<seq<nat>>, c: Chunk)
  {
    c.order < |lists| && c.start in lists[c.order]
  }

  ghost predicate Distinct(lists: seq<seq<nat>>)
  {
    forall o | 0 <= o < |lists| :: NoDup(lists[o])
  }

  ghost predicate Aligned(lists: seq<seq<nat>>)
  {
    forall c | IsFree(lists, c) :: AlignedTo(c.start, c.order)
  }

  ghost predicate InPool(lists: seq<seq<nat>>, n: nat)
  {
    forall c | IsFree(lists, c) :: c.start + Pow2(c.order) <= Pow2(n)
  }

  ghost predicate Disjoint(lists: seq<seq<nat>>)
  {
    forall c, d | IsFree(lists, c) && IsFree(lists, d) && c != d :: !Overlap(c, d)
  }

  /** Below MAX_ORDER, a free chunk's buddy is never free as well: the two
      would have been merged by `free_pages`. */
  ghost predicate NoFreeBuddies(lists: seq<seq<nat>>)
  {
    forall c, d | IsFree(lists, c) && IsFree(lists, d) && c.order == d.order < MAX_ORDER ::
      d.start != BuddyOf(c.start, c.order)
  }

  ghost predicate ListsOk(lists: seq<seq<nat>>, n: nat)
  {
    && |lists| == NR_ORDERS
    && Distinct(lists)
    && Aligned(lists)
    && InPool(lists, n)
    && Disjoint(lists)
    && NoFreeBuddies(lists)
  }

  /** The allocator invariant for a pool of 2^n pages. */
  ghost predicate Inv(s: Allocator, n: nat)
  {
    && WellFormed(s)
    && ListsOk(s.lists, n)
    && s.free == FreePages(s.lists)
    && s.inUse + s.free == Pow2(n)
  }

  /** The caller's side of `free_pages`: the chunk was handed out by
      `alloc_pages` and not yet returned, so it is aligned, inside the pool,
      shares no page with a free chunk, and is counted in `allocated`. */
  ghost predicate Outstanding(s: Allocator, n: nat, page: nat, order: nat)
  {
    && order <= MAX_ORDER
    && AlignedTo(page, order)
    && page + Pow2(order) <= Pow2(n)
    && (forall d | IsFree(s.lists, d) :: !Overlap(Chunk(page, order), d))
    && s.inUse >= Pow2(order)
  }

  // ---------------------------------------------------------------------
  // Buddies

  /** The buddy formula of `free_pages` pairs aligned chunks: the buddy of
      an aligned chunk is an aligned chunk of the same order 2^j pages
      away, the lower of the two starts an order-(j+1) block, and the
      buddy's buddy is the chunk itself. */
  lemma BuddyPair(x: nat, j: nat)
    requires AlignedTo(x, j)
    ensures BuddyOf(x, j) >= 0
    ensures var y := BuddyOf(x, j) as nat;
            && AlignedTo(y, j)
            && BuddyOf(y, j) == x
            && (x % Pow2(j + 1) == 0 ==> y == x + Pow2(j))
            && (x % Pow2(j + 1) != 0 ==> x == y + Pow2(j) && AlignedTo(y, j + 1))
  {
    AlignedHalves(x, j);
    if x % Pow2(j + 1) == 0 {
      RightHalf(x, j);
    } else {
      LeftOfRight(x, j);
      AlignedDown(x - Pow2(j), j, j + 1);
    }
  }

  // ---------------------------------------------------------------------
  // Page counting

  lemma {:induction false} ListPagesAppend(q: seq<nat>, x: nat, k: nat)
    ensures ListPages(q + [x], k) == ListPages(q, k) + Pow2(k)
    decreases |q|
  {
    if q != [] {
      assert (q + [x])[1..] == q[1..] + [x];
      ListPagesAppend(q[1..], x, k);
    }
  }

  lemma {:induction false} ListPagesLength(a: seq<nat>, b: seq<nat>, k: nat)
    requires |a| == |b|
    ensures ListPages(a, k) == ListPages(b, k)
    decreases |a|
  {
    if a != [] {
      ListPagesLength(a[1..], b[1..], k);
    }
  }

  /** A list of `count` order-k chunks holds count * 2^k pages. */
  lemma {:induction false} ListPagesCount(q: seq<nat>, k: nat)
    ensures ListPages(q, k) == |q| * Pow2(k)
    decreases |q|
  {
    if q != [] {
      ListPagesCount(q[1..], k);
    }
  }

  lemma {:induction false} FreePagesBelowUpdate(lists: seq<seq<nat>>, j: nat, l: seq<nat>, k: nat)
    requires j < |lists| && k <= |lists|
    ensures FreePagesBelow(lists[j := l], k) + (if j < k then ListPages(lists[j], j) else 0)
         == FreePagesBelow(lists, k) + (if j < k then ListPages(l, j) else 0)
    decreases k
  {
    if k > 0 {
      FreePagesBelowUpdate(lists, j, l, k - 1);
    }
  }

  /** Replacing one list changes the page total by the difference of the
      two lists' pages. */
  lemma FreePagesUpdate(lists: seq<seq<nat>>, j: nat, l: seq<nat>)
    requires j < |lists|
    ensures FreePages(lists[j := l]) + ListPages(lists[j], j) == FreePages(lists) + ListPages(l, j)
  {
    FreePagesBelowUpdate(lists, j, l, |lists|);
  }

  /** Appending a chunk to list j adds 2^j pages. */
  lemma FreePagesPush(lists: seq<seq<nat>>, j: nat, x: nat)
    requires j < |lists|
    ensures FreePages(lists[j := lists[j] + [x]]) == FreePages(lists) + Pow2(j)
  {
    FreePagesUpdate(lists, j, lists[j] + [x]);
    ListPagesAppend(lists[j], x, j);
  }

  /** Taking a queued chunk out of a duplicate-free list j removes 2^j pages. */
  lemma FreePagesTake(lists: seq<seq<nat>>, j: nat, l: seq<nat>)
    requires j < |lists| && lists[j] != [] && |l| == |lists[j]| - 1
    ensures FreePages(lists[j := l]) + Pow2(j) == FreePages(lists)
  {
    FreePagesUpdate(lists, j, l);
    ListPagesLength(l, lists[j][1..], j);
  }

  /** The split cascade adds the halves' pages: 2^i - 2^o of them. */
  lemma {:induction false} SplitPages(lists: seq<seq<nat>>, x: nat, i: nat, o: nat)
    requires o <= i <= |lists|
    ensures FreePages(Split(lists, x, i, o)) + Pow2(o) == FreePages(lists) + Pow2(i)
    decreases i - o
  {
    if i > o {
      SplitPagesStep(lists, x, i, o);
      SplitPages(lists, x, i - 1, o);
      AddHalf(FreePages(Split(lists, x, i, o)), FreePages(Split(lists, x, i - 1, o)),
              FreePages(lists), Pow2(i - 1), Pow2(o), Pow2(i));
    } else {
      SplitNothing(lists, x, i);
    }
  }

  /** A split that starts at the order it stops at queues nothing. */
  lemma SplitNothing(lists: seq<seq<nat>>, x: nat, i: nat)
    requires i <= |lists|
    ensures Split(lists, x, i, i) == lists
  {
    assert forall j | 0 <= j < |lists| :: Split(lists, x, i, i)[j] == lists[j];
  }

  /** Each step of the split cascade queues one order-(i-1) half. */
  lemma SplitPagesStep(lists: seq<seq<nat>>, x: nat, i: nat, o: nat)
    requires o < i <= |lists|
    ensures FreePages(Split(lists, x, i, o)) == FreePages(Split(lists, x, i - 1, o)) + Pow2(i - 1)
  {
    var r := Split(lists, x, i - 1, o);
    FreePagesPush(r, i - 1, x + Pow2(i - 1));
    SplitUnfold(lists, x, i, o);
  }

  /** The page arithmetic of one split: a total that grew by half of a
      chunk of size `whole`. */
  lemma AddHalf(after: int, before: int, orig: int, half: int, small: int, whole: int)
    requires after == before + half && before + small == orig + half && whole == half + half
    ensures after + small == orig + whole
  {
  }

  /** Splitting down from order i queues the order-(i-1) half on top of
      splitting down from order i-1. */
  lemma SplitUnfold(lists: seq<seq<nat>>, x: nat, i: nat, o: nat)
    requires o < i <= |lists|
    ensures var r := Split(lists, x, i - 1, o);
            Split(lists, x, i, o) == r[i - 1 := r[i - 1] + [x + Pow2(i - 1)]]
  {
    var r := Split(lists, x, i - 1, o);
    var u := r[i - 1 := r[i - 1] + [x + Pow2(i - 1)]];
    var t := Split(lists, x, i, o);
    forall j | 0 <= j < |lists|
      ensures t[j] == u[j]
    {
    }
  }

  // ---------------------------------------------------------------------
  // Dropping free chunks

  /** Lists that hold a subset of the free chunks of good lists, without
      duplicates, are good. */
  lemma SubsetOk(lists: seq<seq<nat>>, sub: seq<seq<nat>>, n: nat)
    requires ListsOk(lists, n)
    requires |sub| == NR_ORDERS && Distinct(sub)
    requires forall c | IsFree(sub, c) :: IsFree(lists, c)
    ensures ListsOk(sub, n)
  {
  }

  // ---------------------------------------------------------------------
  // alloc_pages

  /** The chunk is one of the right halves that serving an order-`order`
      request from the order-k chunk at x queues. */
  predicate IsHalf(c: Chunk, x: nat, k: nat, order: nat)
  {
    order <= c.order < k && c.start == x + Pow2(c.order)
  }

  /** The free chunks of `after` are those of `before` except the order-k
      chunk at x, plus the right halves carved from it. */
  ghost predicate CarvedFree(before: seq<seq<nat>>, after: seq<seq<nat>>, x: nat, k: nat, order: nat)
  {
    forall c :: IsFree(after, c) <==> (IsFree(before, c) && c != Chunk(x, k)) || IsHalf(c, x, k, order)
  }

  /** A successful allocation from list k at page x leaves exactly the old
      free chunks except (x, k), plus the right halves. */
  lemma CarvedFreeChunks(s: Allocator, k: nat, order: nat, g: Grant)
    requires WellFormed(s) && k < NR_ORDERS && NoDup(s.lists[k])
    requires Carved(s, k, order, g)
    ensures CarvedFree(s.lists, g.next.lists, g.page, k, order)
  {
    NoDupPop(s.lists[k]);
    forall c
      ensures IsFree(g.next.lists, c) <==> (IsFree(s.lists, c) && c != Chunk(g.page, k)) || IsHalf(c, g.page, k, order)
    {
      if c.order < NR_ORDERS {
        assert g.next.lists[c.order] ==
          if c.order == k then s.lists[k][1..]
          else if order <= c.order < k then s.lists[c.order] + [g.page + Pow2(c.order)]
          else s.lists[c.order];
      }
    }
  }

  /** Facts about the right half of order j carved out of the order-k chunk
      at x: it is aligned, inside [x, x + 2^k), and its buddy is the chunk
      at x. */
  lemma HalfFacts(x: nat, j: nat, k: nat)
    requires j < k && AlignedTo(x, k)
    ensures AlignedTo(x + Pow2(j), j)
    ensures x + Pow2(j) + Pow2(j) <= x + Pow2(k)
    ensures BuddyOf(x + Pow2(j), j) == x
  {
    AlignedDown(x, j + 1, k);
    RightHalf(x, j);
    Pow2Monotone(j + 1, k);
  }

  lemma CarveAligned(before: seq<seq<nat>>, after: seq<seq<nat>>, x: nat, k: nat, order: nat, n: nat)
    requires CarvedFree(before, after, x, k, order)
    requires Aligned(before) && InPool(before, n) && IsFree(before, Chunk(x, k))
    ensures Aligned(after) && InPool(after, n)
  {
    forall c | IsFree(after, c)
      ensures AlignedTo(c.start, c.order) && c.start + Pow2(c.order) <= Pow2(n)
    {
      if IsHalf(c, x, k, order) {
        HalfFacts(x, c.order, k);
      }
    }
  }

  lemma CarveDisjoint(before: seq<seq<nat>>, after: seq<seq<nat>>, x: nat, k: nat, order: nat)
    requires CarvedFree(before, after, x, k, order)
    requires Disjoint(before) && IsFree(before, Chunk(x, k)) && AlignedTo(x, k)
    ensures Disjoint(after)
  {
    var top := Chunk(x, k);
    forall c, d | IsFree(after, c) && IsFree(after, d) && c != d
      ensures !Overlap(c, d)
    {
      if IsHalf(c, x, k, order) && IsHalf(d, x, k, order) {
        if c.order < d.order {
          Pow2Monotone(c.order + 1, d.order);
        } else {
          Pow2Monotone(d.order + 1, c.order);
        }
      } else if IsHalf(c, x, k, order) {
        HalfFacts(x, c.order, k);
        assert !Overlap(top, d);
      } else if IsHalf(d, x, k, order) {
        HalfFacts(x, d.order, k);
        assert !Overlap(top, c);
      }
    }
  }

  lemma CarveNoFreeBuddies(before: seq<seq<nat>>, after: seq<seq<nat>>, x: nat, k: nat, order: nat)
    requires CarvedFree(before, after, x, k, order)
    requires NoFreeBuddies(before) && Aligned(before) && Disjoint(before)
    requires IsFree(before, Chunk(x, k)) && AlignedTo(x, k)
    ensures NoFreeBuddies(after)
  {
    var top := Chunk(x, k);
    forall c, d | IsFree(after, c) && IsFree(after, d) && c.order == d.order < MAX_ORDER
      ensures d.start != BuddyOf(c.start, c.order)
    {
      var j := c.order;
      if IsHalf(c, x, k, order) {
        HalfFacts(x, j, k);
        if !IsHalf(d, x, k, order) {
          assert !Overlap(top, d);
        }
      } else if IsHalf(d, x, k, order) {
        HalfFacts(x, j, k);
        BuddyPair(c.start, j);
        assert !Overlap(top, c);
      }
    }
  }

  /** A right half carved from a free chunk is not itself free: it lies
      inside that chunk. */
  lemma HalfNotFree(lists: seq<seq<nat>>, x: nat, j: nat, k: nat)
    requires Disjoint(lists) && IsFree(lists, Chunk(x, k)) && AlignedTo(x, k) && j < k
    ensures x + Pow2(j) !in lists[j]
  {
    HalfFacts(x, j, k);
    var h := Chunk(x + Pow2(j), j);
    assert Overlap(Chunk(x, k), h);
    assert !IsFree(lists, h);
  }

  lemma CarveDistinct(s: Allocator, k: nat, order: nat, g: Grant)
    requires WellFormed(s) && k < NR_ORDERS && Carved(s, k, order, g)
    requires Distinct(s.lists) && Disjoint(s.lists) && AlignedTo(g.page, k)
    ensures Distinct(g.next.lists)
  {
    var x := g.page;
    assert IsFree(s.lists, Chunk(x, k));
    forall j | 0 <= j < NR_ORDERS
      ensures NoDup(g.next.lists[j])
    {
      if j == k {
        NoDupPop(s.lists[k]);
      } else if order <= j < k {
        HalfNotFree(s.lists, x, j, k);
        NoDupAppend(s.lists[j], x + Pow2(j));
      }
    }
  }

  /** The chunk handed out and the right halves queued tile the popped
      order-k chunk at x: a page lies in [x, x + 2^k) exactly when it lies
      in the handed-out [x, x + 2^order) or in one of the halves. */
  lemma {:induction false} HalvesTile(x: nat, order: nat, k: nat, p: nat)
    requires order <= k
    ensures x <= p < x + Pow2(k) <==>
              (x <= p < x + Pow2(order)
               || exists c :: IsHalf(c, x, k, order) && c.start <= p < c.start + Pow2(c.order))
    decreases k
  {
    if k > order {
      HalvesTile(x, order, k - 1, p);
      var top := Chunk(x + Pow2(k - 1), k - 1);
      assert IsHalf(top, x, k, order);
      forall c | IsHalf(c, x, k - 1, order)
        ensures IsHalf(c, x, k, order)
      {
      }
      if exists c :: IsHalf(c, x, k, order) && c.start <= p < c.start + Pow2(c.order) {
        var c :| IsHalf(c, x, k, order) && c.start <= p < c.start + Pow2(c.order);
        if c.order < k - 1 {
          assert IsHalf(c, x, k - 1, order);
        }
      }
    }
  }

  /** The chunk `alloc_pages` hands out is outstanding afterwards: aligned
      to its order, inside the pool, sharing no page with any free chunk,
      and counted in `allocated`; so it may be passed to `free_pages`. */
  lemma AllocGrantsOutstanding(s: Allocator, n: nat, order: nat)
    requires Inv(s, n) && Alloc(s, order).Success?
    ensures var g := Alloc(s, order).value;
            Outstanding(g.next, n, g.page, order)
  {
    var g := Alloc(s, order).value;
    var k := FirstNonEmpty(s.lists, order);
    var x := g.page;
    var top := Chunk(x, k);
    assert IsFree(s.lists, top);
    AlignedDown(x, order, k);
    Pow2Monotone(order, k);
    CarvedFreeChunks(s, k, order, g);
    forall d | IsFree(g.next.lists, d)
      ensures !Overlap(Chunk(x, order), d)
    {
      if IsHalf(d, x, k, order) {
        Pow2Monotone(order, d.order);
      } else {
        assert !Overlap(top, d);
      }
    }
  }

  /** `alloc_pages` preserves the invariant. */
  lemma AllocKeepsInv(s: Allocator, n: nat, order: nat)
    requires Inv(s, n) && Alloc(s, order).Success?
    ensures Inv(Alloc(s, order).value.next, n)
  {
    var g := Alloc(s, order).value;
    var k := FirstNonEmpty(s.lists, order);
    var x := g.page;
    var L0, L2 := s.lists, g.next.lists;
    assert IsFree(L0, Chunk(x, k));
    CarvedFreeChunks(s, k, order, g);
    CarveAligned(L0, L2, x, k, order, n);
    CarveDisjoint(L0, L2, x, k, order);
    CarveNoFreeBuddies(L0, L2, x, k, order);
    CarveDistinct(s, k, order, g);
    var popped := L0[k := L0[k][1..]];
    assert L2 == Split(popped, x, k, order);
    FreePagesTake(L0, k, L0[k][1..]);
    SplitPages(popped, x, k, order);
  }

  // ---------------------------------------------------------------------
  // free_pages

  /** A carried chunk that is aligned, inside the pool and shares no page
      with a free chunk of `lists`. */
  ghost predicate Fits(lists: seq<seq<nat>>, c: Chunk, n: nat)
  {
    && c.order <= MAX_ORDER
    && AlignedTo(c.start, c.order)
    && c.start + Pow2(c.order) <= Pow2(n)
    && (forall d | IsFree(lists, d) :: !Overlap(c, d))
  }

  /** Every free chunk of `sub` is a free chunk of `lists`. */
  ghost predicate SubOf(sub: seq<seq<nat>>, lists: seq<seq<nat>>)
  {
    forall c | IsFree(sub, c) :: IsFree(lists, c)
  }

  /** Good lists plus a carried chunk that fits them. */
  ghost predicate CarryOk(lists: seq<seq<nat>>, c: Chunk, n: nat)
  {
    ListsOk(lists, n) && Fits(lists, c, n)
  }

  /** One merge of the cascade, over lists holding some of the free chunks
      of good lists `orig`: the carried chunk and its free buddy become one
      aligned chunk of the next order covering both, still inside the pool
      and sharing no page with the remaining free chunks. */
  lemma MergeStep(orig: seq<seq<nat>>, lists: seq<seq<nat>>, start: nat, od: nat, n: nat)
    requires |lists| == NR_ORDERS && od < MAX_ORDER
    requires Aligned(orig) && InPool(orig, n) && Disjoint(orig) && SubOf(lists, orig)
    requires Fits(lists, Chunk(start, od), n) && BuddyOf(start, od) in lists[od]
    ensures var lower := if start % Pow2(od + 1) == 0 then start else start - Pow2(od);
            var rest := lists[od := Without(lists[od], BuddyOf(start, od))];
            Fits(rest, Chunk(lower, od + 1), n) && SubOf(rest, orig)
  {
    var t := BuddyOf(start, od);
    BuddyPair(start, od);
    var b := Chunk(t as nat, od);
    assert IsFree(orig, b);
    var lower := if start % Pow2(od + 1) == 0 then start else start - Pow2(od);
    var rest := lists[od := Without(lists[od], t)];
    forall d ensures IsFree(rest, d) <==> IsFree(lists, d) && d != b {
    }
    var c' := Chunk(lower, od + 1);
    forall d | IsFree(rest, d)
      ensures !Overlap(c', d)
    {
      assert !Overlap(Chunk(start, od), d) && !Overlap(b, d);
    }
  }

  /** One merge keeps the page total: the buddy's 2^od pages leave the
      lists and the carried chunk doubles. */
  lemma MergeStepPages(lists: seq<seq<nat>>, start: nat, od: nat)
    requires |lists| == NR_ORDERS && od < MAX_ORDER && Distinct(lists)
    requires BuddyOf(start, od) in lists[od]
    ensures var rest := lists[od := Without(lists[od], BuddyOf(start, od))];
            && Distinct(rest)
            && FreePages(rest) + Pow2(od + 1) == FreePages(lists) + Pow2(od)
  {
    var t := BuddyOf(start, od);
    var rest := lists[od := Without(lists[od], t)];
    WithoutNoDup(lists[od], t);
    var i :| 0 <= i < |lists[od]| && lists[od][i] == t;
    WithoutOne(lists[od], lists[od][i]);
    FreePagesTake(lists, od, Without(lists[od], t));
  }

  /** The whole cascade keeps the carried chunk fitting the lists. */
  lemma {:induction false} MergeKeeps(orig: seq<seq<nat>>, lists: seq<seq<nat>>, start: nat, od: nat, n: nat)
    requires |lists| == NR_ORDERS && od <= MAX_ORDER
    requires Aligned(orig) && InPool(orig, n) && Disjoint(orig) && SubOf(lists, orig)
    requires Fits(lists, Chunk(start, od), n)
    ensures var m := Merge(lists, start, od);
            Fits(m.lists, Chunk(m.start, m.order), n)
    decreases MAX_ORDER - od
  {
    if od < MAX_ORDER && BuddyOf(start, od) in lists[od] {
      var lower := if start % Pow2(od + 1) == 0 then start else start - Pow2(od);
      var rest := lists[od := Without(lists[od], BuddyOf(start, od))];
      MergeStep(orig, lists, start, od, n);
      MergeKeeps(orig, rest, lower, od + 1, n);
      assert Merge(lists, start, od) == Merge(rest, lower, od + 1);
    } else {
      assert Merge(lists, start, od) == Carried(lists, start, od);
    }
  }

  /** Taking a page out of one list keeps every list duplicate-free. */
  lemma DistinctWithout(lists: seq<seq<nat>>, od: nat, t: int)
    requires od < |lists| && Distinct(lists)
    ensures Distinct(lists[od := Without(lists[od], t)])
  {
    WithoutNoDup(lists[od], t);
  }

  /** The cascade keeps the lists duplicate-free. */
  lemma {:induction false} MergeDistinct(lists: seq<seq<nat>>, start: nat, od: nat)
    requires |lists| == NR_ORDERS && od <= MAX_ORDER && Distinct(lists)
    ensures Distinct(Merge(lists, start, od).lists)
    decreases MAX_ORDER - od
  {
    if od < MAX_ORDER && BuddyOf(start, od) in lists[od] {
      var lower := if start % Pow2(od + 1) == 0 then start else start - Pow2(od);
      var rest := lists[od := Without(lists[od], BuddyOf(start, od))];
      DistinctWithout(lists, od, BuddyOf(start, od));
      MergeDistinct(rest, lower, od + 1);
      MergeGoesOn(lists, start, od);
    } else {
      assert Merge(lists, start, od) == Carried(lists, start, od);
    }
  }

  /** The whole cascade keeps the page total of lists plus carried chunk. */
  lemma {:induction false} MergePages(lists: seq<seq<nat>>, start: nat, od: nat)
    requires |lists| == NR_ORDERS && od <= MAX_ORDER && Distinct(lists)
    ensures var m := Merge(lists, start, od);
            FreePages(m.lists) + Pow2(m.order) == FreePages(lists) + Pow2(od)
    decreases MAX_ORDER - od
  {
    if od < MAX_ORDER && BuddyOf(start, od) in lists[od] {
      var lower := if start % Pow2(od + 1) == 0 then start else start - Pow2(od);
      var rest := lists[od := Without(lists[od], BuddyOf(start, od))];
      MergeStepPages(lists, start, od);
      MergePages(rest, lower, od + 1);
      MergeGoesOn(lists, start, od);
    } else {
      assert Merge(lists, start, od) == Carried(lists, start, od);
    }
  }

  /** Appending the carried chunk whose buddy is not free (or which has
      reached MAX_ORDER) to the tail of its list gives good lists holding
      2^order more pages. */
  lemma Settle(lists: seq<seq<nat>>, c: Chunk, n: nat)
    requires CarryOk(lists, c, n)
    requires c.order == MAX_ORDER || BuddyOf(c.start, c.order) !in lists[c.order]
    ensures var after := lists[c.order := lists[c.order] + [c.start]];
            && ListsOk(after, n)
            && FreePages(after) == FreePages(lists) + Pow2(c.order)
  {
    var o := c.order;
    var after := lists[o := lists[o] + [c.start]];
    assert c.start !in lists[o] by {
      assert Overlap(c, c);
      assert !IsFree(lists, c);
    }
    forall d ensures IsFree(after, d) <==> IsFree(lists, d) || d == c {
    }
    forall j | 0 <= j < NR_ORDERS
      ensures NoDup(after[j])
    {
      if j == o {
        NoDupAppend(lists[o], c.start);
      }
    }
    forall d, e | IsFree(after, d) && IsFree(after, e) && d.order == e.order < MAX_ORDER
      ensures e.start != BuddyOf(d.start, d.order)
    {
      if d == c {
        BuddyPair(c.start, o);
      } else if e == c {
        BuddyPair(d.start, o);
      }
    }
    FreePagesPush(lists, o, c.start);
  }

  /** `free_pages` preserves the invariant when the freed chunk is
      outstanding. */
  lemma FreeKeepsInv(s: Allocator, n: nat, page: nat, order: nat)
    requires Inv(s, n) && Outstanding(s, n, page, order)
    ensures Inv(Free(s, page, order), n)
  {
    MergeKeeps(s.lists, s.lists, page, order, n);
    MergePages(s.lists, page, order);
    MergeDistinct(s.lists, page, order);
    var m := Merge(s.lists, page, order);
    SubsetOk(s.lists, m.lists, n);
    Settle(m.lists, Chunk(m.start, m.order), n);
    assert Free(s, page, order).lists == m.lists[m.order := m.lists[m.order] + [m.start]];
  }

  // ---------------------------------------------------------------------
  // init_buddy

  lemma MulLess(a: nat, b: nat, p: nat)
    requires a < b && p > 0
    ensures a * p + p <= b * p
  {
    assert b * p == a * p + (b - a) * p;
    assert (b - a) * p >= p by {
      assert (b - a) * p == (b - a - 1) * p + p;
    }
  }

  /** The lists `init_buddy` builds for a pool of 2^n pages: all empty but
      the top one, which holds the starts a * 2^MAX_ORDER in order. */
  ghost predicate Tiled(lists: seq<seq<nat>>, n: nat)
  {
    && n >= MAX_ORDER
    && |lists| == NR_ORDERS
    && (forall o | 0 <= o < MAX_ORDER :: lists[o] == [])
    && |lists[MAX_ORDER]| == Pow2(n - MAX_ORDER)
    && (forall a | 0 <= a < |lists[MAX_ORDER]| :: lists[MAX_ORDER][a] == a * Pow2(MAX_ORDER))
  }

  /** Every free chunk of the initial lists is the a-th top-order tile. */
  lemma TiledChunk(lists: seq<seq<nat>>, n: nat, c: Chunk) returns (a: nat)
    requires Tiled(lists, n) && IsFree(lists, c)
    ensures c.order == MAX_ORDER && a < Pow2(n - MAX_ORDER) && c.start == a * Pow2(MAX_ORDER)
  {
    var top := lists[MAX_ORDER];
    assert c.order == MAX_ORDER;
    var i :| 0 <= i < |top| && top[i] == c.start;
    a := i;
  }

  lemma TiledShape(lists: seq<seq<nat>>, n: nat)
    requires Tiled(lists, n)
    ensures Distinct(lists) && Aligned(lists) && InPool(lists, n)
  {
    var P := Pow2(MAX_ORDER);
    var top := lists[MAX_ORDER];
    Pow2Add(MAX_ORDER, n - MAX_ORDER);
    forall i, j | 0 <= i < j < |top|
      ensures top[i] != top[j]
    {
      MulLess(i, j, P);
    }
    forall c | IsFree(lists, c)
      ensures AlignedTo(c.start, c.order) && c.start + Pow2(c.order) <= Pow2(n)
    {
      var a := TiledChunk(lists, n, c);
      MultipleAligned(a, MAX_ORDER);
      MulLess(a, Pow2(n - MAX_ORDER), P);
    }
  }

  lemma TiledDisjoint(lists: seq<seq<nat>>, n: nat)
    requires Tiled(lists, n)
    ensures Disjoint(lists) && NoFreeBuddies(lists)
  {
    var P := Pow2(MAX_ORDER);
    forall c, d | IsFree(lists, c) && IsFree(lists, d) && c != d
      ensures !Overlap(c, d)
    {
      var a := TiledChunk(lists, n, c);
      var b := TiledChunk(lists, n, d);
      if a < b {
        MulLess(a, b, P);
      } else {
        MulLess(b, a, P);
      }
    }
    forall c | IsFree(lists, c)
      ensures c.order == MAX_ORDER
    {
      var a := TiledChunk(lists, n, c);
    }
  }

  /** Empty lists below MAX_ORDER and 2^(n - MAX_ORDER) top-order chunks
      hold 2^n pages. */
  lemma TiledPages(lists: seq<seq<nat>>, n: nat)
    requires n >= MAX_ORDER && |lists| == NR_ORDERS
    requires forall o | 0 <= o < MAX_ORDER :: lists[o] == []
    requires |lists[MAX_ORDER]| == Pow2(n - MAX_ORDER)
    ensures FreePages(lists) == Pow2(n)
  {
    var top := lists[MAX_ORDER];
    EmptyBelow(lists, MAX_ORDER);
    assert FreePages(lists) == FreePagesBelow(lists, MAX_ORDER) + ListPages(top, MAX_ORDER);
    Pow2Add(MAX_ORDER, n - MAX_ORDER);
    ListPagesCount(top, MAX_ORDER);
    var c, p := Pow2(n - MAX_ORDER), Pow2(MAX_ORDER);
    assert |top| * p == c * p == p * c;
  }

  lemma {:induction false} EmptyBelow(lists: seq<seq<nat>>, k: nat)
    requires k <= |lists| && forall o | 0 <= o < k :: lists[o] == []
    ensures FreePagesBelow(lists, k) == 0
    decreases k
  {
    if k > 0 {
      EmptyBelow(lists, k - 1);
    }
  }

  /** `init_buddy` establishes the invariant. */
  lemma InitKeepsInv(n: nat)
    requires n >= MAX_ORDER
    ensures Init(n).Success? && Inv(Init(n).value, n)
  {
    var s := Init(n).value;
    assert Tiled(s.lists, n);
    TiledShape(s.lists, n);
    TiledDisjoint(s.lists, n);
    TiledPages(s.lists, n);
  }
}
