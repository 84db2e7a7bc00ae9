/** The buddy allocator of buddy.c: one FIFO free list of chunk start pages
    per order 0..MAX_ORDER plus the `allocated` and `free` page counters.
    The C code keeps this state in one global `struct buddy`; here it is an
    explicit `Allocator` value that every operation takes and returns. */
module BuddyAllocator {
  import opened PowerOfTwo
  import opened FreeList

  /** The largest order the allocator manages (set in the build
      configuration of the C code; fixed here). */
  const MAX_ORDER: nat := 4
  /** Number of free lists, one per order 0..MAX_ORDER. */
  const NR_ORDERS: nat := MAX_ORDER + 1

  /** The three failures the allocator reports (EINVAL for a bad order or
      pool size, ENOMEM when no chunk is large enough). */
  datatype Error = InvalidOrder | OutOfMemory | InvalidConfig

  datatype Result<T> = Success(value: T) | Failure(error: Error)

  /** `lists[o]` holds the start pages of the free order-o chunks, oldest
      first; `inUse` (the C `allocated` counter) and `free` count pages. */
  datatype Allocator = Allocator(lists: seq<seq<nat>>, inUse: nat, free: nat)

  /** The result of a successful allocation: the first page of the chunk
      handed out and the allocator state afterwards. */
  datatype Grant = Grant(page: nat, next: Allocator)

  /** A chunk in transit through the merge cascade of `free_pages`, together
      with the free lists as the cascade has left them so far. */
  datatype Carried = Carried(lists: seq<seq<nat>>, start: nat, order: nat)

  /** Numerator and denominator of the unusable index. */
  datatype Ratio = Ratio(num: nat, den: nat)

  /** There is one free list per order. */
  predicate WellFormed(s: Allocator)
  {
    |s.lists| == NR_ORDERS
  }

  /** Pages held by the order-k chunks queued in `q`: 2^k for each entry. */
  function ListPages(q: seq<nat>, k: nat): (r: nat)
  {
    if q == [] then 0 else Pow2(k) + ListPages(q[1..], k)
  }

  /** Pages held by the free lists of orders below `k`. */
  function FreePagesBelow(lists: seq<seq<nat>>, k: nat): (r: nat)
    requires k <= |lists|
  {
    if k == 0 then 0 else FreePagesBelow(lists, k - 1) + ListPages(lists[k - 1], k - 1)
  }

  /** Pages held by all free lists: the sum over orders of count * 2^order. */
  function FreePages(lists: seq<seq<nat>>): (r: nat)
  {
    FreePagesBelow(lists, |lists|)
  }

  /** The start page of the buddy of the order-`od` chunk at `start`, as
      `free_pages` computes it (buddy.c:363, 290, 309): the chunk at the
      next page up when `start` is a multiple of 2^(od+1), otherwise the
      chunk 2^od pages below. */
  function BuddyOf(start: nat, od: nat): (b: int)
    ensures b == start + Pow2(od) || b + Pow2(od) == start
  {
    if start % Pow2(od + 1) == 0 then start + Pow2(od) else start - Pow2(od)
  }

  /** The first order at or above `lo` whose free list is not empty, or
      `|lists|` when there is none. */
  function FirstNonEmpty(lists: seq<seq<nat>>, lo: nat): (k: nat)
    requires lo <= |lists|
    ensures lo <= k <= |lists|
    ensures forall j | lo <= j < k :: lists[j] == []
    ensures k < |lists| ==> lists[k] != []
    decreases |lists| - lo
  {
    if lo == |lists| || lists[lo] != [] then lo else FirstNonEmpty(lists, lo + 1)
  }

  /** The lists after the split cascade of `alloc_pages` has halved the
      chunk at `x` from order `i` down to order `o`: each list j in [o, i)
      has gained the right half `x + 2^j` of order j at its tail, and every
      other list is as it was. */
  function Split(lists: seq<seq<nat>>, x: nat, i: nat, o: nat): (r: seq<seq<nat>>)
    requires o <= i <= |lists|
    ensures |r| == |lists|
    ensures forall j | o <= j < i :: r[j] == lists[j] + [x + Pow2(j)]
    ensures forall j | 0 <= j < |lists| && !(o <= j < i) :: r[j] == lists[j]
  {
    seq(|lists|, j requires 0 <= j < |lists| =>
      if o <= j < i then lists[j] + [x + Pow2(j)] else lists[j])
  }

  /** The split loop of `alloc_pages` (buddy.c:244-257): starting from the
      popped order-`k` chunk at `x`, halve it once per step, appending the
      right half of order `i - 1` to list `i - 1`, until it has order
      `order`. */
  method SplitLoop(lists: seq<seq<nat>>, x: nat, k: nat, order: nat) returns (r: seq<seq<nat>>)
    requires order <= k < |lists|
    ensures r == Split(lists, x, k, order)
  {
    r := lists;
    var i := k;
    var count := 1;
    assert r == Split(lists, x, k, k);
    while true
      invariant order <= i <= k && count == k - i + 1
      invariant r == Split(lists, x, k, i)
      decreases i
    {
      if count == k - order + 1 {
        break;
      }
      r := r[i - 1 := r[i - 1] + [x + Pow2(i - 1)]];
      assert r == Split(lists, x, k, i - 1);
      i := i - 1;
      count := count + 1;
    }
  }

  /** `alloc_pages` (buddy.c:134-266): take the oldest chunk of the smallest
      non-empty list at or above `order`, split it down to `order`, and hand
      out its first 2^order pages. */
  function Alloc(s: Allocator, order: nat): (r: Result<Grant>)
    requires WellFormed(s) && s.free == FreePages(s.lists)
    ensures order > MAX_ORDER ==> r == Failure(InvalidOrder)
    ensures order <= MAX_ORDER ==>
              (r == Failure(OutOfMemory) <==> forall k | order <= k < NR_ORDERS :: s.lists[k] == [])
    ensures order <= MAX_ORDER && r.Failure? ==> r.error == OutOfMemory
    ensures r.Success? ==>
              var k := FirstNonEmpty(s.lists, order);
              order <= k <= MAX_ORDER && Carved(s, k, order, r.value)
  {
    if order > MAX_ORDER then Failure(InvalidOrder)
    else
      var k := FirstNonEmpty(s.lists, order);
      NoneNonEmpty(s.lists, order);
      if k == NR_ORDERS then Failure(OutOfMemory)
      else Success(Carve(s, k, order))
  }

  /** The search finds nothing exactly when every list it looks at is empty. */
  lemma NoneNonEmpty(lists: seq<seq<nat>>, lo: nat)
    requires lo <= |lists|
    ensures FirstNonEmpty(lists, lo) == |lists| <==> forall k | lo <= k < |lists| :: lists[k] == []
  {
    var k := FirstNonEmpty(lists, lo);
    if k < |lists| {
      assert lists[k] != [];
    }
  }

  /** `g` is what serving an order-`order` request from list `k` yields:
      the oldest chunk of list k is taken, its first page is handed out,
      each list j in [order, k) gains the right half at `page + 2^j` at its
      tail, no other list changes, and 2^order pages move from `free` to
      `inUse`. */
  predicate Carved(s: Allocator, k: nat, order: nat, g: Grant)
    requires WellFormed(s) && k < NR_ORDERS
  {
    && s.lists[k] != []
    && g.page == s.lists[k][0]
    && WellFormed(g.next)
    && g.next.lists[k] == s.lists[k][1..]
    && (forall j | order <= j < k :: g.next.lists[j] == s.lists[j] + [g.page + Pow2(j)])
    && (forall j | 0 <= j < NR_ORDERS && j != k && !(order <= j < k) :: g.next.lists[j] == s.lists[j])
    && g.next.inUse == s.inUse + Pow2(order)
    && g.next.free + Pow2(order) == s.free
  }

  /** The successful part of `alloc_pages` once the list `k` to take from
      is known (buddy.c:202-207, 213-225, 240-259, 263-264). */
  function Carve(s: Allocator, k: nat, order: nat): (g: Grant)
    requires WellFormed(s) && s.free == FreePages(s.lists)
    requires order <= k <= MAX_ORDER && s.lists[k] != []
    ensures Carved(s, k, order, g)
  {
    HeadCovered(s.lists, k, order);
    var x := s.lists[k][0];
    var g := Grant(x, Allocator(Split(s.lists[k := s.lists[k][1..]], x, k, order),
                                s.inUse + Pow2(order), s.free - Pow2(order)));
    PoppedHalves(s.lists, x, k, order, g.next.lists);
    PoppedOthers(s.lists, x, k, order, g.next.lists);
    g
  }

  lemma PoppedHalves(lists: seq<seq<nat>>, x: nat, k: nat, order: nat, r: seq<seq<nat>>)
    requires order <= k < |lists| && lists[k] != []
    requires r == Split(lists[k := lists[k][1..]], x, k, order)
    ensures r[k] == lists[k][1..]
    ensures forall j | order <= j < k :: r[j] == lists[j] + [x + Pow2(j)]
  {
    var popped := lists[k := lists[k][1..]];
    forall j | order <= j < k
      ensures r[j] == lists[j] + [x + Pow2(j)]
    {
      assert popped[j] == lists[j];
    }
  }

  lemma PoppedOthers(lists: seq<seq<nat>>, x: nat, k: nat, order: nat, r: seq<seq<nat>>)
    requires order <= k < |lists| && lists[k] != []
    requires r == Split(lists[k := lists[k][1..]], x, k, order)
    ensures forall j | 0 <= j < |lists| && j != k && !(order <= j < k) :: r[j] == lists[j]
  {
    var popped := lists[k := lists[k][1..]];
    forall j | 0 <= j < |lists| && j != k && !(order <= j < k)
      ensures r[j] == lists[j]
    {
      assert popped[j] == lists[j];
    }
  }

  /** Every list's pages are counted in the total. */
  lemma FreePagesCoverList(lists: seq<seq<nat>>, k: nat)
    requires k < |lists|
    ensures ListPages(lists[k], k) <= FreePages(lists)
  {
    FreePagesBelowMonotone(lists, k + 1, |lists|);
  }

  /** A non-empty list k holds at least 2^k pages, so at least 2^order
      for any order up to k. */
  lemma HeadCovered(lists: seq<seq<nat>>, k: nat, order: nat)
    requires order <= k < |lists| && lists[k] != []
    ensures Pow2(order) <= FreePages(lists)
  {
    FreePagesCoverList(lists, k);
    Pow2Monotone(order, k);
  }

  lemma {:induction false} FreePagesBelowMonotone(lists: seq<seq<nat>>, a: nat, b: nat)
    requires a <= b <= |lists|
    ensures FreePagesBelow(lists, a) <= FreePagesBelow(lists, b)
    decreases b - a
  {
    if a < b {
      FreePagesBelowMonotone(lists, a, b - 1);
    }
  }

  /** The list walk of `Buddyornot` (buddy.c:277-323): look for the buddy
      of the order-`order` chunk at `page` in list `order` and take it out.
      `rgtOrLft` is `page mod 2^(order+1)`: zero when the chunk is a left
      buddy (its buddy lies 2^order pages above), non-zero otherwise. */
  method BuddyOrNot(s: Allocator, rgtOrLft: nat, order: nat, page: nat)
      returns (found: bool, t: Allocator)
    requires WellFormed(s) && order <= MAX_ORDER
    ensures var target := if rgtOrLft == 0 then page + Pow2(order) else page - Pow2(order);
            && (found <==> order < MAX_ORDER && target in s.lists[order])
            && t.inUse == s.inUse && t.free == s.free
            && t.lists == if order == MAX_ORDER then s.lists
                          else s.lists[order := Without(s.lists[order], target)]
  {
    if order == NR_ORDERS - 1 {
      return false, s;
    }
    var target := if rgtOrLft == 0 then page + Pow2(order) else page - Pow2(order);
    var rest;
    found, rest := RotateOut(s.lists[order], target);
    t := s.(lists := s.lists[order := rest]);
  }

  /** The merge cascade of `free_pages` (buddy.c:361-380): while below
      MAX_ORDER and the buddy of the carried chunk is free, take the buddy
      out of its list and carry the merged chunk, which starts at the lower
      of the two starts, one order up. */
  function Merge(lists: seq<seq<nat>>, start: nat, od: nat): (r: Carried)
    requires |lists| == NR_ORDERS && od <= MAX_ORDER
    ensures |r.lists| == NR_ORDERS
    ensures od <= r.order <= MAX_ORDER
    ensures r.order == MAX_ORDER || BuddyOf(r.start, r.order) !in r.lists[r.order]
    ensures r.start <= start && start + Pow2(od) <= r.start + Pow2(r.order)
    ensures forall j, y | 0 <= j < NR_ORDERS && y in r.lists[j] :: y in lists[j]
    ensures forall j | 0 <= j < NR_ORDERS && !(od <= j < r.order) :: r.lists[j] == lists[j]
    ensures forall j {:trigger r.lists[j]} | od <= j < r.order :: |r.lists[j]| < |lists[j]|
    ensures forall j, y | 0 <= j < NR_ORDERS && y in lists[j] && y !in r.lists[j] ::
              od <= j < r.order && r.start <= y && y + Pow2(j) <= r.start + Pow2(r.order)
    decreases MAX_ORDER - od
  {
    if od == MAX_ORDER then Carried(lists, start, od)
    else
      var target := BuddyOf(start, od);
      if target !in lists[od] then Carried(lists, start, od)
      else
        var lower := if start % Pow2(od + 1) == 0 then start else start - Pow2(od);
        WithoutShorter(lists[od], target);
        Merge(lists[od := Without(lists[od], target)], lower, od + 1)
  }

  /** `free_pages` (buddy.c:324-388): merge the order-`order` chunk at
      `page` with its free buddies, append the merged chunk to the tail of
      its list, and return 2^order pages (the original order) to the
      counters. */
  function Free(s: Allocator, page: nat, order: nat): (r: Allocator)
    requires WellFormed(s) && order <= MAX_ORDER && s.inUse >= Pow2(order)
    ensures WellFormed(r)
    ensures r.inUse + Pow2(order) == s.inUse
    ensures r.free == s.free + Pow2(order)
    ensures var m := Merge(s.lists, page, order);
            && r.lists[m.order] == m.lists[m.order] + [m.start]
            && m.start <= page && page + Pow2(order) <= m.start + Pow2(m.order)
            && (forall j | 0 <= j < NR_ORDERS && j != m.order :: r.lists[j] == m.lists[j])
            && (forall j | 0 <= j < NR_ORDERS && !(order <= j <= m.order) :: r.lists[j] == s.lists[j])
  {
    var m := Merge(s.lists, page, order);
    Allocator(m.lists[m.order := m.lists[m.order] + [m.start]],
              s.inUse - Pow2(order), s.free + Pow2(order))
  }

  /** The loop of `free_pages` (buddy.c:359-387) as the C code runs it:
      call `Buddyornot` on the carried chunk until it reports no buddy or
      the chunk has reached MAX_ORDER, moving the start down by 2^od when
      the chunk was a right buddy, then queue the chunk and update the
      counters. It computes exactly `Free`. */
  method FreeWalk(s: Allocator, page: nat, order: nat) returns (t: Allocator)
    requires WellFormed(s) && order <= MAX_ORDER && s.inUse >= Pow2(order)
    ensures t == Free(s, page, order)
  {
    var od: nat, start: nat, cur := order, page, s;
    var done := false;
    while !done
      invariant WellFormed(cur) && od <= MAX_ORDER
      invariant cur.inUse == s.inUse && cur.free == s.free
      invariant Merge(cur.lists, start, od) == Merge(s.lists, page, order)
      invariant done ==> Merge(cur.lists, start, od) == Carried(cur.lists, start, od)
      decreases !done, MAX_ORDER - od
    {
      if od == NR_ORDERS - 1 {
        assert Merge(cur.lists, start, od) == Carried(cur.lists, start, od);
        done := true;
      } else {
        done, cur, start, od := FreeRound(cur, start, od);
      }
    }
    t := Allocator(cur.lists[od := cur.lists[od] + [start]],
                   cur.inUse - Pow2(order), cur.free + Pow2(order));
    WalkEnd(s, page, order, cur, start, od, t);
  }

  /** One round of the `free_pages` loop below MAX_ORDER (buddy.c:363-379):
      ask `Buddyornot` for the buddy; when there is none the cascade is
      done, otherwise carry the merged chunk one order up from the lower
      start. */
  method FreeRound(cur: Allocator, start: nat, od: nat)
      returns (done: bool, next: Allocator, start': nat, od': nat)
    requires WellFormed(cur) && od < MAX_ORDER
    ensures WellFormed(next) && next.inUse == cur.inUse && next.free == cur.free
    ensures od <= od' <= MAX_ORDER
    ensures Merge(next.lists, start', od') == Merge(cur.lists, start, od)
    ensures done ==> next == cur && start' == start && od' == od
    ensures done ==> Merge(cur.lists, start, od) == Carried(cur.lists, start, od)
    ensures !done ==> od' == od + 1
  {
    var rgtOrLft := start % Pow2(od + 1);
    var found;
    found, next := BuddyOrNot(cur, rgtOrLft, od, start);
    WalkStep(cur, next, found, rgtOrLft, od, start);
    if found {
      done, start', od' := false, if rgtOrLft == 0 then start else start - Pow2(od), od + 1;
    } else {
      done, start', od' := true, start, od;
    }
  }

  /** Once the cascade has stopped, queueing the carried chunk and moving
      2^order pages back to `free` is what `Free` does. */
  lemma WalkEnd(s: Allocator, page: nat, order: nat, cur: Allocator, start: nat, od: nat, t: Allocator)
    requires WellFormed(s) && order <= MAX_ORDER && s.inUse >= Pow2(order)
    requires WellFormed(cur) && od <= MAX_ORDER && cur.inUse == s.inUse && cur.free == s.free
    requires Merge(s.lists, page, order) == Carried(cur.lists, start, od)
    requires t == Allocator(cur.lists[od := cur.lists[od] + [start]],
                            cur.inUse - Pow2(order), cur.free + Pow2(order))
    ensures t == Free(s, page, order)
  {
  }

  /** One round of the `free_pages` loop below MAX_ORDER: when
      `Buddyornot` finds no buddy the state is unchanged and the cascade
      stops; otherwise it goes on one order up from the lower start. */
  lemma WalkStep(before: Allocator, after: Allocator, found: bool, rgtOrLft: nat, od: nat, start: nat)
    requires WellFormed(before) && od < MAX_ORDER && rgtOrLft == start % Pow2(od + 1)
    requires var target := if rgtOrLft == 0 then start + Pow2(od) else start - Pow2(od);
             && (found <==> target in before.lists[od])
             && after.inUse == before.inUse && after.free == before.free
             && after.lists == before.lists[od := Without(before.lists[od], target)]
    ensures !found ==> after == before && Merge(before.lists, start, od) == Carried(before.lists, start, od)
    ensures found && rgtOrLft != 0 ==> start >= Pow2(od)
    ensures found ==> Merge(before.lists, start, od) == Merge(after.lists, if rgtOrLft == 0 then start else start - Pow2(od), od + 1)
  {
    if found {
      MergeGoesOn(before.lists, start, od);
    } else {
      MergeStops(before.lists, start, od);
    }
  }

  /** When the carried chunk's buddy is not queued, `Buddyornot` leaves the
      list as it was and the cascade stops here. */
  lemma MergeStops(lists: seq<seq<nat>>, start: nat, od: nat)
    requires |lists| == NR_ORDERS && od < MAX_ORDER
    requires BuddyOf(start, od) !in lists[od]
    ensures lists[od := Without(lists[od], BuddyOf(start, od))] == lists
    ensures Merge(lists, start, od) == Carried(lists, start, od)
  {
    WithoutAbsent(lists[od], BuddyOf(start, od));
  }

  /** When the buddy is queued, the cascade goes on one order up from the
      lower of the two starts, which is `start` for a left buddy and
      `start - 2^od` for a right one. */
  lemma MergeGoesOn(lists: seq<seq<nat>>, start: nat, od: nat)
    requires |lists| == NR_ORDERS && od < MAX_ORDER
    requires BuddyOf(start, od) in lists[od]
    ensures start % Pow2(od + 1) != 0 ==> start >= Pow2(od)
    ensures var lower := if start % Pow2(od + 1) == 0 then start else start - Pow2(od);
            Merge(lists, start, od) == Merge(lists[od := Without(lists[od], BuddyOf(start, od))], lower, od + 1)
  {
    if start % Pow2(od + 1) != 0 {
      assert start - Pow2(od) in lists[od];
    }
  }

  /** `print_free_pages` (buddy.c:401-423): report list `order` oldest
      first by rotating it once through; the state is left unchanged. */
  method PrintFreePages(s: Allocator, order: nat) returns (reported: seq<nat>, t: Allocator)
    requires WellFormed(s) && order <= MAX_ORDER
    ensures reported == s.lists[order]
    ensures t == s
  {
    var after;
    reported, after := RotateReport(s.lists[order]);
    t := s.(lists := s.lists[order := after]);
  }

  /** `get_unusable_index` (buddy.c:444-456): the pages held in chunks
      smaller than `order`, over all free pages. */
  function UnusableIndex(s: Allocator, order: nat): (r: Ratio)
    requires WellFormed(s) && order <= NR_ORDERS
    ensures order == 0 ==> r.num == 0
    ensures r.den == s.free
  {
    if order == 0 then Ratio(0, s.free) else Ratio(FreePagesBelow(s.lists, order), s.free)
  }

  /** The start page `init_buddy` computes for the `a`-th top-order chunk
      when the pool is larger than one top-order chunk (buddy.c:495-500),
      in unbounded arithmetic: the C product is a signed 32-bit `int`, which
      overflows from n = 19 on. */
  function InitStart(a: nat, n: nat): (r: nat)
    requires n > MAX_ORDER
    ensures r == a * Pow2(MAX_ORDER)
  {
    Pow2Add(MAX_ORDER, n - NR_ORDERS);
    assert a * Pow2(n - 1) == (a * Pow2(MAX_ORDER)) * Pow2(n - NR_ORDERS);
    DivModUnique(a * Pow2(n - 1), Pow2(n - NR_ORDERS), a * Pow2(MAX_ORDER), 0);
    if a == 0 then 0 else a * Pow2(n - 1) / Pow2(n - NR_ORDERS)
  }

  /** `init_buddy` (buddy.c:472-517): a pool of 2^n pages tiled by
      order-MAX_ORDER chunks in ascending order; EINVAL when the pool is
      smaller than one such chunk. */
  function Init(n: nat): (r: Result<Allocator>)
    ensures r.Failure? <==> n < MAX_ORDER
    ensures r.Failure? ==> r.error == InvalidConfig
    ensures r.Success? ==>
              && WellFormed(r.value)
              && (forall o | 0 <= o < MAX_ORDER :: r.value.lists[o] == [])
              && |r.value.lists[MAX_ORDER]| == Pow2(n - MAX_ORDER)
              && (forall a | 0 <= a < Pow2(n - MAX_ORDER) ::
                    r.value.lists[MAX_ORDER][a] == a * Pow2(MAX_ORDER))
              && r.value.inUse == 0
              && r.value.free == Pow2(n)
  {
    if n < MAX_ORDER then Failure(InvalidConfig)
    else if n == MAX_ORDER then
      Success(Allocator(seq(NR_ORDERS, o => if o == MAX_ORDER then [0] else []), 0, Pow2(n)))
    else
      var tiles := seq(Pow2(n - MAX_ORDER), a requires a >= 0 => InitStart(a, n));
      Success(Allocator(seq(NR_ORDERS, o => if o == MAX_ORDER then tiles else []), 0, Pow2(n)))
  }

  /** `fini_buddy` (buddy.c:524-542): pop every entry of every list. The
      counters are not touched. */
  method Fini(s: Allocator) returns (t: Allocator)
    requires WellFormed(s)
    ensures WellFormed(t)
    ensures forall o | 0 <= o < NR_ORDERS :: t.lists[o] == []
    ensures t.inUse == s.inUse && t.free == s.free
  {
    var lists := s.lists;
    for a := 0 to NR_ORDERS
      invariant |lists| == NR_ORDERS
      invariant forall o | 0 <= o < a :: lists[o] == []
    {
      var count := |lists[a]|;
      for b := 0 to count
        invariant |lists| == NR_ORDERS
        invariant forall o | 0 <= o < a :: lists[o] == []
        invariant |lists[a]| == count - b
      {
        lists := lists[a := lists[a][1..]];
      }
    }
    t := Allocator(lists, s.inUse, s.free);
  }
}
