/** The states `init_buddy`, `alloc_pages` and `free_pages` reach, with the
    chunks the callers hold tracked alongside: `alloc_pages` adds the chunk
    it hands out, and `free_pages` may be called on any held chunk, in any
    order. Every held chunk stays outstanding, so every such state keeps
    the invariant, whatever the interleaving of the calls. */
module Reachable {
  import opened PowerOfTwo
  import opened FreeList
  import opened BuddyAllocator
  import opened BuddyInvariant

  /** Pages held by the chunks `held`: 2^order for each. */
  function HeldPages(held: seq<Chunk>): (r: nat)
  {
    if held == [] then 0 else HeldPages(held[..|held| - 1]) + Pow2(held[|held| - 1].order)
  }

  /** `held` are the chunks the callers hold in state `s` of a pool of 2^n
      pages: the invariant holds, each held chunk is aligned, inside the
      pool and shares no page with a free chunk, no two held chunks share a
      page, and together they hold exactly the `allocated` pages. */
  ghost predicate Accounted(s: Allocator, n: nat, held: seq<Chunk>)
  {
    && Inv(s, n)
    && (forall i | 0 <= i < |held| :: Fits(s.lists, held[i], n))
    && (forall i, j | 0 <= i < |held| && 0 <= j < |held| && i != j :: !Overlap(held[i], held[j]))
    && s.inUse == HeldPages(held)
  }

  lemma {:induction false} HeldPagesConcat(a: seq<Chunk>, b: seq<Chunk>)
    ensures HeldPages(a + b) == HeldPages(a) + HeldPages(b)
    decreases |b|
  {
    if b != [] {
      var b' := b[..|b| - 1];
      assert (a + b)[..|a + b| - 1] == a + b';
      assert (a + b)[|a + b| - 1] == b[|b| - 1];
      HeldPagesConcat(a, b');
    } else {
      assert a + b == a;
    }
  }

  /** Handing back the i-th held chunk leaves the others holding 2^order
      pages fewer. */
  lemma HeldPagesRemove(held: seq<Chunk>, i: nat)
    requires i < |held|
    ensures HeldPages(held[..i] + held[i + 1..]) + Pow2(held[i].order) == HeldPages(held)
  {
    var before, one, after := held[..i], [held[i]], held[i + 1..];
    assert held == before + (one + after);
    HeldPagesConcat(before, one + after);
    HeldPagesConcat(one, after);
    HeldPagesConcat(before, after);
    assert one[..0] == [];
    assert HeldPages(one) == Pow2(held[i].order);
  }

  /** A held chunk may be passed to `free_pages`. */
  lemma HeldOutstanding(s: Allocator, n: nat, held: seq<Chunk>, i: nat)
    requires Accounted(s, n, held) && i < |held|
    ensures Outstanding(s, n, held[i].start, held[i].order)
  {
    HeldPagesRemove(held, i);
  }

  /** `init_buddy` starts with nothing held. */
  lemma InitAccounted(n: nat)
    requires n >= MAX_ORDER
    ensures Init(n).Success? && Accounted(Init(n).value, n, [])
  {
    InitKeepsInv(n);
  }

  /** A chunk that shares no page with the order-k free chunk at x shares
      none with the right halves carved from it either. */
  lemma AvoidsCarve(before: seq<seq<nat>>, after: seq<seq<nat>>, x: nat, k: nat, order: nat, h: Chunk)
    requires CarvedFree(before, after, x, k, order)
    requires IsFree(before, Chunk(x, k)) && AlignedTo(x, k)
    requires forall d | IsFree(before, d) :: !Overlap(h, d)
    ensures forall d | IsFree(after, d) :: !Overlap(h, d)
  {
    forall d | IsFree(after, d)
      ensures !Overlap(h, d)
    {
      if IsHalf(d, x, k, order) {
        HalfFacts(x, d.order, k);
        assert !Overlap(h, Chunk(x, k));
      }
    }
  }

  /** Adding a chunk that shares no page with the held ones keeps them
      pairwise disjoint. */
  lemma AppendKeepsApart(held: seq<Chunk>, c: Chunk)
    requires forall a, b | 0 <= a < |held| && 0 <= b < |held| && a != b :: !Overlap(held[a], held[b])
    requires forall a | 0 <= a < |held| :: !Overlap(held[a], c)
    ensures var more := held + [c];
            forall a, b | 0 <= a < |more| && 0 <= b < |more| && a != b :: !Overlap(more[a], more[b])
  {
  }

  /** The chunks held before `alloc_pages` still fit the free lists after
      it, and share no page with the chunk it hands out. */
  lemma AllocKeepsHeld(s: Allocator, n: nat, held: seq<Chunk>, order: nat)
    requires Accounted(s, n, held) && Alloc(s, order).Success?
    ensures var g := Alloc(s, order).value;
            forall i | 0 <= i < |held| :: Fits(g.next.lists, held[i], n) && !Overlap(held[i], Chunk(g.page, order))
  {
    var g := Alloc(s, order).value;
    var k := FirstNonEmpty(s.lists, order);
    var x := g.page;
    var top := Chunk(x, k);
    assert IsFree(s.lists, top);
    CarvedFreeChunks(s, k, order, g);
    Pow2Monotone(order, k);
    forall i | 0 <= i < |held|
      ensures Fits(g.next.lists, held[i], n) && !Overlap(held[i], Chunk(x, order))
    {
      AvoidsCarve(s.lists, g.next.lists, x, k, order, held[i]);
      assert !Overlap(held[i], top);
    }
  }

  /** `alloc_pages` adds the chunk it hands out to the held ones; the
      chunks held before stay outstanding. */
  lemma AllocAccounted(s: Allocator, n: nat, held: seq<Chunk>, order: nat)
    requires Accounted(s, n, held) && Alloc(s, order).Success?
    ensures var g := Alloc(s, order).value;
            Accounted(g.next, n, held + [Chunk(g.page, order)])
  {
    var g := Alloc(s, order).value;
    var c := Chunk(g.page, order);
    var more := held + [c];
    AllocKeepsInv(s, n, order);
    AllocGrantsOutstanding(s, n, order);
    AllocKeepsHeld(s, n, held, order);
    AppendKeepsApart(held, c);
    assert more[..|held|] == held;
  }

  /** A chunk that shares no page with the carried chunk nor with its
      buddy shares none with the merged chunk one order up. */
  lemma PairAvoids(start: nat, od: nat, h: Chunk)
    requires BuddyOf(start, od) >= 0
    requires !Overlap(Chunk(start, od), h) && !Overlap(h, Chunk(BuddyOf(start, od) as nat, od))
    ensures var lower := if start % Pow2(od + 1) == 0 then start else start - Pow2(od);
            !Overlap(Chunk(lower, od + 1), h)
  {
    assert Pow2(od + 1) == 2 * Pow2(od);
  }

  /** The merge cascade never reaches a chunk `h` that shares no page with
      the freed chunk nor with any free chunk: the merged chunk is made of
      exactly those pages. */
  lemma {:induction false} MergeAvoids(lists: seq<seq<nat>>, start: nat, od: nat, h: Chunk)
    requires |lists| == NR_ORDERS && od <= MAX_ORDER
    requires !Overlap(Chunk(start, od), h)
    requires forall d | IsFree(lists, d) :: !Overlap(h, d)
    ensures var m := Merge(lists, start, od);
            !Overlap(Chunk(m.start, m.order), h)
    decreases MAX_ORDER - od
  {
    if od < MAX_ORDER && BuddyOf(start, od) in lists[od] {
      var t := BuddyOf(start, od);
      MergeGoesOn(lists, start, od);
      var lower := if start % Pow2(od + 1) == 0 then start else start - Pow2(od);
      var rest := lists[od := Without(lists[od], t)];
      var b := Chunk(t as nat, od);
      assert IsFree(lists, b);
      PairAvoids(start, od, h);
      forall d | IsFree(rest, d)
        ensures !Overlap(h, d)
      {
        assert IsFree(lists, d);
      }
      MergeAvoids(rest, lower, od + 1, h);
    } else {
      assert Merge(lists, start, od) == Carried(lists, start, od);
    }
  }

  /** The free chunks after `free_pages` are the merged chunk and free
      chunks from before. */
  lemma FreedChunks(s: Allocator, page: nat, order: nat, d: Chunk)
    requires WellFormed(s) && order <= MAX_ORDER && s.inUse >= Pow2(order)
    requires IsFree(Free(s, page, order).lists, d)
    ensures var m := Merge(s.lists, page, order);
            d == Chunk(m.start, m.order) || IsFree(s.lists, d)
  {
    var m := Merge(s.lists, page, order);
    var t := Free(s, page, order);
    if d != Chunk(m.start, m.order) {
      if d.order == m.order {
        assert d.start in m.lists[m.order] + [m.start];
      }
      assert d.start in m.lists[d.order];
    }
  }

  /** A held chunk other than the freed one still fits the free lists
      after `free_pages`. */
  lemma FreeKeepsHeld(s: Allocator, n: nat, c: Chunk, h: Chunk)
    requires WellFormed(s) && c.order <= MAX_ORDER && s.inUse >= Pow2(c.order)
    requires Fits(s.lists, h, n) && !Overlap(c, h)
    ensures Fits(Free(s, c.start, c.order).lists, h, n)
  {
    var t := Free(s, c.start, c.order);
    MergeAvoids(s.lists, c.start, c.order, h);
    forall d | IsFree(t.lists, d)
      ensures !Overlap(h, d)
    {
      FreedChunks(s, c.start, c.order, d);
    }
  }

  /** Dropping one held chunk keeps the others pairwise disjoint. */
  lemma DropKeepsApart(held: seq<Chunk>, i: nat)
    requires i < |held|
    requires forall a, b | 0 <= a < |held| && 0 <= b < |held| && a != b :: !Overlap(held[a], held[b])
    ensures var rest := held[..i] + held[i + 1..];
            forall a, b | 0 <= a < |rest| && 0 <= b < |rest| && a != b :: !Overlap(rest[a], rest[b])
  {
    var rest := held[..i] + held[i + 1..];
    forall a, b | 0 <= a < |rest| && 0 <= b < |rest| && a != b
      ensures !Overlap(rest[a], rest[b])
    {
      var aa := if a < i then a else a + 1;
      var bb := if b < i then b else b + 1;
      assert rest[a] == held[aa] && rest[b] == held[bb];
    }
  }

  /** After `free_pages` of the i-th held chunk, every other held chunk
      still fits the free lists. */
  lemma FreeKeepsRest(s: Allocator, n: nat, held: seq<Chunk>, i: nat)
    requires i < |held| && WellFormed(s) && held[i].order <= MAX_ORDER && s.inUse >= Pow2(held[i].order)
    requires forall j | 0 <= j < |held| :: Fits(s.lists, held[j], n)
    requires forall a, b | 0 <= a < |held| && 0 <= b < |held| && a != b :: !Overlap(held[a], held[b])
    ensures var rest := held[..i] + held[i + 1..];
            forall j | 0 <= j < |rest| :: Fits(Free(s, held[i].start, held[i].order).lists, rest[j], n)
  {
    var c := held[i];
    var rest := held[..i] + held[i + 1..];
    forall j | 0 <= j < |rest|
      ensures Fits(Free(s, c.start, c.order).lists, rest[j], n)
    {
      var jj := if j < i then j else j + 1;
      assert rest[j] == held[jj] && jj != i;
      FreeKeepsHeld(s, n, c, rest[j]);
    }
  }

  /** `free_pages` of the i-th held chunk drops it from the held ones; the
      other held chunks stay outstanding. */
  lemma FreeAccounted(s: Allocator, n: nat, held: seq<Chunk>, i: nat)
    requires Accounted(s, n, held) && i < |held|
    ensures Outstanding(s, n, held[i].start, held[i].order)
    ensures Accounted(Free(s, held[i].start, held[i].order), n, held[..i] + held[i + 1..])
  {
    var c := held[i];
    HeldOutstanding(s, n, held, i);
    HeldPagesRemove(held, i);
    FreeKeepsInv(s, n, c.start, c.order);
    DropKeepsApart(held, i);
    FreeKeepsRest(s, n, held, i);
  }

  /** A call a caller makes: `alloc_pages(order)`, or `free_pages` of the
      `index`-th chunk it holds. */
  datatype Request = AllocRequest(order: nat) | FreeRequest(index: nat)

  /** Serve the requests in turn. A refused allocation changes nothing; a
      request to free a chunk that is not held is not passed on. The held
      chunks stay accounted for after every call. */
  function Serve(s: Allocator, n: nat, held: seq<Chunk>, reqs: seq<Request>): (r: (Allocator, seq<Chunk>))
    requires Accounted(s, n, held)
    ensures Accounted(r.0, n, r.1)
    decreases |reqs|
  {
    if reqs == [] then (s, held)
    else
      match reqs[0]
      case AllocRequest(o) =>
        if Alloc(s, o).Success? then
          AllocAccounted(s, n, held, o);
          var g := Alloc(s, o).value;
          Serve(g.next, n, held + [Chunk(g.page, o)], reqs[1..])
        else Serve(s, n, held, reqs[1..])
      case FreeRequest(i) =>
        if i < |held| then
          FreeAccounted(s, n, held, i);
          Serve(Free(s, held[i].start, held[i].order), n, held[..i] + held[i + 1..], reqs[1..])
        else Serve(s, n, held, reqs[1..])
  }

  /** Every state reachable from `init_buddy` keeps the invariant, and
      every chunk held there may be passed to `free_pages`. */
  lemma ReachableInv(n: nat, reqs: seq<Request>)
    requires n >= MAX_ORDER
    ensures Init(n).Success? && Accounted(Init(n).value, n, [])
    ensures var r := Serve(Init(n).value, n, [], reqs);
            && Inv(r.0, n)
            && forall i | 0 <= i < |r.1| :: Outstanding(r.0, n, r.1[i].start, r.1[i].order)
  {
    InitAccounted(n);
    var r := Serve(Init(n).value, n, [], reqs);
    forall i | 0 <= i < |r.1|
      ensures Outstanding(r.0, n, r.1[i].start, r.1[i].order)
    {
      HeldOutstanding(r.0, n, r.1, i);
    }
  }
}
