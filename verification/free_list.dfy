/** One order's free list: a FIFO queue of chunk start pages, oldest at the
    head. The C code keeps it as a TAILQ of `struct chunk` nodes with a
    separate element count; here it is a sequence, and the two list walks
    the C code performs by rotating the queue are modelled as loops. */
module FreeList {

  /** The queue `q` with every entry equal to `x` taken out and the other
      entries kept in their original order. */
  function Without(q: seq<nat>, x: int): (r: seq<nat>)
    ensures |r| <= |q|
    ensures forall y :: y in r <==> y in q && y != x
  {
    if q == [] then []
    else if q[0] == x then Without(q[1..], x)
    else [q[0]] + Without(q[1..], x)
  }

  /** Taking out a queued entry shortens the queue. */
  lemma {:induction false} WithoutShorter(q: seq<nat>, x: int)
    requires x in q
    ensures |Without(q, x)| < |q|
  {
    if q[0] != x {
      WithoutShorter(q[1..], x);
    }
  }

  /** No start page is queued twice. */
  predicate NoDup(q: seq<nat>)
  {
    forall i, j | 0 <= i < j < |q| :: q[i] != q[j]
  }

  lemma {:induction false} WithoutConcat(a: seq<nat>, b: seq<nat>, x: int)
    ensures Without(a + b, x) == Without(a, x) + Without(b, x)
    decreases |a|
  {
    if a != [] {
      assert (a + b)[1..] == a[1..] + b;
      WithoutConcat(a[1..], b, x);
    } else {
      assert a + b == b;
    }
  }

  /** Taking out an absent page leaves the queue as it is. */
  lemma {:induction false} WithoutAbsent(q: seq<nat>, x: int)
    requires x !in q
    ensures Without(q, x) == q
    decreases |q|
  {
    if q != [] {
      assert q[0] in q;
      assert forall y | y in q[1..] :: y in q;
      WithoutAbsent(q[1..], x);
      assert [q[0]] + q[1..] == q;
    }
  }

  /** Taking out a page queued once removes exactly that entry and keeps
      the entries before and after it in order. */
  lemma WithoutUnique(a: seq<nat>, b: seq<nat>, x: nat)
    requires x !in a && x !in b
    ensures Without(a + [x] + b, x) == a + b
  {
    WithoutConcat(a + [x], b, x);
    WithoutConcat(a, [x], x);
    WithoutAbsent(a, x);
    WithoutAbsent(b, x);
  }

  lemma {:induction false} WithoutNoDup(q: seq<nat>, x: int)
    requires NoDup(q)
    ensures NoDup(Without(q, x))
    decreases |q|
  {
    if q != [] {
      assert NoDup(q[1..]) by {
        forall i, j | 0 <= i < j < |q[1..]|
          ensures q[1..][i] != q[1..][j]
        {
          assert q[1..][i] == q[i + 1] && q[1..][j] == q[j + 1];
        }
      }
      WithoutNoDup(q[1..], x);
      if q[0] != x {
        var t := Without(q[1..], x);
        assert q[0] !in q[1..] by {
          forall i | 0 <= i < |q[1..]|
            ensures q[1..][i] != q[0]
          {
            assert q[1..][i] == q[i + 1];
          }
        }
        assert q[0] !in t;
        forall i, j | 0 <= i < j < |[q[0]] + t|
          ensures ([q[0]] + t)[i] != ([q[0]] + t)[j]
        {
          if i == 0 {
            assert ([q[0]] + t)[j] == t[j - 1];
          } else {
            assert ([q[0]] + t)[i] == t[i - 1];
            assert ([q[0]] + t)[j] == t[j - 1];
          }
        }
      }
    }
  }

  /** In a queue without duplicates, taking out a present page shortens the
      queue by exactly one. */
  lemma WithoutOne(q: seq<nat>, x: nat)
    requires NoDup(q) && x in q
    ensures |Without(q, x)| == |q| - 1
  {
    var i :| 0 <= i < |q| && q[i] == x;
    assert q == q[..i] + [x] + q[i + 1..];
    assert x !in q[..i] by {
      forall k | 0 <= k < i
        ensures q[..i][k] != x
      {
        assert q[..i][k] == q[k];
      }
    }
    var tail := q[i + 1..];
    assert x !in tail by {
      forall k | 0 <= k < |tail|
        ensures tail[k] != x
      {
        assert tail[k] == q[i + 1 + k];
      }
    }
    WithoutUnique(q[..i], tail, x);
  }

  /** Appending a page that is not queued keeps the queue free of
      duplicates. */
  lemma NoDupAppend(q: seq<nat>, x: nat)
    requires NoDup(q) && x !in q
    ensures NoDup(q + [x])
  {
    forall i, j | 0 <= i < j < |q + [x]|
      ensures (q + [x])[i] != (q + [x])[j]
    {
      assert (q + [x])[i] == q[i];
      if j < |q| {
        assert (q + [x])[j] == q[j];
      }
    }
  }

  /** Popping the head keeps the queue free of duplicates, and the popped
      page is no longer queued. */
  lemma NoDupPop(q: seq<nat>)
    requires NoDup(q) && q != []
    ensures NoDup(q[1..])
    ensures q[0] !in q[1..]
    ensures forall y :: y in q[1..] <==> y in q && y != q[0]
  {
    var t := q[1..];
    forall i, j | 0 <= i < j < |t|
      ensures t[i] != t[j]
    {
      assert t[i] == q[i + 1] && t[j] == q[j + 1];
    }
    forall i | 0 <= i < |t|
      ensures t[i] != q[0]
    {
      assert t[i] == q[i + 1];
    }
    assert q == [q[0]] + t;
  }

  /** The list walk of `Buddyornot` (buddy.c:283-319): pop each of the
      `|q|` entries from the head once; drop it when it equals `target`,
      otherwise push it back at the tail. */
  method RotateOut(q: seq<nat>, target: int) returns (found: bool, rest: seq<nat>)
    ensures found <==> target in q
    ensures rest == Without(q, target)
  {
    rest := q;
    found := false;
    var a := 0;
    while a < |q|
      invariant 0 <= a <= |q|
      invariant rest == q[a..] + Without(q[..a], target)
      invariant found <==> target in q[..a]
    {
      var head := rest[0];
      assert head == q[a] && rest[1..] == q[a + 1..] + Without(q[..a], target);
      assert q[..a + 1] == q[..a] + [head];
      WithoutConcat(q[..a], [head], target);
      assert Without([head], target) == if head == target then [] else [head];
      rest := rest[1..];
      if head == target {
        found := true;
      } else {
        rest := rest + [head];
      }
      a := a + 1;
    }
    assert q[..a] == q;
  }

  /** The list walk of `print_free_pages` (buddy.c:403-414): pop each entry
      from the head, report it and push it back at the tail. The entries are
      reported oldest first and the queue ends as it began. */
  method RotateReport(q: seq<nat>) returns (reported: seq<nat>, after: seq<nat>)
    ensures reported == q
    ensures after == q
  {
    after := q;
    reported := [];
    var num := |q|;
    while num > 0
      invariant 0 <= num <= |q|
      invariant reported == q[..|q| - num]
      invariant after == q[|q| - num..] + q[..|q| - num]
    {
      var head := after[0];
      after := after[1..] + [head];
      reported := reported + [head];
      num := num - 1;
    }
  }
}
