/** Powers of two and natural alignment: the page arithmetic every chunk of
    the buddy allocator relies on. An order-k chunk spans `Pow2(k)` pages
    (`1 << k` in the C code) and starts at a multiple of `Pow2(k)`. */
module PowerOfTwo {

  /** 2^k, the number of pages in an order-k chunk. */
  function Pow2(k: nat): (r: nat)
    ensures r >= 1
  {
    if k == 0 then 1 else 2 * Pow2(k - 1)
  }

  /** The powers used by the concrete examples. */
  lemma Pow2Small()
    ensures Pow2(0) == 1 && Pow2(1) == 2 && Pow2(2) == 4 && Pow2(3) == 8
    ensures Pow2(4) == 16 && Pow2(5) == 32
  {
  }

  /** A page index is aligned to order k when it is a multiple of 2^k. */
  predicate AlignedTo(x: nat, k: nat)
  {
    x % Pow2(k) == 0
  }

  lemma {:induction false} Pow2Add(a: nat, b: nat)
    ensures Pow2(a + b) == Pow2(a) * Pow2(b)
    decreases b
  {
    if b > 0 {
      Pow2Add(a, b - 1);
      calc {
        Pow2(a + b);
        2 * Pow2(a + b - 1);
        2 * (Pow2(a) * Pow2(b - 1));
        Pow2(a) * (2 * Pow2(b - 1));
      }
    }
  }

  lemma Pow2Monotone(a: nat, b: nat)
    requires a <= b
    ensures Pow2(a) <= Pow2(b)
  {
    Pow2Add(a, b - a);
  }

  /** Division with remainder has one answer: if a == q*m + r with r in
      [0, m) then r is a % m and q is a / m. */
  lemma DivModUnique(a: int, m: int, q: int, r: int)
    requires m > 0 && 0 <= r < m && a == q * m + r
    ensures a % m == r && a / m == q
  {
    var q0, r0 := a / m, a % m;
    assert (q - q0) * m == r0 - r by {
      assert a == q0 * m + r0;
    }
    if q0 < q {
      MulAtLeast(q - q0, m);
    } else if q0 > q {
      MulAtLeast(q0 - q, m);
    }
  }

  lemma MulAtLeast(d: int, m: int)
    requires d >= 1 && m > 0
    ensures d * m >= m
  {
    assert d * m == (d - 1) * m + m;
  }

  lemma MultipleAligned(a: nat, k: nat)
    ensures AlignedTo(a * Pow2(k), k)
  {
    DivModUnique(a * Pow2(k), Pow2(k), a, 0);
  }

  /** Alignment to an order implies alignment to every smaller order. */
  lemma AlignedDown(x: nat, j: nat, k: nat)
    requires j <= k && AlignedTo(x, k)
    ensures AlignedTo(x, j)
  {
    var q := x / Pow2(k);
    assert x == q * Pow2(k);
    Pow2Add(j, k - j);
    assert x == (q * Pow2(k - j)) * Pow2(j);
    DivModUnique(x, Pow2(j), q * Pow2(k - j), 0);
  }

  /** An order-j aligned index sits either at the left (0) or at the
      right (2^j) position of the enclosing order-(j+1) block. */
  lemma AlignedHalves(x: nat, j: nat)
    requires AlignedTo(x, j)
    ensures x % Pow2(j + 1) == 0 || x % Pow2(j + 1) == Pow2(j)
  {
    var q := x / Pow2(j);
    assert x == q * Pow2(j);
    var h, b := q / 2, q % 2;
    assert q == 2 * h + b;
    assert x == h * Pow2(j + 1) + b * Pow2(j);
    DivModUnique(x, Pow2(j + 1), h, b * Pow2(j));
  }

  /** The right half of an order-(j+1) aligned block is order-j aligned and
      sits at the right position. */
  lemma RightHalf(x: nat, j: nat)
    requires AlignedTo(x, j + 1)
    ensures AlignedTo(x + Pow2(j), j)
    ensures (x + Pow2(j)) % Pow2(j + 1) == Pow2(j)
  {
    var q := x / Pow2(j + 1);
    assert x == q * Pow2(j + 1);
    DivModUnique(x + Pow2(j), Pow2(j + 1), q, Pow2(j));
    assert x + Pow2(j) == (2 * q + 1) * Pow2(j);
    DivModUnique(x + Pow2(j), Pow2(j), 2 * q + 1, 0);
  }

  /** An order-j aligned index at the right position of its order-(j+1)
      block has its left neighbour 2^j pages below, at an order-(j+1)
      boundary. */
  lemma LeftOfRight(x: nat, j: nat)
    requires x % Pow2(j + 1) == Pow2(j)
    ensures x >= Pow2(j)
    ensures AlignedTo(x - Pow2(j), j + 1)
  {
    DropRemainder(x, Pow2(j + 1));
  }

  /** Taking its remainder off a number leaves a multiple of the divisor. */
  lemma DropRemainder(x: nat, m: nat)
    requires m > 0
    ensures x >= x % m
    ensures (x - x % m) % m == 0
  {
    var q := x / m;
    assert x == q * m + x % m;
    assert q * m >= 0;
    DivModUnique(x - x % m, m, q, 0);
  }
}
