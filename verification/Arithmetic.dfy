/** Facts about products and quotients that the solver does not find by itself. */
module Arithmetic {

  lemma MulMonotone(d: int, a: int, b: int)
    requires d >= 0 && a <= b
    ensures d * a <= d * b
  {
    assert d * (b - a) >= 0;
  }

  /** Quotient and remainder are determined by their defining equation. */
  lemma QuotientUnique(d: int, q: int, r: int, q': int, r': int)
    requires 0 <= r < d && 0 <= r' < d && d * q + r == d * q' + r'
    ensures q == q' && r == r'
  {
    if q < q' {
      MulMonotone(d, q + 1, q');
    } else if q' < q {
      MulMonotone(d, q' + 1, q);
    }
  }

  lemma DivModUnique(z: int, d: int, q: int, r: int)
    requires d > 0 && z == d * q + r && 0 <= r < d
    ensures z / d == q && z % d == r
  {
    QuotientUnique(d, q, r, z / d, z % d);
  }

  lemma QuotientBelow(x: int, d: int, n: int, q: int, r: int)
    requires 0 <= r < d && x == d * q + r && 0 <= x < d * n
    ensures 0 <= q < n
  {
    if q >= n {
      MulMonotone(d, n, q);
    } else if q < 0 {
      MulMonotone(d, q, -1);
    }
  }

  lemma SmallMod(x: nat, m: nat)
    requires x < m
    ensures x % m == x
  {
    DivModUnique(x, m, 0, x);
  }

  lemma Distribute(d: int, n: int)
    ensures d * (n + 1) == d * n + d
  {
  }

  /** Offset of block k when blocks have this size. */
  function Times(k: nat, size: nat): nat {
    k * size
  }

  lemma TimesNext(k: nat, size: nat)
    ensures Times(0, size) == 0 && Times(k + 1, size) == Times(k, size) + size
  {
  }

  lemma {:induction false} BlockFits(i: nat, n: nat, size: nat)
    requires i < n
    ensures Times(i, size) + size <= Times(n, size)
    decreases n
  {
    hide Times;
    TimesNext(n - 1, size);
    if i < n - 1 {
      BlockFits(i, n - 1, size);
    }
  }

  lemma BlocksApart(i: nat, k: nat, size: nat)
    requires i != k
    ensures Times(i, size) + size <= Times(k, size) || Times(k, size) + size <= Times(i, size)
  {
    if i < k {
      BlockFits(i, k, size);
    } else {
      BlockFits(k, i, size);
    }
  }
}
