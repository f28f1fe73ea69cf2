/** Division and powers of two. */
module Arithmetic {

  lemma SmallMultiple(f: int, h: int)
    requires -h < f * h < h
    ensures f == 0
  {
    assert f >= 1 ==> f * h >= h;
    assert f <= -1 ==> f * h <= -h;
  }

  /** Quotient and remainder are unique. */
  lemma Quotient(x: int, q: int, h: int, r: int)
    requires x == q * h + r && 0 <= r < h
    ensures x / h == q && x % h == r
  {
    var q' := x / h;
    assert x == q' * h + x % h;
    assert (q - q') * h == q * h - q' * h;
    SmallMultiple(q - q', h);
  }

  function Pow2(k: nat): (p: int)
    ensures p > 0
  {
    if k == 0 then 1 else 2 * Pow2(k - 1)
  }

  lemma {:induction false} PowersInOrder(i: nat, j: nat)
    requires i <= j
    ensures Pow2(i) <= Pow2(j) && (i < j ==> 2 * Pow2(i) <= Pow2(j))
    decreases j
  {
    if i < j { PowersInOrder(i, j - 1); }
  }

  lemma Pow2Of15()
    ensures Pow2(15) == 0x8000 && Pow2(16) == 0x10000
  {
    assert Pow2(4) == 16;
    assert Pow2(8) == 256;
    assert Pow2(12) == 4096;
  }

  /** Dividing by twice as much: halve first, or halve last. */
  lemma HalveFirst(x: int, m: int)
    requires 0 < m
    ensures x / (2 * m) == x / 2 / m
    ensures x % (2 * m) == 2 * (x / 2 % m) + x % 2
  {
    var h := x / 2;
    var q := h / m;
    assert h == q * m + h % m;
    assert q * (2 * m) == 2 * (q * m);
    Quotient(x, q, 2 * m, 2 * (h % m) + x % 2);
  }

  lemma HalveLast(x: int, m: int)
    requires 0 < m
    ensures x / (2 * m) == x / m / 2
    ensures x % (2 * m) == (if x / m % 2 == 1 then m else 0) + x % m
  {
    var g := x / m;
    var p := g / 2;
    assert x == g * m + x % m;
    var extra := if g % 2 == 1 then m else 0;
    assert g * m == p * (2 * m) + extra by {
      assert g == 2 * p + g % 2;
      assert (2 * p) * m == p * (2 * m);
      assert (2 * p + 1) * m == (2 * p) * m + m;
    }
    Quotient(x, p, 2 * m, extra + x % m);
  }

  lemma DivisionBounds(v: int, m: int)
    requires 0 < m
    ensures v == v / m * m + v % m && 0 <= v % m < m
  {
  }

  lemma ProductSign(q: int, m: int)
    requires 0 < m
    ensures 0 <= q ==> 0 <= q <= q * m
    ensures q < 0 ==> q * m <= -m
  {
    if q < 0 {
      var p := -q - 1;
      assert 0 <= p * m;
      assert q * m == -(p * m) - m;
    } else {
      assert q * m == q + q * (m - 1);
      assert 0 <= q * (m - 1);
    }
  }

  lemma SmallerQuotient(v: int, m: int)
    requires 0 < m && 0 <= v
    ensures 0 <= v / m <= v && 0 <= v / m * m <= v
  {
    DivisionBounds(v, m);
    ProductSign(v / m, m);
  }

  /** Clearing low bits does not leave a range that starts at a multiple. */
  lemma QuotientAbove(v: int, q: int, r: int, n: int, m: int)
    requires v == q * m + r && 0 <= r < m && -(n * m) <= v
    ensures -(n * m) <= q * m <= v
  {
    ProductSign(q + n, m);
    assert (q + n) * m == q * m + n * m;
  }

  /** `v` with its bits below the power of two `m` cleared. */
  function Cleared(v: int, m: int): int
    requires 0 < m
  {
    v / m * m
  }

  /** Clearing one bit less keeps the bit worth `m`. */
  lemma ClearedStep(v: int, m: int)
    requires 0 < m
    ensures v / (2 * m) == v / m / 2
    ensures Cleared(v, m) == Cleared(v, 2 * m) + (if v / m % 2 == 1 then m else 0)
    ensures Cleared(v, 2 * m) / m % 2 == 0
  {
    HalveLast(v, m);
    var q := v / m;
    var p := q / 2;
    assert q == 2 * p + q % 2;
    assert p * (2 * m) == (2 * p) * m && (2 * p + 1) * m == (2 * p) * m + m;
    Quotient(p * (2 * m), 2 * p, m, 0);
  }

  lemma NegatedProduct(p: int, m: int)
    ensures (-p) * m == -(p * m)
  {
  }
}
