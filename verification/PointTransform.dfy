/** Blocks of coefficients, and the point transforms of successive approximation: DC values are shifted
    arithmetically, AC values are divided with rounding towards zero. */
module PointTransform {
  import opened Arithmetic

  /** A block in zigzag order. */
  type Block = z: seq<int> | |z| == 64 witness seq(64, _ => 0)

  /** Where a decoder stores zigzag position `k`; a corrupt run can point past the block. */
  function Place(k: nat): (p: nat)
    ensures p <= 63 && (k >= 63 ==> p == 63)
  {
    if k <= 63 then k else 63
  }

  /** Two blocks are the same in front of position `k`. */
  predicate Agree(c: Block, b: Block, k: nat) {
    forall j :: 0 <= j < k && j < 64 ==> c[j] == b[j]
  }

  function Abs(v: int): nat { if v < 0 then -v else v }

  /** The conversion to a 16-bit coefficient: what is above wraps around. */
  function Short(v: int): (r: int)
    ensures -0x8000 <= r < 0x8000 && (v - r) % 0x10000 == 0
  {
    (v + 0x8000) % 0x10000 - 0x8000
  }

  predicate IsShort(v: int) { -0x8000 <= v < 0x8000 }

  /** Every coefficient has the type that the coefficient arrays have. */
  predicate IsShortBlock(z: Block) { forall k :: 0 <= k < 64 ==> IsShort(z[k]) }

  /** Division by 2^al with rounding towards zero. */
  function Truncated(v: int, al: nat): int {
    if v >= 0 then v / Pow2(al) else -(-v / Pow2(al))
  }

  /** The approximation of an AC coefficient that is known once its bits above `al` are known. */
  function Approx(v: int, al: nat): int { Truncated(v, al) * Pow2(al) }

  /** The same for a DC coefficient. */
  function DcApprox(v: int, al: nat): int { Cleared(v, Pow2(al)) }

  lemma ShortIsIdentity(v: int)
    requires IsShort(v)
    ensures Short(v) == v
  {
  }

  lemma ApproxByMagnitude(v: int, al: nat)
    ensures Abs(Truncated(v, al)) == Abs(v) / Pow2(al)
    ensures Approx(v, al) == if v < 0 then -Cleared(Abs(v), Pow2(al)) else Cleared(Abs(v), Pow2(al))
    ensures v < 0 ==> Truncated(v, al) <= 0
    ensures v >= 0 ==> Truncated(v, al) >= 0
  {
    SmallerQuotient(Abs(v), Pow2(al));
    NegatedProduct(Abs(v) / Pow2(al), Pow2(al));
  }

  lemma ApproxIsShort(v: int, al: nat)
    requires IsShort(v)
    ensures IsShort(Approx(v, al)) && Short(Approx(v, al)) == Approx(v, al)
    ensures Abs(Truncated(v, al)) <= Abs(v) <= 0x8000
  {
    ApproxByMagnitude(v, al);
    SmallerQuotient(Abs(v), Pow2(al));
    hide Approx, Truncated;
    ShortIsIdentity(Approx(v, al));
  }

  lemma ApproxOfZero(v: int, al: nat)
    ensures Truncated(v, al) == 0 <==> Approx(v, al) == 0
    ensures Truncated(v, al) < 0 <==> Approx(v, al) < 0
  {
    ProductSign(Truncated(v, al), Pow2(al));
    hide Truncated;
  }

  /** One more bit of an AC coefficient: the magnitude gets its next bit, the sign stays. */
  lemma ApproxRefines(v: int, al: nat)
    ensures Truncated(v, al + 1) == 0 <==> Abs(Truncated(v, al)) < 2
    ensures var bit := Abs(Truncated(v, al)) % 2 == 1;
            Approx(v, al) == Approx(v, al + 1) + (if !bit then 0 else if v < 0 then -Pow2(al) else Pow2(al))
  {
    ApproxByMagnitude(v, al);
    ApproxByMagnitude(v, al + 1);
    ClearedStep(Abs(v), Pow2(al));
    SmallerQuotient(Abs(v), Pow2(al));
    hide Approx, Truncated, Cleared;
  }

  /** One more bit of a DC coefficient. */
  lemma DcApproxRefines(v: int, al: nat)
    ensures DcApprox(v, al) == DcApprox(v, al + 1) + (if v / Pow2(al) % 2 == 1 then Pow2(al) else 0)
    ensures DcApprox(v, al + 1) / Pow2(al) % 2 == 0
  {
    ClearedStep(v, Pow2(al));
  }

  /** The two's-complement bit of `c` that is worth 2^al. */
  predicate BitIsSet(c: int, al: nat) { c / Pow2(al) % 2 == 1 }

  /** `c |= 1 << al` */
  function WithBit(c: int, al: nat): int { if BitIsSet(c, al) then c else c + Pow2(al) }

  /** What becomes of the DC coefficient `c` when the bit of `v` is received; `c` may be anything. */
  function RefinedDc(c: int, v: int, al: nat): int { if BitIsSet(v, al) then WithBit(c, al) else c }

  /** If `c` is what is known of `v`, it gets its next bit. */
  lemma RefinedDcIsNext(v: int, al: nat)
    ensures RefinedDc(DcApprox(v, al + 1), v, al) == DcApprox(v, al)
  {
    DcApproxRefines(v, al);
    hide DcApprox, Pow2;
  }

  /** Setting a bit below the sign does not leave the 16 bits. */
  lemma WithBitIsShort(c: int, al: nat)
    requires IsShort(c) && al <= 14
    ensures IsShort(WithBit(c, al))
  {
    if c < 0 {
      SmallPowerOf15(al);
    } else if !BitIsSet(c, al) {
      Pow2Divides(al + 1, 15);
      Pow2Of15();
      var n :| 0x8000 == n * Pow2(al + 1);
      BelowMultiple(c, n, Pow2(al));
    }
  }

  lemma BelowMultiple(c: int, n: int, m: int)
    requires m > 0 && c / m % 2 == 0 && 0 <= c < n * (2 * m)
    ensures c + m < n * (2 * m)
  {
    var q := c / m;
    assert c == q * m + c % m;
    var h := q / 2;
    assert q == 2 * h && q * m == h * (2 * m) by { Doubled(h, m); }
    if h >= n { InOrderProduct(n, h, 2 * m); }
    InOrderProduct(h + 1, n, 2 * m);
    assert (h + 1) * (2 * m) == h * (2 * m) + 2 * m;
  }

  lemma Doubled(h: int, m: int)
    ensures (2 * h) * m == h * (2 * m)
  {
  }

  lemma InOrderProduct(a: int, b: int, m: int)
    requires m > 0
    ensures a <= b ==> a * m <= b * m
  {
  }

  lemma {:induction false} SmallPowerOf15(al: nat)
    requires al <= 14
    ensures Pow2(al) <= 0x4000
    decreases 14 - al
  {
    if al < 14 { SmallPowerOf15(al + 1); } else { Pow2Of15(); }
  }

  lemma DcApproxIsShort(v: int, al: nat)
    requires IsShort(v) && al <= 15
    ensures IsShort(DcApprox(v, al)) && Short(DcApprox(v, al)) == DcApprox(v, al)
  {
    var m := Pow2(al);
    DivisionBounds(v, m);
    Pow2Divides(al, 15);
    Pow2Of15();
    var n :| 0x8000 == n * m;
    var q := v / m;
    QuotientAbove(v, q, v % m, n, m);
    ShortIsIdentity(q * m);
  }

  lemma {:induction false} Pow2Divides(j: nat, k: nat)
    requires j <= k
    ensures exists n :: Pow2(k) == n * Pow2(j)
    decreases k
  {
    if j == k {
      assert Pow2(k) == 1 * Pow2(j);
    } else {
      Pow2Divides(j, k - 1);
      var n :| Pow2(k - 1) == n * Pow2(j);
      assert Pow2(k) == (2 * n) * Pow2(j);
    }
  }

  lemma ApproxAtZero(v: int)
    ensures Approx(v, 0) == v && DcApprox(v, 0) == v && Truncated(v, 0) == v
  {
    assert Pow2(0) == 1;
  }
}
