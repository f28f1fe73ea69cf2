/** Which statistics bins the models use: DC coding stays below bin 49 of its area and AC coding below bin 245,
    and the bins for positions, magnitude categories and bit patterns never meet. */
module ArithBins {
  import opened EstimationTable
  import opened ArithCoding
  import opened ArithModel
  import opened ArithRefinement
  import opened Arithmetic
  import opened PointTransform

  const DC_BINS_USED := 49
  const AC_BINS_USED := 245

  /** Every decision uses a bin in [lo, hi). */
  predicate Within(ds: seq<Decision>, lo: nat, hi: nat) {
    forall i :: 0 <= i < |ds| ==> lo <= ds[i].bin < hi
  }

  predicate WithinOrFixed(ds: seq<Decision>, lo: nat, hi: nat) {
    forall i :: 0 <= i < |ds| ==> lo <= ds[i].bin < hi || ds[i].bin == FIXED_BIN
  }

  /** A value below 2^(n+1) has at most n bits above its lowest. */
  lemma {:induction false} CategoryRange(st: nat, v: int, n: nat)
    requires 1 <= v < Pow2(n + 1)
    ensures Within(Category(st, v), st, st + n + 1)
    ensures st <= CategoryEnd(st, v) <= st + n
    ensures v >= 2 ==> st < CategoryEnd(st, v)
    decreases v
  {
    if v / 2 != 0 {
      assert n > 0;
      CategoryRange(st + 1, v / 2, n - 1);
    }
  }

  lemma {:induction false} PatternRange(st: nat, m: int, w: int)
    requires 0 <= m
    ensures Within(Pattern(st, m, w), st, st + 1)
    ensures m < 2 ==> Pattern(st, m, w) == []
    decreases m
  {
    if m / 2 != 0 { PatternRange(st, m / 2, w); }
  }

  /** Category bins and pattern bins of one magnitude. The pattern is empty when its top bit is one. */
  lemma MagnitudeRanges(x1: nat, v: int, w: int, n: nat)
    requires 1 <= v < Pow2(n + 1) && 1 <= w && n <= 14
    ensures Within(Category(x1, v), x1, x1 + n + 1)
    ensures Within(Pattern(CategoryEnd(x1, v) + 14, TopBit(w), w), x1 + 14, x1 + n + 15)
    ensures v >= 2 || TopBit(w) == 1 ==> Within(Pattern(CategoryEnd(x1, v) + 14, TopBit(w), w), x1 + 15, x1 + n + 15)
    ensures Within(MagnitudeBits(x1, v, w), x1, x1 + n + 15)
  {
    CategoryRange(x1, v, n);
    PatternRange(CategoryEnd(x1, v) + 14, TopBit(w), w);
    hide Category, CategoryEnd, Pattern, TopBit, Pow2;
  }

  lemma CategoryEndRange(x1: nat, v: int, n: nat)
    requires 1 <= v < Pow2(n + 1)
    ensures x1 <= CategoryEnd(x1, v) <= x1 + n
  {
    CategoryRange(x1, v, n);
  }

  lemma Pow2Of14()
    ensures Pow2(14) == 0x4000 && Pow2(15) == 0x8000
  {
    Pow2Of15();
  }

  /** In DC coding, context and sign bins lie below 20, category bins in 20..34, pattern bins in 35..48. */
  lemma DcBinRanges(area: nat, context: nat, v: int)
    requires Abs(v) <= 0x8000 && context <= 16
    ensures Within(DcDecisions(area, context, v), area, area + DC_BINS_USED)
    ensures var w := Excess(v);
            w >= 1 ==>
              && Within(Category(area + 20, w), area + 20, area + 35)
              && Within(Pattern(CategoryEnd(area + 20, w) + 14, TopBit(w), w), area + 35, area + DC_BINS_USED)
    ensures context + 3 < 20
  {
    hide Category, CategoryEnd, Pattern, TopBit, MagnitudeBits, Pow2;
    var w := Excess(v);
    if w >= 1 {
      Pow2Of14();
      TopBitOfOne();
      MagnitudeRanges(area + 20, w, w, 14);
    }
  }

  lemma TopBitOfOne()
    ensures TopBit(1) == 1
  {
  }

  /** In AC coding, the three bins of a position lie below 189, category bins in the 14 bins from 189 or 217
      on, and pattern bins in the 14 bins after those. */
  lemma AcBinRanges(area: nat, kx: nat, k: nat, w: int)
    requires 1 <= k <= 63 && 0 <= w < 0x8000
    ensures Position(area, k) + 2 < area + 189
    ensures Within(AcMagnitude(area, kx, k, w), area, area + AC_BINS_USED)
    ensures w >= 2 ==>
              var x1 := AcCategoryBin(area, kx, k);
              && Within(Category(x1, w / 2), x1, x1 + 14)
              && Within(Pattern(CategoryEnd(x1, w / 2) + 14, TopBit(w), w), x1 + 14, x1 + 28)
              && (x1 == area + 189 || x1 == area + 217)
  {
    hide Category, CategoryEnd, Pattern, TopBit, MagnitudeBits, Pow2;
    if w >= 2 {
      Pow2Of14();
      MagnitudeRanges(AcCategoryBin(area, kx, k), w / 2, w, 13);
    }
  }

  lemma {:induction false} AcDecisionsRange(s: AcScan, z: Block, k: nat, eobDue: bool)
    requires ValidAcScan(s) && 1 <= k && IsShortBlock(z)
    requires eobDue || k <= LastNonzero(z, s.se, s.al)
    ensures WithinOrFixed(AcDecisions(s, z, LastNonzero(z, s.se, s.al), k, eobDue), s.area, s.area + AC_BINS_USED)
    decreases s.se + 1 - k, if eobDue then 1 else 0
  {
    hide LastNonzero, AcMagnitude, Truncated;
    var ke := LastNonzero(z, s.se, s.al);
    if eobDue {
      if k <= ke { AcDecisionsRange(s, z, k, false); }
    } else if Truncated(z[k], s.al) == 0 {
      AcDecisionsRange(s, z, k + 1, false);
    } else {
      ApproxIsShort(z[k], s.al);
      AcBinRanges(s.area, s.kx, k, Excess(Truncated(z[k], s.al)));
      AcDecisionsRange(s, z, k + 1, true);
    }
  }

  lemma {:induction false} RefineDecisionsRange(s: AcScan, z: Block, kex: nat, k: nat, eobDue: bool)
    requires ValidAcScan(s) && 1 <= k
    requires eobDue || k <= LastNonzero(z, s.se, s.al)
    ensures WithinOrFixed(RefineDecisions(s, z, LastNonzero(z, s.se, s.al), kex, k, eobDue),
                          s.area, s.area + AC_BINS_USED)
    decreases s.se + 1 - k, if eobDue then 1 else 0
  {
    hide LastNonzero, Truncated;
    var ke := LastNonzero(z, s.se, s.al);
    if eobDue {
      if k <= ke { RefineDecisionsRange(s, z, kex, k, false); }
    } else {
      RefineDecisionsRange(s, z, kex, k + 1, Truncated(z[k], s.al) != 0);
    }
  }
}
