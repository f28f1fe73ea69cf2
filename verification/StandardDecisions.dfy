/** The decisions of the arithmetic coder laid out bin by bin, as sections F.1.4 and G.1.3 of ITU-T T.81 describe
    them: which bin each decision of a block uses and what it says, from the coefficients alone. The models of
    ArithModel, which walk through a block step by step, come to the same decisions. */
module StandardDecisions {
  import opened EstimationTable
  import opened ArithCoding
  import opened ArithDecoding
  import opened ArithModel
  import opened ArithRefinement
  import opened ArithScan
  import opened Arithmetic
  import opened PointTransform
  import opened Seqs

  // ---------------------------------------------------------------- magnitudes

  predicate Digit(w: int, i: nat) { w / Pow2(i) % 2 == 1 }

  /** Where the highest bit of `w` stands. */
  function HighestBit(w: int): (n: nat)
    requires 1 <= w
    ensures Pow2(n) <= w < Pow2(n + 1)
  {
    if w == 1 then 0 else HighestBit(w / 2) + 1
  }

  /** `n` true decisions and a false one, each on a bin of its own. */
  function Ladder(st: nat, n: nat): seq<Decision> {
    seq(n + 1, j requires 0 <= j <= n => Decision(st + j, j < n))
  }

  /** The `n` lowest bits of `w` from the highest down, all on one bin. */
  function LowBits(st: nat, w: int, n: nat): seq<Decision> {
    seq(n, i requires 0 <= i < n => Decision(st, Digit(w, n - 1 - i)))
  }

  lemma {:induction false} CategoryIsLadder(st: nat, v: int, n: nat)
    requires Pow2(n) <= v < Pow2(n + 1)
    ensures Category(st, v) == Ladder(st, n) && CategoryEnd(st, v) == st + n && TopBit(v) == Pow2(n)
    decreases n
  {
    if n > 0 {
      CategoryIsLadder(st + 1, v / 2, n - 1);
      assert Ladder(st, n) == [Decision(st, true)] + Ladder(st + 1, n - 1);
    }
  }

  lemma {:induction false} PatternIsLowBits(st: nat, w: int, n: nat)
    ensures Pattern(st, Pow2(n), w) == LowBits(st, w, n)
    decreases n
  {
    if n > 0 {
      PatternIsLowBits(st, w, n - 1);
      assert Pow2(n) / 2 == Pow2(n - 1);
      assert LowBits(st, w, n) == [Decision(st, Digit(w, n - 1))] + LowBits(st, w, n - 1);
    }
  }

  // ---------------------------------------------------------------- DC differences

  /** A difference `v` in the context that starts at bin `context` of the area: zero or not, the sign, whether the
      magnitude exceeds one, then its category from bin 20 on and its bits 14 bins further. */
  function DcCode(area: nat, context: nat, v: int): seq<Decision> {
    if v == 0 then [Decision(area + context, false)]
    else
      [Decision(area + context, true), Decision(area + context + 1, v < 0),
       Decision(area + context + (if v < 0 then 3 else 2), Abs(v) > 1)]
      + if Abs(v) == 1 then [] else
          var n := HighestBit(Abs(v) - 1);
          Ladder(area + 20, n) + LowBits(area + 34 + n, Abs(v) - 1, n)
  }

  lemma DcDecisionsAreStandard(area: nat, context: nat, v: int)
    ensures DcDecisions(area, context, v) == DcCode(area, context, v)
  {
    hide Category, CategoryEnd, Pattern, TopBit, Ladder, LowBits, HighestBit, Pow2;
    if Abs(v) > 1 {
      var w := Abs(v) - 1;
      var n := HighestBit(w);
      CategoryIsLadder(area + 20, w, n);
      PatternIsLowBits(area + 34 + n, w, n);
    }
  }

  /** Section F.1.4.4.1.2: a small difference is one of at most half of 2^L, a large one exceeds 2^U. */
  function Class(b: Bounds, v: int): nat {
    if Abs(v) <= Pow2(b.lower) / 2 then 0
    else if Abs(v) > Pow2(b.upper) then (if v < 0 then 16 else 12)
    else if v < 0 then 8 else 4
  }

  /** The class depends on the size of the difference alone. */
  lemma ContextIsClass(b: Bounds, v: int)
    ensures NextContext(b, v) == Class(b, v)
  {
    if Abs(v) > 1 {
      var w := Abs(v) - 1;
      var n := HighestBit(w);
      CategoryIsLadder(0, w, n);
      ThresholdBelow(w, n, b.lower);
      ThresholdAbove(w, n, b.upper);
      hide TopBit, HighestBit, Pow2;
    }
  }

  lemma ThresholdBelow(w: int, n: nat, k: nat)
    requires Pow2(n) <= w < Pow2(n + 1)
    ensures Pow2(n) < Pow2(k) / 2 <==> w + 1 <= Pow2(k) / 2
  {
    if n + 1 < k { PowersInOrder(n + 1, k); } else if k < n + 1 { PowersInOrder(k, n + 1); }
  }

  lemma ThresholdAbove(w: int, n: nat, k: nat)
    requires Pow2(n) <= w < Pow2(n + 1)
    ensures Pow2(n) > Pow2(k) / 2 <==> w + 1 > Pow2(k)
  {
    if n < k {
      if n + 1 < k { PowersInOrder(n + 1, k); }
    } else if k < n { PowersInOrder(k, n); }
  }

  // ---------------------------------------------------------------- AC coefficients

  /** The sign and the magnitude of a nonzero coefficient `v` at zigzag position `k`. */
  function AcCode(area: nat, kx: nat, k: nat, v: int): seq<Decision>
    requires 1 <= k && v != 0
  {
    var w, st := Abs(v) - 1, area + 3 * (k - 1) + 2;
    [Decision(FIXED_BIN, v < 0), Decision(st, w > 0)]
    + if w == 0 then [] else
        [Decision(st, w > 1)]
        + if w == 1 then [] else
            var n := HighestBit(w);
            Ladder(area + (if k <= kx then 189 else 217), n - 1)
            + LowBits(area + (if k <= kx then 203 else 231) + n - 1, w, n)
  }

  lemma AcCoefficientIsStandard(s: AcScan, v: int, k: nat)
    requires 1 <= k && v != 0
    ensures AcCoefficient(s, v, k) == AcCode(s.area, s.kx, k, v)
  {
    hide Category, CategoryEnd, Pattern, TopBit, Ladder, LowBits, HighestBit, Pow2;
    var w := Abs(v) - 1;
    if w > 1 {
      var n, x1 := HighestBit(w), s.area + if k <= s.kx then 189 else 217;
      HalfHasOneLess(w, n);
      CategoryIsLadder(x1, w / 2, n - 1);
      CategoryIsLadder(0, w, n);
      PatternIsLowBits(x1 + n - 1 + 14, w, n);
    }
  }

  /** Behind the sign and the two decisions of its position, the category decisions of a magnitude of at least
      three lie in the 14 bins from 189 on up to the conditioning value and in the 14 bins from 217 on beyond it,
      and the decisions for its bits 14 bins further. */
  lemma CategoryBinsFollowKx(s: AcScan, v: int, k: nat)
    requires 1 <= k && 3 <= Abs(v) <= 0x8000
    ensures var ds, n := AcCoefficient(s, v, k), HighestBit(Abs(v) - 1);
            && |ds| == 3 + n + n
            && ds[1] == ds[2] == Decision(s.area + 3 * (k - 1) + 2, true)
            && (forall i :: 3 <= i < 3 + n ==>
                  && (s.area + 189 <= ds[i].bin < s.area + 203 <==> k <= s.kx)
                  && (s.area + 217 <= ds[i].bin < s.area + 231 <==> k > s.kx))
            && (forall i :: 3 + n <= i < |ds| ==>
                  && (s.area + 203 <= ds[i].bin < s.area + 217 <==> k <= s.kx)
                  && (s.area + 231 <= ds[i].bin < s.area + 245 <==> k > s.kx))
  {
    hide AcCoefficient, HighestBit, Ladder, LowBits, Pow2;
    var w, x := Abs(v) - 1, s.area + if k <= s.kx then 189 else 217;
    var n, d := HighestBit(w), Decision(s.area + 3 * (k - 1) + 2, true);
    AcCoefficientIsStandard(s, v, k);
    AtMost14(w, n);
    HalfHasOneLess(w, n);
    var head, cat, bits := [Decision(FIXED_BIN, v < 0), d, d], Ladder(x, n - 1), LowBits(x + 14 + n - 1, w, n);
    assert AcCode(s.area, s.kx, k, v) == head + cat + bits;
    hide AcCode;
    LadderBins(x, n - 1);
    LowBitsBins(x + 14 + n - 1, w, n);
    forall i | 3 <= i < 3 + n ensures (head + cat + bits)[i] == cat[i - 3] { }
    forall i | 3 + n <= i < 3 + n + n ensures (head + cat + bits)[i] == bits[i - 3 - n] { }
  }

  lemma LadderBins(st: nat, n: nat)
    ensures |Ladder(st, n)| == n + 1 && forall j :: 0 <= j <= n ==> st <= Ladder(st, n)[j].bin <= st + n
  {
  }

  lemma LowBitsBins(st: nat, w: int, n: nat)
    ensures |LowBits(st, w, n)| == n && forall j :: 0 <= j < n ==> LowBits(st, w, n)[j].bin == st
  {
  }

  lemma AtMost14(w: int, n: nat)
    requires Pow2(n) <= w < 0x8000
    ensures n <= 14
  {
    Pow2Of15();
    PowersInOrder(14, if n > 14 then n else 15);
  }

  lemma HalfHasOneLess(w: int, n: nat)
    requires 2 <= w && Pow2(n) <= w < Pow2(n + 1)
    ensures n >= 1 && Pow2(n - 1) <= w / 2 < Pow2(n)
  {
  }

  /** Whether the coefficient at `k` is preceded by the question for the end of the block. */
  predicate Asked(s: AcScan, z: Block, first: nat, k: nat)
    requires 1 <= k <= 64
  {
    k == first || Truncated(z[k - 1], s.al) != 0
  }

  /** The decisions of one coefficient of a band that starts at `first`: whether the block goes on, asked at the
      start and after every nonzero coefficient; whether the coefficient is zero; and the coefficient itself. */
  function AcPiece(s: AcScan, z: Block, first: nat, k: nat): seq<Decision>
    requires 1 <= first <= k <= 63
  {
    var v, st := Truncated(z[k], s.al), s.area + 3 * (k - 1);
    (if Asked(s, z, first, k) then [Decision(st, false)] else [])
    + [Decision(st + 1, v != 0)]
    + (if v != 0 then AcCode(s.area, s.kx, k, v) else [])
  }

  /** The end of the block behind its last nonzero coefficient, unless the band ends there. */
  function EndCode(s: AcScan, k: nat): seq<Decision>
    requires 1 <= k
  {
    if k <= s.se then [Decision(s.area + 3 * (k - 1), true)] else []
  }

  /** The pieces of the coefficients from `k` to `ke`. */
  function AcPieces(s: AcScan, z: Block, first: nat, k: nat, ke: nat): seq<seq<Decision>>
    requires 1 <= first <= k <= ke + 1 && ke <= 63
  {
    seq(ke + 1 - k, i requires 0 <= i < ke + 1 - k => AcPiece(s, z, first, k + i))
  }

  function AcBlockCode(s: AcScan, z: Block, first: nat): seq<Decision>
    requires ValidAcScan(s) && 1 <= first
  {
    var ke := LastNonzero(z, s.se, s.al);
    if ke < first then EndCode(s, first) else Flat(AcPieces(s, z, first, first, ke)) + EndCode(s, ke + 1)
  }

  lemma AcStep(s: AcScan, z: Block, first: nat, k: nat)
    requires ValidAcScan(s) && 1 <= first <= k <= LastNonzero(z, s.se, s.al)
    ensures var ke := LastNonzero(z, s.se, s.al);
            AcDecisions(s, z, ke, k, Asked(s, z, first, k))
            == AcPiece(s, z, first, k) + AcDecisions(s, z, ke, k + 1, Asked(s, z, first, k + 1))
  {
    var ke, v := LastNonzero(z, s.se, s.al), Truncated(z[k], s.al);
    hide LastNonzero, Truncated, AcCode, AcCoefficient;
    if v != 0 { AcCoefficientIsStandard(s, v, k); }
    var next := AcDecisions(s, z, ke, k + 1, Asked(s, z, first, k + 1));
    var own := [Decision(s.area + 3 * (k - 1) + 1, v != 0)] + if v != 0 then AcCode(s.area, s.kx, k, v) else [];
    assert AcDecisions(s, z, ke, k, false) == own + next;
    var question := if Asked(s, z, first, k) then [Decision(s.area + 3 * (k - 1), false)] else [];
    assert AcPiece(s, z, first, k) == question + own;
    assert AcDecisions(s, z, ke, k, Asked(s, z, first, k)) == question + (own + next) by {
      assert [] + (own + next) == own + next;
    }
    Assoc(question, own, next);
  }

  lemma AcFirstPiece(s: AcScan, z: Block, first: nat, k: nat, ke: nat)
    requires 1 <= first <= k <= ke <= 63
    ensures Flat(AcPieces(s, z, first, k, ke)) == AcPiece(s, z, first, k) + Flat(AcPieces(s, z, first, k + 1, ke))
  {
    hide AcPiece;
    var pieces := AcPieces(s, z, first, k, ke);
    assert pieces[0] == AcPiece(s, z, first, k) && pieces[1..] == AcPieces(s, z, first, k + 1, ke);
  }

  lemma {:induction false} AcDecisionsAre(s: AcScan, z: Block, first: nat, k: nat)
    requires ValidAcScan(s) && 1 <= first <= k <= LastNonzero(z, s.se, s.al) + 1
    requires k <= LastNonzero(z, s.se, s.al) || Asked(s, z, first, k)
    ensures var ke := LastNonzero(z, s.se, s.al);
            AcDecisions(s, z, ke, k, Asked(s, z, first, k)) == Flat(AcPieces(s, z, first, k, ke)) + EndCode(s, ke + 1)
    decreases s.se + 1 - k
  {
    hide LastNonzero, Truncated, AcPiece, AcCoefficient;
    var ke := LastNonzero(z, s.se, s.al);
    if k > ke {
      assert AcPieces(s, z, first, k, ke) == [];
      assert [] + EndCode(s, ke + 1) == EndCode(s, ke + 1);
    } else {
      AcDecisionsAre(s, z, first, k + 1);
      AcStep(s, z, first, k);
      AcFirstPiece(s, z, first, k, ke);
      hide AcDecisions, AcPieces, EndCode, Asked, AcPiece;
      Assoc(AcPiece(s, z, first, k), Flat(AcPieces(s, z, first, k + 1, ke)), EndCode(s, ke + 1));
    }
  }

  /** The band of a block is coded piece by piece. */
  lemma AcBandIsStandard(s: AcScan, z: Block, first: nat)
    requires ValidAcScan(s) && 1 <= first
    ensures AcDecisions(s, z, LastNonzero(z, s.se, s.al), first, true) == AcBlockCode(s, z, first)
  {
    hide LastNonzero, AcPieces;
    var ke := LastNonzero(z, s.se, s.al);
    if first <= ke { AcDecisionsAre(s, z, first, first); }
  }

  // ---------------------------------------------------------------- refinement of AC coefficients

  /** A coefficient of a refined band: the block is asked to go on only behind `kex`, the last coefficient that was
      nonzero before; one that was nonzero sends its next bit, any other one whether it arrives, and its sign. */
  function RefinePiece(s: AcScan, z: Block, kex: nat, first: nat, k: nat): seq<Decision>
    requires 1 <= first <= k <= 63
  {
    var v, st := Truncated(z[k], s.al), s.area + 3 * (k - 1);
    (if Asked(s, z, first, k) && k > kex then [Decision(st, false)] else [])
    + if Abs(v) >= 2 then [Decision(st + 2, Digit(Abs(v), 0))]
      else [Decision(st + 1, v != 0)] + if v == 0 then [] else [Decision(FIXED_BIN, v < 0)]
  }

  function RefinePieces(s: AcScan, z: Block, kex: nat, first: nat, k: nat, ke: nat): seq<seq<Decision>>
    requires 1 <= first <= k <= ke + 1 && ke <= 63
  {
    seq(ke + 1 - k, i requires 0 <= i < ke + 1 - k => RefinePiece(s, z, kex, first, k + i))
  }

  /** A refined block, whose coefficients were known without their bits below `ah` before. */
  function RefineBlockCode(s: AcScan, ah: nat, z: Block, first: nat): seq<Decision>
    requires ValidAcScan(s) && 1 <= first
  {
    var ke := LastNonzero(z, s.se, s.al);
    if ke < first then EndCode(s, first)
    else Flat(RefinePieces(s, z, LastNonzero(z, ke, ah), first, first, ke)) + EndCode(s, ke + 1)
  }

  lemma RefinementIsStandard(s: AcScan, v: int, k: nat)
    requires 1 <= k
    ensures var st := s.area + 3 * (k - 1);
            (if v == 0 then [Decision(st + 1, false)] else Refinement(s, v, k))
            == if Abs(v) >= 2 then [Decision(st + 2, Digit(Abs(v), 0))]
               else [Decision(st + 1, v != 0)] + if v == 0 then [] else [Decision(FIXED_BIN, v < 0)]
  {
    assert Pow2(0) == 1;
  }

  lemma RefineStep(s: AcScan, z: Block, kex: nat, first: nat, k: nat)
    requires ValidAcScan(s) && 1 <= first <= k <= LastNonzero(z, s.se, s.al)
    ensures var ke := LastNonzero(z, s.se, s.al);
            RefineDecisions(s, z, ke, kex, k, Asked(s, z, first, k))
            == RefinePiece(s, z, kex, first, k) + RefineDecisions(s, z, ke, kex, k + 1, Asked(s, z, first, k + 1))
  {
    var ke, v := LastNonzero(z, s.se, s.al), Truncated(z[k], s.al);
    RefinementIsStandard(s, v, k);
    hide LastNonzero, Truncated, Refinement, Digit;
    var next := RefineDecisions(s, z, ke, kex, k + 1, Asked(s, z, first, k + 1));
    var own := if v == 0 then [Decision(s.area + 3 * (k - 1) + 1, false)] else Refinement(s, v, k);
    assert RefineDecisions(s, z, ke, kex, k, false) == own + next;
    var question := if Asked(s, z, first, k) && k > kex then [Decision(s.area + 3 * (k - 1), false)] else [];
    assert RefinePiece(s, z, kex, first, k) == question + own;
    assert RefineDecisions(s, z, ke, kex, k, Asked(s, z, first, k)) == question + (own + next) by {
      assert [] + (own + next) == own + next;
    }
    Assoc(question, own, next);
  }

  lemma RefineFirstPiece(s: AcScan, z: Block, kex: nat, first: nat, k: nat, ke: nat)
    requires 1 <= first <= k <= ke <= 63
    ensures Flat(RefinePieces(s, z, kex, first, k, ke)) == RefinePiece(s, z, kex, first, k) + Flat(RefinePieces(s, z, kex, first, k + 1, ke))
  {
    hide RefinePiece;
    var pieces := RefinePieces(s, z, kex, first, k, ke);
    assert pieces[0] == RefinePiece(s, z, kex, first, k) && pieces[1..] == RefinePieces(s, z, kex, first, k + 1, ke);
  }

  lemma {:induction false} RefineDecisionsAre(s: AcScan, z: Block, kex: nat, first: nat, k: nat)
    requires ValidAcScan(s) && 1 <= first <= k <= LastNonzero(z, s.se, s.al) + 1
    requires k <= LastNonzero(z, s.se, s.al) || Asked(s, z, first, k)
    ensures var ke := LastNonzero(z, s.se, s.al);
            RefineDecisions(s, z, ke, kex, k, Asked(s, z, first, k))
            == Flat(RefinePieces(s, z, kex, first, k, ke)) + EndCode(s, ke + 1)
    decreases s.se + 1 - k
  {
    hide LastNonzero, Truncated, RefinePiece;
    var ke := LastNonzero(z, s.se, s.al);
    if k > ke {
      assert RefinePieces(s, z, kex, first, k, ke) == [];
      assert [] + EndCode(s, ke + 1) == EndCode(s, ke + 1);
    } else {
      hide RefineDecisions;
      RefineDecisionsAre(s, z, kex, first, k + 1);
      RefineStep(s, z, kex, first, k);
      RefineFirstPiece(s, z, kex, first, k, ke);
      hide RefinePieces, EndCode, Asked;
      Assoc(RefinePiece(s, z, kex, first, k), Flat(RefinePieces(s, z, kex, first, k + 1, ke)), EndCode(s, ke + 1));
    }
  }

  lemma RefinedBandIsStandard(s: AcScan, ah: nat, z: Block, first: nat)
    requires ValidAcScan(s) && 1 <= first
    ensures var ke := LastNonzero(z, s.se, s.al);
            RefineDecisions(s, z, ke, LastNonzero(z, ke, ah), first, true) == RefineBlockCode(s, ah, z, first)
  {
    hide LastNonzero, RefinePieces;
    var ke := LastNonzero(z, s.se, s.al);
    if first <= ke { RefineDecisionsAre(s, z, LastNonzero(z, ke, ah), first, first); }
  }

  // ---------------------------------------------------------------- restart intervals

  /** The last block of component `ci` among the first `n`, -1 if there is none. */
  function Latest(us: seq<Unit>, n: nat, ci: nat): (j: int)
    requires n <= |us|
    ensures -1 <= j < n && (j >= 0 ==> us[j].ci == ci)
    ensures forall i :: j < i < n ==> us[i].ci != ci
  {
    if n == 0 then -1 else if us[n - 1].ci == ci then n - 1 else Latest(us, n - 1, ci)
  }

  /** The DC value at the precision of the scan, shifted arithmetically. */
  function DcOf(sc: ScanParams, z: Block): int { z[0] / Pow2(if sc.progressive then sc.al else 0) }

  /** The value that is predicted for a block of component `ci` behind the first `n`. */
  function Predicted(sc: ScanParams, us: seq<Unit>, n: nat, ci: nat): int
    requires n <= |us|
  {
    var j := Latest(us, n, ci);
    if j < 0 then 0 else DcOf(sc, us[j].z)
  }

  function Difference(sc: ScanParams, us: seq<Unit>, i: nat): int
    requires i < |us|
  {
    DcOf(sc, us[i].z) - Predicted(sc, us, i, us[i].ci)
  }

  /** The class of the difference before, in the same component of the same interval. */
  function ContextBefore(sc: ScanParams, us: seq<Unit>, n: nat, ci: nat): nat
    requires n <= |us| && ci < |sc.comps|
  {
    var j := Latest(us, n, ci);
    if j < 0 then 0 else Class(sc.comps[ci].bounds, Difference(sc, us, j))
  }

  /** The band of a component; its AC areas come behind the sixteen DC areas. */
  function Band(sc: ScanParams, ci: nat): AcScan
    requires ci < |sc.comps|
  {
    var t := sc.comps[ci];
    if sc.progressive then AcScan(sc.se, sc.al, 1024 + 256 * t.acTbl, t.kx)
    else AcScan(sc.limSe, 0, 1024 + 256 * t.acTbl, t.kx)
  }

  /** The decisions of block `i` of an interval. */
  function UnitCode(sc: ScanParams, us: seq<Unit>, i: nat): seq<Decision>
    requires ValidScan(sc) && ValidUnits(sc, us) && i < |us|
  {
    var ci, z := us[i].ci, us[i].z;
    var dc := DcCode(64 * sc.comps[ci].dcTbl, ContextBefore(sc, us, i, ci), Difference(sc, us, i));
    if !sc.progressive then dc + AcBlockCode(Band(sc, ci), z, 1)
    else if sc.ss == 0 then (if sc.ah == 0 then dc else [Decision(FIXED_BIN, Digit(z[0], sc.al))])
    else if sc.ah == 0 then AcBlockCode(Band(sc, ci), z, sc.ss)
    else RefineBlockCode(Band(sc, ci), sc.ah, z, sc.ss)
  }

  /** A whole restart interval, block by block. */
  function IntervalCode(sc: ScanParams, us: seq<Unit>): seq<Decision>
    requires ValidScan(sc) && ValidUnits(sc, us)
  {
    Flat(seq(|us|, i requires 0 <= i < |us| => UnitCode(sc, us, i)))
  }

  /** What comes before block `n` does not depend on what comes after it. */
  lemma {:induction false} LatestStays(us: seq<Unit>, more: seq<Unit>, n: nat, ci: nat)
    requires n <= |us|
    ensures Latest(us + more, n, ci) == Latest(us, n, ci)
    decreases n
  {
    if n > 0 { LatestStays(us, more, n - 1, ci); }
  }

  lemma PredictionsStayStandard(sc: ScanParams, us: seq<Unit>, u: Unit, n: nat, ci: nat)
    requires n <= |us| && ci < |sc.comps|
    ensures Predicted(sc, us + [u], n, ci) == Predicted(sc, us, n, ci)
    ensures n < |us| ==> Difference(sc, us + [u], n) == Difference(sc, us, n)
    ensures ContextBefore(sc, us + [u], n, ci) == ContextBefore(sc, us, n, ci)
  {
    hide DcOf, Class;
    LatestStays(us, [u], n, ci);
    if n < |us| { LatestStays(us, [u], n, us[n].ci); }
    var j := Latest(us, n, ci);
    if j >= 0 { LatestStays(us, [u], j, us[j].ci); }
  }

  lemma UnitCodeStays(sc: ScanParams, us: seq<Unit>, u: Unit, i: nat)
    requires ValidScan(sc) && ValidUnits(sc, us + [u]) && i < |us|
    ensures ValidUnits(sc, us) && UnitCode(sc, us + [u], i) == UnitCode(sc, us, i)
  {
    hide DcCode, AcBlockCode, RefineBlockCode, Predicted, Difference, ContextBefore;
    assert forall k :: 0 <= k < |us| ==> us[k] == (us + [u])[k];
    PredictionsStayStandard(sc, us, u, i, us[i].ci);
  }

  /** The predictions that the encoder keeps are the values and the classes of the latest blocks. */
  ghost predicate Keeps(sc: ScanParams, us: seq<Unit>, p: Predictions)
    requires ValidPredictions(sc, p)
  {
    CodesDcDifferences(sc) ==>
      forall ci :: 0 <= ci < |sc.comps| ==>
        p.lastDc[ci] == Predicted(sc, us, |us|, ci) && p.context[ci] == ContextBefore(sc, us, |us|, ci)
  }

  lemma NextKeeps(sc: ScanParams, us: seq<Unit>, p: Predictions, u: Unit)
    requires ValidScan(sc) && ValidPredictions(sc, p) && u.ci < |sc.comps| && Keeps(sc, us, p)
    ensures Keeps(sc, us + [u], NextPredictions(sc, p, u))
  {
    if CodesDcDifferences(sc) {
      assert DcOf(sc, u.z) == DcValue(sc, u.z);
      PredictionsStayStandard(sc, us, u, |us|, u.ci);
      ContextIsClass(sc.comps[u.ci].bounds, Difference(sc, us + [u], |us|));
      hide Class, NextContext, DcOf, DcValue, ValidScan, Predicted, ContextBefore, Difference;
      forall ci | 0 <= ci < |sc.comps|
        ensures NextPredictions(sc, p, u).lastDc[ci] == Predicted(sc, us + [u], |us| + 1, ci)
        ensures NextPredictions(sc, p, u).context[ci] == ContextBefore(sc, us + [u], |us| + 1, ci)
      {
        PredictedNext(sc, us, u, ci);
      }
    }
  }

  /** Behind one more block, its component is predicted from it, and the others as before. */
  lemma PredictedNext(sc: ScanParams, us: seq<Unit>, u: Unit, ci: nat)
    requires ci < |sc.comps|
    ensures var all, n := us + [u], |us|;
            && Predicted(sc, all, n + 1, ci) == (if ci == u.ci then DcOf(sc, u.z) else Predicted(sc, us, n, ci))
            && ContextBefore(sc, all, n + 1, ci)
               == (if ci == u.ci then Class(sc.comps[ci].bounds, Difference(sc, all, n)) else ContextBefore(sc, us, n, ci))
  {
    hide DcOf, Class;
    var all, n := us + [u], |us|;
    PredictionsStayStandard(sc, us, u, n, ci);
    assert Latest(all, n + 1, ci) == if ci == u.ci then n else Latest(all, n, ci);
    hide Difference;
  }

  lemma UnitIsStandard(sc: ScanParams, us: seq<Unit>, p: Predictions, u: Unit)
    requires ValidScan(sc) && ValidPredictions(sc, p) && ValidUnits(sc, us + [u]) && Keeps(sc, us, p)
    ensures u == (us + [u])[|us|] && u.ci < |sc.comps|
    ensures WriteUnit(sc, p, u) == UnitCode(sc, us + [u], |us|)
  {
    hide Pow2, DcDecisions, DcCode, AcDecisions, AcBlockCode, RefineDecisions, RefineBlockCode, LastNonzero, Predicted,
         ContextBefore;
    var n := |us|;
    assert u == (us + [u])[n];
    var s := AcPart(sc, u.ci);
    assert s == Band(sc, u.ci);
    if CodesDcDifferences(sc) {
      PredictionsStayStandard(sc, us, u, n, u.ci);
      DcDecisionsAreStandard(DcArea(sc.comps[u.ci].dcTbl), p.context[u.ci], DcValue(sc, u.z) - p.lastDc[u.ci]);
    }
    AcBandIsStandard(s, u.z, if sc.progressive && sc.ss > 0 then sc.ss else 1);
    RefinedBandIsStandard(s, sc.ah, u.z, if sc.ss > 0 then sc.ss else 1);
  }

  /** The interval that the encoder writes, with the predictions it keeps, is the standard's. */
  lemma {:induction false} IntervalIsStandard(sc: ScanParams, us: seq<Unit>)
    requires ValidScan(sc) && ValidUnits(sc, us)
    ensures Keeps(sc, us, AfterUnits(sc, ResetPredictions(sc), us))
    ensures WriteUnits(sc, ResetPredictions(sc), us) == IntervalCode(sc, us)
    decreases |us|
  {
    hide UnitCode, WriteUnit, NextPredictions;
    var p := ResetPredictions(sc);
    if us != [] {
      var n := |us| - 1;
      var init, u := us[..n], us[n];
      assert us == init + [u];
      IntervalIsStandard(sc, init);
      UnitsSnoc(sc, p, init, u);
      NextKeeps(sc, init, AfterUnits(sc, p, init), u);
      UnitIsStandard(sc, init, AfterUnits(sc, p, init), u);
      var codes := seq(n, i requires 0 <= i < n => UnitCode(sc, init, i));
      forall i | 0 <= i < n ensures UnitCode(sc, us, i) == UnitCode(sc, init, i) {
        UnitCodeStays(sc, init, u, i);
      }
      assert seq(|us|, i requires 0 <= i < |us| => UnitCode(sc, us, i)) == codes + [UnitCode(sc, us, n)];
      FlatSnoc(codes, UnitCode(sc, us, n));
    }
  }

  /** A decoder that is given the decisions of the standard finds the coefficients and the predictions of the
      encoder. */
  lemma StandardIntervalIsRead(sc: ScanParams, us: seq<Unit>, r: DecRun, bs: seq<Block>, tail: Ending)
    requires ValidScan(sc) && ValidInterval(sc, us) && AllPrimed(sc, us, bs)
    requires Feeding(r, IntervalCode(sc, us), tail)
    ensures Readable(r)
    ensures var x := ReadUnits(sc, ResetPredictions(sc), r, Components(us), bs);
            && x.Got? && Feeding(x.r, [], tail)
            && x.v.1 == AllImproved(sc, us, bs) && Keeps(sc, us, x.v.0)
  {
    hide ValidScan, Feeding, Readable, ReadUnits, IntervalCode, WriteUnits, AfterUnits, ResetPredictions, Keeps;
    IntervalIsStandard(sc, us);
    UnitsRead(sc, ResetPredictions(sc), us, r, bs, tail);
  }

  // ---------------------------------------------------------------- restarts

  /** A bin in the area of a table that the scan uses: a DC table where differences are coded, an AC table where
      the band goes beyond the DC coefficient. */
  ghost predicate InUsedArea(sc: ScanParams, n: nat, b: nat)
    requires n <= |sc.comps|
  {
    exists ci :: 0 <= ci < n &&
      var t := sc.comps[ci];
      || (sc.ss == 0 && sc.ah == 0 && 64 * t.dcTbl <= b < 64 * t.dcTbl + 64)
      || (sc.se != 0 && 1024 + 256 * t.acTbl <= b < 1024 + 256 * t.acTbl + 256)
  }

  lemma {:induction false} ResetStatsAre(sc: ScanParams, bins: seq<Stat>, n: nat, b: nat)
    requires n <= |sc.comps| && b < |bins|
    ensures ResetStats(sc, EncoderResetsDc(sc), EncoderResetsAc(sc), bins, n)[b]
            == if InUsedArea(sc, n, b) then 0 else bins[b]
    decreases n
  {
    if n > 0 {
      ResetStatsAre(sc, bins, n - 1, b);
    }
  }

  /** A restart, on both sides, sets the bins of the areas in use to zero, and no others. */
  lemma RestartClearsUsedAreas(sc: ScanParams, bins: seq<Stat>, b: nat)
    requires ValidScan(sc) && b < |bins|
    ensures EncoderReset(sc, bins)[b] == DecoderReset(sc, bins)[b]
            == if InUsedArea(sc, |sc.comps|, b) then 0 else bins[b]
  {
    hide ResetStats, InUsedArea;
    ResetStatsAre(sc, bins, |sc.comps|, b);
    SameReset(sc, bins);
  }

  // ---------------------------------------------------------------- corrupt data

  /** Whatever decisions are read, no coefficient outside the band changes. */
  lemma {:induction false} BandOnly(s: AcScan, r: DecRun, z: Block, k: nat, eobDue: bool, j: nat)
    requires ValidAcScan(s) && Readable(r) && 1 <= k && (eobDue || k <= s.se)
    requires j < 64 && (j < k || j > s.se)
    ensures var x := ReadAc(s, r, z, k, eobDue); x.Got? ==> x.v[j] == z[j]
    decreases s.se + 1 - k, if eobDue then 1 else 0
  {
    hide ReadBit, Readable, ReadAcCoefficient;
    if eobDue {
      if k <= s.se {
        var x := ReadBit(r, Position(s.area, k));
        if x.Got? && !x.v { BandOnly(s, x.r, z, k, false, j); }
      }
    } else {
      var x := ReadBit(r, Position(s.area, k) + 1);
      if x.Got? {
        if x.v {
          var y := ReadAcCoefficient(s, x.r, k);
          if y.Got? { BandOnly(s, y.r, z[k := y.v], k + 1, true, j); }
        } else if k + 1 <= s.se {
          BandOnly(s, x.r, z, k + 1, false, j);
        }
      }
    }
  }

  lemma {:induction false} RefinedBandOnly(s: AcScan, r: DecRun, b: Block, kex: nat, k: nat, eobDue: bool, j: nat)
    requires ValidAcScan(s) && Readable(r) && 1 <= k && (eobDue || k <= s.se)
    requires j < 64 && (j < k || j > s.se)
    ensures var x := ReadRefine(s, r, b, kex, k, eobDue); x.Got? ==> x.v[j] == b[j]
    decreases s.se + 1 - k, if eobDue then 1 else 0
  {
    hide ReadBit, Readable, ReadRefinement;
    if eobDue {
      if k <= s.se {
        if k > kex {
          var x := ReadBit(r, Position(s.area, k));
          if x.Got? && !x.v { RefinedBandOnly(s, x.r, b, kex, k, false, j); }
        } else {
          RefinedBandOnly(s, r, b, kex, k, false, j);
        }
      }
    } else {
      var x := ReadRefinement(s, r, b[k], k);
      if x.Got? {
        if x.v.Some? {
          RefinedBandOnly(s, x.r, b[k := x.v.value], kex, k + 1, true, j);
        } else if k + 1 <= s.se {
          RefinedBandOnly(s, x.r, b, kex, k + 1, false, j);
        }
      }
    }
  }

  /** Reading a block of any scan, from whatever bits, changes only the coefficients that the scan is for. */
  lemma OnlyTheScansCoefficients(sc: ScanParams, p: Predictions, r: DecRun, ci: nat, b: Block, j: nat)
    requires ValidScan(sc) && ValidPredictions(sc, p) && Readable(r) && ci < |sc.comps|
    requires j < 64 && (if sc.progressive then j < sc.ss || j > sc.se else j > sc.limSe)
    ensures var x := ReadUnit(sc, p, r, ci, b); x.Got? ==> x.v.1[j] == b[j]
  {
    hide Readable, ReadDc, ReadAc, ReadRefine, ReadDcBit, Short;
    var s := AcPart(sc, ci);
    if !sc.progressive {
      var x := ReadDcValue(sc, p, r, ci, b);
      if x.Got? { BandOnly(s, x.r, x.v.1, 1, true, j); }
    } else if sc.ss > 0 && sc.ah == 0 {
      BandOnly(s, r, b, sc.ss, true, j);
    } else if sc.ss > 0 {
      RefinedBandOnly(s, r, b, LastSet(b, s.se), sc.ss, true, j);
    }
  }
}
