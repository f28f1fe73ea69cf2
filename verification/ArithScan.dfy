/** Whole scans of the arithmetic coder: blocks of several components, DC prediction, restart intervals, from
    coefficients to bytes and back (jcarith.c, jdarith.c). */
module ArithScan {
  import opened Limits
  import opened EstimationTable
  import opened Bytes
  import opened Wrappers
  import opened Markers
  import opened ArithCoding
  import opened ArithDecoding
  import opened ArithBins
  import opened ArithModel
  import opened ArithRefinement
  import opened Arithmetic
  import opened PointTransform
  import opened Seqs

  // ---------------------------------------------------------------- scan parameters

  /** The tables of one component of the scan. */
  datatype CompTables = CompTables(dcTbl: nat, acTbl: nat, bounds: Bounds, kx: nat)

  datatype ScanParams = ScanParams(progressive: bool, ss: nat, se: nat, ah: nat, al: nat, limSe: nat,
                                   comps: seq<CompTables>)

  /** The parameters that script validation and the decoder's own checks let through. */
  predicate ValidScan(sc: ScanParams) {
    && (forall ci :: 0 <= ci < |sc.comps| ==>
          sc.comps[ci].dcTbl < NUM_ARITH_TBLS && sc.comps[ci].acTbl < NUM_ARITH_TBLS)
    && sc.limSe <= 63
    && (!sc.progressive ==> sc.ss == 0 && sc.se == sc.limSe && sc.ah == 0 && sc.al == 0)
    && (sc.progressive ==>
          && sc.ss <= sc.se <= 63
          && (sc.ss == 0 ==> sc.se == 0)
          && (sc.ah != 0 ==> sc.al + 1 == sc.ah)
          && sc.al <= 13)
  }

  /** One block and the scan component it belongs to. */
  datatype Unit = Unit(ci: nat, z: Block)

  /** DC predictions and conditioning contexts, by scan component. */
  datatype Predictions = Predictions(lastDc: seq<int>, context: seq<nat>)

  predicate ValidPredictions(sc: ScanParams, p: Predictions) {
    |p.lastDc| == |sc.comps| == |p.context| && forall ci :: 0 <= ci < |sc.comps| ==> p.context[ci] <= 16
  }

  function ResetPredictions(sc: ScanParams): (p: Predictions)
    ensures ValidPredictions(sc, p)
  {
    Predictions(seq(|sc.comps|, _ => 0), seq(|sc.comps|, _ => 0))
  }

  function AcPart(sc: ScanParams, ci: nat): (s: AcScan)
    requires ValidScan(sc) && ci < |sc.comps|
    ensures ValidAcScan(s)
  {
    AcScan(if sc.progressive then sc.se else sc.limSe, if sc.progressive then sc.al else 0,
           AcArea(sc.comps[ci].acTbl), sc.comps[ci].kx)
  }

  predicate CodesDcDifferences(sc: ScanParams) { !sc.progressive || (sc.ss == 0 && sc.ah == 0) }

  function DcShift(sc: ScanParams): nat { if sc.progressive then sc.al else 0 }

  /** The value whose differences are coded. */
  function DcValue(sc: ScanParams, z: Block): int { z[0] / Pow2(DcShift(sc)) }

  // ---------------------------------------------------------------- writing

  function WriteDc(sc: ScanParams, p: Predictions, u: Unit): seq<Decision>
    requires ValidPredictions(sc, p) && u.ci < |sc.comps|
  {
    DcDecisions(DcArea(sc.comps[u.ci].dcTbl), p.context[u.ci], DcValue(sc, u.z) - p.lastDc[u.ci])
  }

  function NextPredictions(sc: ScanParams, p: Predictions, u: Unit): (p': Predictions)
    requires ValidPredictions(sc, p) && u.ci < |sc.comps|
    ensures ValidPredictions(sc, p')
  {
    if CodesDcDifferences(sc) then
      var m := DcValue(sc, u.z);
      Predictions(p.lastDc[u.ci := m],
                  p.context[u.ci := NextContext(sc.comps[u.ci].bounds, m - p.lastDc[u.ci])])
    else p
  }

  function WriteAc(sc: ScanParams, u: Unit): seq<Decision>
    requires ValidScan(sc) && u.ci < |sc.comps| && (sc.progressive ==> sc.ss > 0)
  {
    var s := AcPart(sc, u.ci);
    AcDecisions(s, u.z, LastNonzero(u.z, s.se, s.al), if sc.progressive then sc.ss else 1, true)
  }

  function WriteRefinement(sc: ScanParams, u: Unit): seq<Decision>
    requires ValidScan(sc) && sc.progressive && sc.ss > 0 && u.ci < |sc.comps|
  {
    var s := AcPart(sc, u.ci);
    var ke := LastNonzero(u.z, s.se, s.al);
    RefineDecisions(s, u.z, ke, LastNonzero(u.z, ke, sc.ah), sc.ss, true)
  }

  function WriteUnit(sc: ScanParams, p: Predictions, u: Unit): seq<Decision>
    requires ValidScan(sc) && ValidPredictions(sc, p) && u.ci < |sc.comps|
  {
    if !sc.progressive then WriteDc(sc, p, u) + WriteAc(sc, u)
    else if sc.ah == 0 then (if sc.ss == 0 then WriteDc(sc, p, u) else WriteAc(sc, u))
    else if sc.ss == 0 then DcBit(u.z[0], sc.al)
    else WriteRefinement(sc, u)
  }

  // ---------------------------------------------------------------- reading

  function ReadDcValue(sc: ScanParams, p: Predictions, r: DecRun, ci: nat, b: Block): (x: Read<(Predictions, Block)>)
    requires ValidScan(sc) && ValidPredictions(sc, p) && Readable(r) && ci < |sc.comps|
    ensures x.Got? ==> Readable(x.r) && ValidPredictions(sc, x.v.0)
  {
    hide ReadDc, Readable, Short;
    var t := sc.comps[ci];
    var (r1, v) :- ReadDc(r, DcArea(t.dcTbl), t.bounds, p.context[ci]);
    var dc := p.lastDc[ci] + v.0;
    Got(r1, (Predictions(p.lastDc[ci := dc], p.context[ci := v.1]), b[0 := Short(dc * Pow2(DcShift(sc)))]))
  }

  function ReadUnit(sc: ScanParams, p: Predictions, r: DecRun, ci: nat, b: Block): (x: Read<(Predictions, Block)>)
    requires ValidScan(sc) && ValidPredictions(sc, p) && Readable(r) && ci < |sc.comps|
    ensures x.Got? ==> Readable(x.r) && ValidPredictions(sc, x.v.0)
  {
    hide ReadDcValue, ReadAc, ReadRefine, ReadDcBit, Readable;
    if !sc.progressive then
      var (r1, x) :- ReadDcValue(sc, p, r, ci, b);
      var (r2, b2) :- ReadAc(AcPart(sc, ci), r1, x.1, 1, true);
      Got(r2, (x.0, b2))
    else if sc.ah == 0 then
      if sc.ss == 0 then ReadDcValue(sc, p, r, ci, b)
      else
        var (r1, b1) :- ReadAc(AcPart(sc, ci), r, b, sc.ss, true);
        Got(r1, (p, b1))
    else if sc.ss == 0 then
      var (r1, dc) :- ReadDcBit(r, b[0], sc.al);
      Got(r1, (p, b[0 := dc]))
    else
      var s := AcPart(sc, ci);
      var (r1, b1) :- ReadRefine(s, r, b, LastSet(b, s.se), sc.ss, true);
      Got(r1, (p, b1))
  }

  // ---------------------------------------------------------------- one block

  /** What the decoder must hold before the scan: zeros where a band starts, the previous approximation where
      it is refined. A DC scan can be read into anything. */
  predicate Primed(sc: ScanParams, z: Block, b: Block)
    requires ValidScan(sc)
  {
    if !sc.progressive then forall j :: 1 <= j <= sc.limSe ==> b[j] == 0
    else if sc.ss == 0 then true
    else if sc.ah == 0 then forall j :: sc.ss <= j <= sc.se ==> b[j] == 0
    else forall j :: sc.ss <= j <= sc.se ==> b[j] == Approx(z[j], sc.ah)
  }

  /** What the decoder holds after the scan. */
  function Improved(sc: ScanParams, z: Block, b: Block): Block
    requires ValidScan(sc)
  {
    if !sc.progressive then seq(64, j requires 0 <= j < 64 => if j <= sc.limSe then z[j] else b[j])
    else if sc.ss == 0 then b[0 := if sc.ah == 0 then DcApprox(z[0], sc.al) else RefinedDc(b[0], z[0], sc.al)]
    else seq(64, j requires 0 <= j < 64 => if sc.ss <= j <= sc.se then Approx(z[j], sc.al) else b[j])
  }

  predicate DifferenceInRange(sc: ScanParams, p: Predictions, u: Unit)
    requires ValidPredictions(sc, p) && u.ci < |sc.comps|
  {
    CodesDcDifferences(sc) ==> Abs(DcValue(sc, u.z) - p.lastDc[u.ci]) <= 0x8000
  }

  lemma AreasExist(sc: ScanParams, ci: nat)
    requires ValidScan(sc) && ci < |sc.comps|
    ensures DcArea(sc.comps[ci].dcTbl) + DC_STAT_BINS <= NUM_BINS
  {
  }

  lemma DcValueReads(sc: ScanParams, p: Predictions, u: Unit, r: DecRun, b: Block, rest: seq<Decision>, tail: Ending)
    requires ValidScan(sc) && ValidPredictions(sc, p) && u.ci < |sc.comps|
    requires CodesDcDifferences(sc) && DifferenceInRange(sc, p, u) && IsShortBlock(u.z)
    requires Feeding(r, WriteDc(sc, p, u) + rest, tail)
    ensures Readable(r)
    ensures var x := ReadDcValue(sc, p, r, u.ci, b);
            && x.Got? && Feeding(x.r, rest, tail)
            && x.v == (NextPredictions(sc, p, u), b[0 := DcApprox(u.z[0], DcShift(sc))])
  {
    hide Feeding, Readable, DcDecisions, ReadDc, Short, NextContext, Pow2;
    var t, v := sc.comps[u.ci], DcValue(sc, u.z) - p.lastDc[u.ci];
    AreasExist(sc, u.ci);
    DcReads(r, DcArea(t.dcTbl), t.bounds, p.context[u.ci], v, rest, tail);
    DcApproxIsShort(u.z[0], DcShift(sc));
  }

  /** Every kind of scan gives a block back to the precision of the scan, and moves the predictions as the
      encoder does. */
  lemma UnitReads(sc: ScanParams, p: Predictions, u: Unit, r: DecRun, b: Block, rest: seq<Decision>, tail: Ending)
    requires ValidScan(sc) && ValidPredictions(sc, p) && u.ci < |sc.comps|
    requires DifferenceInRange(sc, p, u) && IsShortBlock(u.z) && Primed(sc, u.z, b)
    requires Feeding(r, WriteUnit(sc, p, u) + rest, tail)
    ensures Readable(r)
    ensures var x := ReadUnit(sc, p, r, u.ci, b);
            && x.Got? && Feeding(x.r, rest, tail)
            && x.v == (NextPredictions(sc, p, u), Improved(sc, u.z, b))
  {
    hide Feeding, Readable, ReadDcValue, ReadAc, ReadRefine, ReadDcBit, WriteDc, WriteAc, DcBit, RefineDecisions,
         AcDecisions, Approx, DcApprox, RefinedDc, LastSet, LastNonzero, Approximated, NextPredictions;
    if !sc.progressive {
      SequentialUnitReads(sc, p, u, r, b, rest, tail);
    } else if sc.ah == 0 && sc.ss == 0 {
      DcValueReads(sc, p, u, r, b, rest, tail);
    } else if sc.ah == 0 {
      AcUnitReads(sc, u, r, b, rest, tail);
      NoDcNoPrediction(sc, p, u);
    } else if sc.ss == 0 {
      DcBitReads(r, b[0], u.z[0], sc.al, rest, tail);
      NoDcNoPrediction(sc, p, u);
    } else {
      RefineUnitReads(sc, u, r, b, rest, tail);
      NoDcNoPrediction(sc, p, u);
    }
  }

  lemma NoDcNoPrediction(sc: ScanParams, p: Predictions, u: Unit)
    requires ValidPredictions(sc, p) && u.ci < |sc.comps| && !CodesDcDifferences(sc)
    ensures NextPredictions(sc, p, u) == p
  {
  }

  lemma AcUnitReads(sc: ScanParams, u: Unit, r: DecRun, b: Block, rest: seq<Decision>, tail: Ending)
    requires ValidScan(sc) && u.ci < |sc.comps| && IsShortBlock(u.z)
    requires sc.progressive ==> sc.ss > 0
    requires var s, k := AcPart(sc, u.ci), if sc.progressive then sc.ss else 1;
             forall j :: k <= j <= s.se ==> b[j] == 0
    requires Feeding(r, WriteAc(sc, u) + rest, tail)
    ensures Readable(r)
    ensures var s, k := AcPart(sc, u.ci), if sc.progressive then sc.ss else 1;
            var x := ReadAc(s, r, b, k, true);
            && x.Got? && Feeding(x.r, rest, tail)
            && x.v == seq(64, j requires 0 <= j < 64 => if k <= j <= s.se then Approx(u.z[j], s.al) else b[j])
  {
    hide Feeding, Readable, ReadAc, AcDecisions, LastNonzero, Approx;
    var s, k := AcPart(sc, u.ci), if sc.progressive then sc.ss else 1;
    AcReads(s, r, b, u.z, k, true, rest, tail);
  }

  lemma RefineUnitReads(sc: ScanParams, u: Unit, r: DecRun, b: Block, rest: seq<Decision>, tail: Ending)
    requires ValidScan(sc) && u.ci < |sc.comps| && IsShortBlock(u.z)
    requires sc.progressive && sc.ss > 0 && sc.ah != 0 && Primed(sc, u.z, b)
    requires Feeding(r, WriteRefinement(sc, u) + rest, tail)
    ensures Readable(r)
    ensures var s := AcPart(sc, u.ci);
            var x := ReadRefine(s, r, b, LastSet(b, s.se), sc.ss, true);
            x.Got? && Feeding(x.r, rest, tail) && x.v == Improved(sc, u.z, b)
  {
    hide Feeding, Readable, ReadRefine, RefineDecisions, LastNonzero, LastSet, Approx, Truncated;
    var s := AcPart(sc, u.ci);
    var ke := LastNonzero(u.z, s.se, s.al);
    forall j | ke < j <= s.se ensures Truncated(u.z[j], sc.ah) == 0 {
      ApproxRefines(u.z[j], s.al);
    }
    SamePreviousEnd(u.z, b, s.se, ke, sc.ah, sc.ss);
    RefineReads(s, r, b, u.z, LastSet(b, s.se), LastNonzero(u.z, ke, sc.ah), sc.ss, true, rest, tail);
  }

  lemma SequentialUnitReads(sc: ScanParams, p: Predictions, u: Unit, r: DecRun, b: Block, rest: seq<Decision>, tail: Ending)
    requires ValidScan(sc) && ValidPredictions(sc, p) && u.ci < |sc.comps| && !sc.progressive
    requires DifferenceInRange(sc, p, u) && IsShortBlock(u.z) && Primed(sc, u.z, b)
    requires Feeding(r, WriteUnit(sc, p, u) + rest, tail)
    ensures Readable(r)
    ensures var x := ReadUnit(sc, p, r, u.ci, b);
            && x.Got? && Feeding(x.r, rest, tail)
            && x.v == (NextPredictions(sc, p, u), Improved(sc, u.z, b))
  {
    hide Feeding, Readable, ReadDcValue, ReadAc, WriteDc, WriteAc, NextPredictions, Approx, DcApprox;
    Assoc(WriteDc(sc, p, u), WriteAc(sc, u), rest);
    DcValueReads(sc, p, u, r, b, WriteAc(sc, u) + rest, tail);
    var b1 := b[0 := DcApprox(u.z[0], 0)];
    var r1 := ReadDcValue(sc, p, r, u.ci, b).r;
    AcUnitReads(sc, u, r1, b1, rest, tail);
    var out := ReadAc(AcPart(sc, u.ci), r1, b1, 1, true);
    assert out.v == Improved(sc, u.z, b) by {
      forall j | 0 <= j < 64 ensures Approx(u.z[j], 0) == u.z[j] && DcApprox(u.z[j], 0) == u.z[j] {
        ApproxAtZero(u.z[j]);
      }
    }
    assert ReadUnit(sc, p, r, u.ci, b) == Got(out.r, (NextPredictions(sc, p, u), out.v));
  }

  // ---------------------------------------------------------------- restart intervals

  predicate ValidUnits(sc: ScanParams, us: seq<Unit>) {
    forall i :: 0 <= i < |us| ==> us[i].ci < |sc.comps| && IsShortBlock(us[i].z)
  }

  /** The blocks of one restart interval, in coding order. */
  function WriteUnits(sc: ScanParams, p: Predictions, us: seq<Unit>): seq<Decision>
    requires ValidScan(sc) && ValidPredictions(sc, p) && ValidUnits(sc, us)
    decreases |us|
  {
    if us == [] then []
    else WriteUnit(sc, p, us[0]) + WriteUnits(sc, NextPredictions(sc, p, us[0]), us[1..])
  }

  function Components(us: seq<Unit>): (cis: seq<nat>)
    ensures |cis| == |us| && forall i :: 0 <= i < |us| ==> cis[i] == us[i].ci
  {
    seq(|us|, i requires 0 <= i < |us| => us[i].ci)
  }

  /** The blocks of an interval or of a part of it, and the predictions after them. */
  function ReadUnits(sc: ScanParams, p: Predictions, r: DecRun, cis: seq<nat>, bs: seq<Block>)
    : (x: Read<(Predictions, seq<Block>)>)
    requires ValidScan(sc) && ValidPredictions(sc, p) && Readable(r) && |bs| == |cis| && ComponentsExist(sc, cis)
    ensures x.Got? ==> Readable(x.r) && ValidPredictions(sc, x.v.0) && |x.v.1| == |bs|
    decreases |cis|
  {
    hide ReadUnit, Readable;
    if cis == [] then Got(r, (p, []))
    else
      var (r1, x) :- ReadUnit(sc, p, r, cis[0], bs[0]);
      var (r2, y) :- ReadUnits(sc, x.0, r1, cis[1..], bs[1..]);
      Got(r2, (y.0, [x.1] + y.1))
  }

  predicate ComponentsExist(sc: ScanParams, cis: seq<nat>) {
    forall i :: 0 <= i < |cis| ==> cis[i] < |sc.comps|
  }

  /** Reading an interval MCU by MCU is reading it at once. */
  lemma {:induction false} ReadUnitsConcat(sc: ScanParams, p: Predictions, r: DecRun, cis: seq<nat>, bs: seq<Block>,
                                           cis2: seq<nat>, bs2: seq<Block>)
    requires ValidScan(sc) && ValidPredictions(sc, p) && Readable(r)
    requires |bs| == |cis| && |bs2| == |cis2| && ComponentsExist(sc, cis) && ComponentsExist(sc, cis2)
    ensures ComponentsExist(sc, cis + cis2)
    ensures ReadUnits(sc, p, r, cis + cis2, bs + bs2) == ReadMoreUnits(sc, ReadUnits(sc, p, r, cis, bs), cis2, bs2)
    decreases |cis|
  {
    hide ReadUnit, Readable;
    if cis == [] {
      assert cis + cis2 == cis2 && bs + bs2 == bs2;
      var x := ReadUnits(sc, p, r, cis2, bs2);
      assert x.Got? ==> [] + x.v.1 == x.v.1;
    } else {
      assert (cis + cis2)[1..] == cis[1..] + cis2 && (bs + bs2)[1..] == bs[1..] + bs2;
      var x := ReadUnit(sc, p, r, cis[0], bs[0]);
      if x.Got? {
        ReadUnitsConcat(sc, x.v.0, x.r, cis[1..], bs[1..], cis2, bs2);
        var y := ReadUnits(sc, x.v.0, x.r, cis[1..], bs[1..]);
        if y.Got? {
          var z := ReadUnits(sc, y.v.0, y.r, cis2, bs2);
          if z.Got? { Assoc([x.v.1], y.v.1, z.v.1); }
        }
      }
    }
  }

  function ReadMoreUnits(sc: ScanParams, x: Read<(Predictions, seq<Block>)>, cis: seq<nat>, bs: seq<Block>)
    : Read<(Predictions, seq<Block>)>
    requires ValidScan(sc) && |bs| == |cis| && ComponentsExist(sc, cis)
    requires x.Got? ==> Readable(x.r) && ValidPredictions(sc, x.v.0)
  {
    hide ReadUnits, Readable;
    var (r1, v) :- x;
    var (r2, w) :- ReadUnits(sc, v.0, r1, cis, bs);
    Got(r2, (w.0, v.1 + w.1))
  }

  lemma ReadOneMoreUnit(sc: ScanParams, p: Predictions, r: DecRun, done: seq<Block>, cis: seq<nat>, bs: seq<Block>)
    requires ValidScan(sc) && ValidPredictions(sc, p) && Readable(r)
    requires cis != [] && |bs| == |cis| && ComponentsExist(sc, cis)
    ensures ReadMoreUnits(sc, Got(r, (p, done)), cis, bs)
         == match ReadUnit(sc, p, r, cis[0], bs[0])
            case Dry => Dry
            case Bad => Bad
            case Got(r1, x) => ReadMoreUnits(sc, Got(r1, (x.0, done + [x.1])), cis[1..], bs[1..])
  {
    hide ReadUnit, Readable;
    var x := ReadUnit(sc, p, r, cis[0], bs[0]);
    if x.Got? {
      var y := ReadUnits(sc, x.v.0, x.r, cis[1..], bs[1..]);
      if y.Got? { Assoc(done, [x.v.1], y.v.1); }
    }
  }

  predicate DifferencesInRange(sc: ScanParams, p: Predictions, us: seq<Unit>)
    requires ValidPredictions(sc, p) && ValidUnits(sc, us)
    decreases |us|
  {
    us == [] || (DifferenceInRange(sc, p, us[0]) && DifferencesInRange(sc, NextPredictions(sc, p, us[0]), us[1..]))
  }

  predicate AllPrimed(sc: ScanParams, us: seq<Unit>, bs: seq<Block>)
    requires ValidScan(sc)
  {
    |us| == |bs| && forall i :: 0 <= i < |us| ==> Primed(sc, us[i].z, bs[i])
  }

  function AllImproved(sc: ScanParams, us: seq<Unit>, bs: seq<Block>): seq<Block>
    requires ValidScan(sc) && |us| == |bs|
  {
    seq(|us|, i requires 0 <= i < |us| => Improved(sc, us[i].z, bs[i]))
  }

  /** The predictions after a sequence of blocks. */
  function AfterUnits(sc: ScanParams, p: Predictions, us: seq<Unit>): (p': Predictions)
    requires ValidPredictions(sc, p) && ValidUnits(sc, us)
    ensures ValidPredictions(sc, p')
    decreases |us|
  {
    if us == [] then p else AfterUnits(sc, NextPredictions(sc, p, us[0]), us[1..])
  }

  lemma {:induction false} UnitsSnoc(sc: ScanParams, p: Predictions, us: seq<Unit>, u: Unit)
    requires ValidScan(sc) && ValidPredictions(sc, p) && ValidUnits(sc, us)
    requires u.ci < |sc.comps| && IsShortBlock(u.z)
    ensures ValidUnits(sc, us + [u])
    ensures var q := AfterUnits(sc, p, us);
            && AfterUnits(sc, p, us + [u]) == NextPredictions(sc, q, u)
            && WriteUnits(sc, p, us + [u]) == WriteUnits(sc, p, us) + WriteUnit(sc, q, u)
            && (DifferencesInRange(sc, p, us + [u])
                <==> DifferencesInRange(sc, p, us) && DifferenceInRange(sc, q, u))
    decreases |us|
  {
    hide NextPredictions, WriteUnit, DifferenceInRange;
    var all := us + [u];
    assert forall i :: 0 <= i < |all| ==> all[i] == if i < |us| then us[i] else u;
    if us == [] {
      assert all == [u] && all[1..] == [];
      assert WriteUnits(sc, p, all) == WriteUnit(sc, p, u) + [];
    } else {
      assert all[1..] == us[1..] + [u];
      UnitsSnoc(sc, NextPredictions(sc, p, us[0]), us[1..], u);
    }
  }

  lemma {:induction false} UnitsRead(sc: ScanParams, p: Predictions, us: seq<Unit>, r: DecRun, bs: seq<Block>, tail: Ending)
    requires ValidScan(sc) && ValidPredictions(sc, p) && ValidUnits(sc, us)
    requires DifferencesInRange(sc, p, us) && AllPrimed(sc, us, bs)
    requires Feeding(r, WriteUnits(sc, p, us), tail)
    ensures Readable(r)
    ensures var x := ReadUnits(sc, p, r, Components(us), bs);
            && x.Got? && Feeding(x.r, [], tail)
            && x.v == (AfterUnits(sc, p, us), AllImproved(sc, us, bs))
    decreases |us|
  {
    hide Feeding, Readable, ReadUnit, WriteUnit, Improved, Primed, NextPredictions, DifferenceInRange;
    FeedingIsReadable(r, WriteUnits(sc, p, us), tail);
    if us != [] {
      var u := us[0];
      UnitReads(sc, p, u, r, bs[0], WriteUnits(sc, NextPredictions(sc, p, u), us[1..]), tail);
      var x := ReadUnit(sc, p, r, u.ci, bs[0]);
      assert Components(us)[1..] == Components(us[1..]);
      UnitsRead(sc, x.v.0, us[1..], x.r, bs[1..], tail);
      assert AllImproved(sc, us, bs) == [x.v.1] + AllImproved(sc, us[1..], bs[1..]);
    }
  }

  // ---------------------------------------------------------------- statistics at a restart

  predicate EncoderResetsDc(sc: ScanParams) { sc.ss == 0 && sc.ah == 0 }
  predicate EncoderResetsAc(sc: ScanParams) { sc.se != 0 }
  predicate DecoderResetsDc(sc: ScanParams) { !sc.progressive || (sc.ss == 0 && sc.ah == 0) }
  predicate DecoderResetsAc(sc: ScanParams) { (!sc.progressive && sc.limSe != 0) || (sc.progressive && sc.ss != 0) }

  /** The two sides state the condition differently, and clear the same areas. */
  lemma SameAreasReset(sc: ScanParams)
    requires ValidScan(sc)
    ensures EncoderResetsDc(sc) <==> DecoderResetsDc(sc)
    ensures EncoderResetsAc(sc) <==> DecoderResetsAc(sc)
  {
  }

  /** `n` bins from `st` on set to zero. */
  function Zeroed(bins: seq<Stat>, st: nat, n: nat): (r: seq<Stat>)
    ensures |r| == |bins|
    ensures forall i :: 0 <= i < |bins| ==> r[i] == if st <= i < st + n then 0 else bins[i]
  {
    seq(|bins|, i requires 0 <= i < |bins| => if st <= i < st + n then 0 else bins[i])
  }

  /** Clear the areas of the tables of the first `n` components. */
  function ResetStats(sc: ScanParams, dc: bool, ac: bool, bins: seq<Stat>, n: nat): (r: seq<Stat>)
    requires n <= |sc.comps|
    ensures |r| == |bins|
  {
    if n == 0 then bins
    else
      var t := sc.comps[n - 1];
      var before := ResetStats(sc, dc, ac, bins, n - 1);
      var cleared := if dc then Zeroed(before, DcArea(t.dcTbl), DC_STAT_BINS) else before;
      if ac then Zeroed(cleared, AcArea(t.acTbl), AC_STAT_BINS) else cleared
  }

  function EncoderReset(sc: ScanParams, bins: seq<Stat>): (r: seq<Stat>)
    ensures |r| == |bins|
  {
    ResetStats(sc, EncoderResetsDc(sc), EncoderResetsAc(sc), bins, |sc.comps|)
  }

  function DecoderReset(sc: ScanParams, bins: seq<Stat>): (r: seq<Stat>)
    ensures |r| == |bins|
  {
    ResetStats(sc, DecoderResetsDc(sc), DecoderResetsAc(sc), bins, |sc.comps|)
  }

  /** A reset leaves the bin for evenly distributed decisions alone. */
  lemma {:induction false} ResetKeepsFixedBin(sc: ScanParams, dc: bool, ac: bool, bins: seq<Stat>, n: nat)
    requires ValidScan(sc) && n <= |sc.comps| && |bins| == NUM_BINS
    ensures ResetStats(sc, dc, ac, bins, n)[FIXED_BIN] == bins[FIXED_BIN]
  {
    if n > 0 {
      ResetKeepsFixedBin(sc, dc, ac, bins, n - 1);
      assert sc.comps[n - 1].dcTbl < NUM_ARITH_TBLS && sc.comps[n - 1].acTbl < NUM_ARITH_TBLS;
    }
  }

  lemma SameReset(sc: ScanParams, bins: seq<Stat>)
    requires ValidScan(sc)
    ensures EncoderReset(sc, bins) == DecoderReset(sc, bins)
  {
    SameAreasReset(sc);
  }

  // ---------------------------------------------------------------- scans

  function Interval(sc: ScanParams, us: seq<Unit>): seq<Decision>
    requires ValidScan(sc) && ValidUnits(sc, us)
  {
    WriteUnits(sc, ResetPredictions(sc), us)
  }

  predicate ValidInterval(sc: ScanParams, us: seq<Unit>) {
    ValidUnits(sc, us) && DifferencesInRange(sc, ResetPredictions(sc), us)
  }

  predicate ValidIntervals(sc: ScanParams, parts: seq<seq<Unit>>) {
    forall i :: 0 <= i < |parts| ==> ValidInterval(sc, parts[i])
  }

  lemma UnitInRange(sc: ScanParams, p: Predictions, u: Unit)
    requires ValidScan(sc) && ValidPredictions(sc, p) && u.ci < |sc.comps|
    requires IsShortBlock(u.z) && DifferenceInRange(sc, p, u)
    ensures InRange(WriteUnit(sc, p, u), NUM_BINS)
  {
    hide AcDecisions, RefineDecisions, DcDecisions, LastNonzero, NextContext;
    var t := sc.comps[u.ci];
    if CodesDcDifferences(sc) {
      DcBinRanges(DcArea(t.dcTbl), p.context[u.ci], DcValue(sc, u.z) - p.lastDc[u.ci]);
    }
    var s := AcPart(sc, u.ci);
    var ke := LastNonzero(u.z, s.se, s.al);
    if !sc.progressive {
      AcDecisionsRange(s, u.z, 1, true);
    } else if sc.ss > 0 {
      AcDecisionsRange(s, u.z, sc.ss, true);
      RefineDecisionsRange(s, u.z, LastNonzero(u.z, ke, sc.ah), sc.ss, true);
    }
  }

  lemma {:induction false} UnitsInRange(sc: ScanParams, p: Predictions, us: seq<Unit>)
    requires ValidScan(sc) && ValidPredictions(sc, p) && ValidUnits(sc, us) && DifferencesInRange(sc, p, us)
    ensures InRange(WriteUnits(sc, p, us), NUM_BINS)
    decreases |us|
  {
    hide WriteUnit, NextPredictions, DifferenceInRange;
    if us != [] {
      UnitInRange(sc, p, us[0]);
      UnitsInRange(sc, NextPredictions(sc, p, us[0]), us[1..]);
    }
  }

  datatype Written = Written(bytes: seq<byte>, bins: seq<Stat>)

  /** The decoder at the start of a segment. */
  function StartOf(input: seq<byte>, bins: seq<Stat>): (r: DecRun)
    requires |bins| == NUM_BINS
    ensures Readable(r)
  {
    DecRun(StartDec(input), bins)
  }

  /** From the start state to the end of the segment. */
  function EncodeInterval(sc: ScanParams, bins: seq<Stat>, us: seq<Unit>): (w: Written)
    requires ValidScan(sc) && ValidInterval(sc, us) && |bins| == NUM_BINS
    ensures |w.bins| == NUM_BINS
  {
    hide Ready, WriteUnits, DifferencesInRange, Finish;
    StartIsReady();
    UnitsInRange(sc, ResetPredictions(sc), us);
    var run := EncodeRun(EncRun(START_ENC, bins), Interval(sc, us));
    Written(Stuff(Finish(run.e)), run.bins)
  }

  /** The entropy-coded data of a scan: intervals, with restart markers numbered modulo eight between them. */
  function EncodeScan(sc: ScanParams, bins: seq<Stat>, parts: seq<seq<Unit>>, restart: nat): (w: Written)
    requires ValidScan(sc) && ValidIntervals(sc, parts) && |bins| == NUM_BINS && parts != [] && restart < 8
    ensures |w.bins| == NUM_BINS
    decreases |parts|
  {
    hide EncodeInterval, EncoderReset, ValidInterval;
    var w := EncodeInterval(sc, bins, parts[0]);
    if |parts| == 1 then w
    else
      var reset := EncoderReset(sc, w.bins);
      var rest := EncodeScan(sc, reset, parts[1..], (restart + 1) % 8);
      Written(w.bytes + ([0xFF, RST0 + restart] + rest.bytes), rest.bins)
  }

  /** An interval after what is already written, closed by a restart marker. */
  function WithMarker(sc: ScanParams, p: Written, w: Written, restart: nat): (r: Written)
    requires restart < 8
    ensures |r.bins| == |w.bins|
  {
    Written(p.bytes + (w.bytes + [0xFF, RST0 + restart]), EncoderReset(sc, w.bins))
  }

  /** What is written before the current interval: finished intervals, each with its restart marker. */
  function ScanPrefix(sc: ScanParams, bins: seq<Stat>, parts: seq<seq<Unit>>): (w: Written)
    requires ValidScan(sc) && ValidIntervals(sc, parts) && |bins| == NUM_BINS
    ensures |w.bins| == NUM_BINS
    decreases |parts|
  {
    hide EncodeInterval, WithMarker, ValidInterval;
    if parts == [] then Written([], bins)
    else
      var n := |parts| - 1;
      var p := ScanPrefix(sc, bins, parts[..n]);
      var w := EncodeInterval(sc, p.bins, parts[n]);
      WithMarker(sc, p, w, n % 8)
  }

  lemma IntervalKeepsFixedBin(sc: ScanParams, bins: seq<Stat>, us: seq<Unit>)
    requires ValidScan(sc) && ValidInterval(sc, us) && |bins| == NUM_BINS && bins[FIXED_BIN] == EVEN_ODDS
    ensures EncodeInterval(sc, bins, us).bins[FIXED_BIN] == EVEN_ODDS
  {
    hide Ready, WriteUnits, DifferencesInRange, Finish, EncodeRun;
    StartIsReady();
    UnitsInRange(sc, ResetPredictions(sc), us);
    FixedBinStays(EncRun(START_ENC, bins), Interval(sc, us), FIXED_BIN);
  }

  /** Through a whole scan the bin for evenly distributed decisions keeps its state. */
  lemma {:induction false} ScanKeepsFixedBin(sc: ScanParams, bins: seq<Stat>, parts: seq<seq<Unit>>)
    requires ValidScan(sc) && ValidIntervals(sc, parts) && |bins| == NUM_BINS && bins[FIXED_BIN] == EVEN_ODDS
    ensures ScanPrefix(sc, bins, parts).bins[FIXED_BIN] == EVEN_ODDS
    decreases |parts|
  {
    hide EncodeInterval, ValidInterval, ResetStats, ValidScan;
    if parts != [] {
      var n := |parts| - 1;
      var p := ScanPrefix(sc, bins, parts[..n]);
      ScanKeepsFixedBin(sc, bins, parts[..n]);
      IntervalKeepsFixedBin(sc, p.bins, parts[n]);
      var w := EncodeInterval(sc, p.bins, parts[n]);
      ResetKeepsFixedBin(sc, EncoderResetsDc(sc), EncoderResetsAc(sc), w.bins, |sc.comps|);
    }
  }

  lemma {:induction false} PredictionsStay(sc: ScanParams, p: Predictions, us: seq<Unit>)
    requires ValidPredictions(sc, p) && ValidUnits(sc, us) && !CodesDcDifferences(sc)
    ensures AfterUnits(sc, p, us) == p
    decreases |us|
  {
    if us != [] { PredictionsStay(sc, p, us[1..]); }
  }

  lemma PrefixSnoc(sc: ScanParams, bins: seq<Stat>, parts: seq<seq<Unit>>, us: seq<Unit>)
    requires ValidScan(sc) && ValidIntervals(sc, parts) && ValidInterval(sc, us) && |bins| == NUM_BINS
    ensures ValidIntervals(sc, parts + [us])
    ensures var p := ScanPrefix(sc, bins, parts);
            ScanPrefix(sc, bins, parts + [us]) == WithMarker(sc, p, EncodeInterval(sc, p.bins, us), |parts| % 8)
  {
    hide EncodeInterval, EncoderReset, ValidInterval, ValidScan, WithMarker;
    var all := parts + [us];
    assert all[..|parts|] == parts;
  }

  /** What a further interval and its restart marker add to the bytes and do to the statistics. */
  lemma PrefixGrows(sc: ScanParams, bins: seq<Stat>, parts: seq<seq<Unit>>, us: seq<Unit>, header: seq<byte>)
    requires ValidScan(sc) && ValidIntervals(sc, parts) && ValidInterval(sc, us) && |bins| == NUM_BINS
    ensures ValidIntervals(sc, parts + [us])
    ensures var p, q := ScanPrefix(sc, bins, parts), ScanPrefix(sc, bins, parts + [us]);
            var w := EncodeInterval(sc, p.bins, us);
            && (header + p.bytes) + (w.bytes + [0xFF, RST0 + |parts| % 8]) == header + q.bytes
            && q.bins == EncoderReset(sc, w.bins)
  {
    hide EncodeInterval, EncoderReset, ScanPrefix, ValidScan, ValidInterval;
    PrefixSnoc(sc, bins, parts, us);
    var p := ScanPrefix(sc, bins, parts);
    Assoc(header, p.bytes, EncodeInterval(sc, p.bins, us).bytes + [0xFF, RST0 + |parts| % 8]);
  }

  /** A scan is its prefix and its last interval. */
  lemma {:induction false} ScanFromPrefix(sc: ScanParams, bins: seq<Stat>, parts: seq<seq<Unit>>, more: seq<seq<Unit>>)
    requires ValidScan(sc) && ValidIntervals(sc, parts + more) && |bins| == NUM_BINS && more != []
    ensures ValidIntervals(sc, parts) && ValidIntervals(sc, more)
    ensures var p := ScanPrefix(sc, bins, parts);
            var rest := EncodeScan(sc, p.bins, more, |parts| % 8);
            EncodeScan(sc, bins, parts + more, 0) == Written(p.bytes + rest.bytes, rest.bins)
    decreases |parts|
  {
    hide EncodeInterval, EncoderReset, ValidInterval;
    assert forall i :: 0 <= i < |parts| ==> (parts + more)[i] == parts[i];
    assert forall i :: 0 <= i < |more| ==> (parts + more)[|parts| + i] == more[i];
    if parts == [] {
      assert parts + more == more;
      assert EncodeScan(sc, bins, more, 0).bytes == [] + EncodeScan(sc, bins, more, 0).bytes;
    } else {
      var n := |parts| - 1;
      assert parts + more == parts[..n] + ([parts[n]] + more);
      ScanFromPrefix(sc, bins, parts[..n], [parts[n]] + more);
      ScanStep(sc, bins, parts, more);
    }
  }

  lemma LastInterval(sc: ScanParams, bins: seq<Stat>, parts: seq<seq<Unit>>, us: seq<Unit>, header: seq<byte>)
    requires ValidScan(sc) && ValidIntervals(sc, parts) && ValidInterval(sc, us) && |bins| == NUM_BINS
    ensures ValidIntervals(sc, parts + [us])
    ensures var p := ScanPrefix(sc, bins, parts);
            (header + p.bytes) + EncodeInterval(sc, p.bins, us).bytes
            == header + EncodeScan(sc, bins, parts + [us], 0).bytes
  {
    hide EncodeInterval, EncoderReset, ScanPrefix, ValidScan, ValidInterval;
    var p := ScanPrefix(sc, bins, parts);
    ScanFromPrefix(sc, bins, parts, [us]);
    Assoc(header, p.bytes, EncodeInterval(sc, p.bins, us).bytes);
  }

  lemma ScanStep(sc: ScanParams, bins: seq<Stat>, parts: seq<seq<Unit>>, more: seq<seq<Unit>>)
    requires ValidScan(sc) && |bins| == NUM_BINS && parts != [] && more != []
    requires ValidIntervals(sc, parts) && ValidIntervals(sc, more)
    requires ValidIntervals(sc, parts[..|parts| - 1]) && ValidIntervals(sc, [parts[|parts| - 1]] + more)
    ensures var n := |parts| - 1;
            var p, q := ScanPrefix(sc, bins, parts[..n]), ScanPrefix(sc, bins, parts);
            var rest, all := EncodeScan(sc, q.bins, more, |parts| % 8),
                             EncodeScan(sc, p.bins, [parts[n]] + more, n % 8);
            p.bytes + all.bytes == q.bytes + rest.bytes && all.bins == rest.bins
  {
    hide EncodeInterval, EncoderReset, ValidInterval;
    var n := |parts| - 1;
    var p, q := ScanPrefix(sc, bins, parts[..n]), ScanPrefix(sc, bins, parts);
    var w, rest := EncodeInterval(sc, p.bins, parts[n]), EncodeScan(sc, q.bins, more, |parts| % 8);
    var mark := [0xFF, RST0 + n % 8];
    assert ([parts[n]] + more)[1..] == more;
    assert (n % 8 + 1) % 8 == |parts| % 8;
    assert EncodeScan(sc, p.bins, [parts[n]] + more, n % 8) == Written(w.bytes + (mark + rest.bytes), rest.bins);
    Assoc4(p.bytes, w.bytes, mark, rest.bytes);
  }

  /** Swallow the restart marker with the expected number; None when it is not there. */
  function ReadRestartMarker(d: Dec, restart: nat): Option<seq<byte>> {
    var found := if d.marker != 0 then Some((d.marker, d.input)) else NextMarker(d.input);
    if found.Some? && found.value.0 == RST0 + restart then Some(found.value.1) else None
  }

  predicate ValidShape(sc: ScanParams, parts: seq<seq<nat>>, bs: seq<seq<Block>>) {
    |bs| == |parts| && forall i :: 0 <= i < |parts| ==> |bs[i]| == |parts[i]| && ComponentsExist(sc, parts[i])
  }

  /** From the start state, the blocks of one interval. */
  function DecodeInterval(sc: ScanParams, input: seq<byte>, bins: seq<Stat>, cis: seq<nat>, bs: seq<Block>)
    : (x: Read<seq<Block>>)
    requires ValidScan(sc) && |bins| == NUM_BINS && |bs| == |cis| && ComponentsExist(sc, cis)
    ensures x.Got? ==> Readable(x.r)
  {
    hide ReadUnits, Readable;
    var (r, v) :- ReadUnits(sc, ResetPredictions(sc), StartOf(input, bins), cis, bs);
    Got(r, v.1)
  }

  function DecodeScan(sc: ScanParams, input: seq<byte>, bins: seq<Stat>, parts: seq<seq<nat>>, bs: seq<seq<Block>>,
                      restart: nat): (x: Read<seq<seq<Block>>>)
    requires ValidScan(sc) && |bins| == NUM_BINS && parts != [] && ValidShape(sc, parts, bs)
    ensures x.Got? ==> Readable(x.r)
    decreases |parts|
  {
    hide DecodeInterval, DecoderReset, ReadRestartMarker;
    var (r1, b1) :- DecodeInterval(sc, input, bins, parts[0], bs[0]);
    if |parts| == 1 then Got(r1, [b1])
    else
      match ReadRestartMarker(r1.d, restart)
      case None => Dry
      case Some(more) =>
        var (r2, rest) :- DecodeScan(sc, more, DecoderReset(sc, r1.bins), parts[1..], bs[1..], (restart + 1) % 8);
        Got(r2, [b1] + rest)
  }

  // ---------------------------------------------------------------- whole scans are lossless

  /** At the end of a segment the restart marker is found, whether or not the decoder has met it already. */
  lemma RestartMarkerIsFound(r: DecRun, tail: Ending, restart: nat, rest: seq<byte>)
    requires Feeding(r, [], tail) && restart < 8 && tail.bytes == [0xFF, RST0 + restart] + rest
    ensures r.bins == tail.bins && ReadRestartMarker(r.d, restart) == Some(rest)
  {
    hide Ready, DecShape, NextMarker;
    var e :| Synced(r, e, [], tail.bytes) && EncodeRun(e, []).bins == tail.bins;
    var data :| InStep(r.d, data, tail.bytes, Target(e, []));
    assert tail.bytes[1..] == [RST0 + restart] + rest;
    assert SkipFill(tail.bytes[1..]) == tail.bytes[1..];
    assert ([RST0 + restart] + rest)[1..] == rest;
    if r.d.marker == 0 {
      NextMarkerSkipsData(data, tail.bytes);
    } else {
      assert ([r.d.marker] + r.d.input)[0] == r.d.marker && ([r.d.marker] + r.d.input)[1..] == r.d.input;
    }
  }

  /** One interval: the blocks come back improved, and both sides end with the same statistics. */
  lemma IntervalReads(sc: ScanParams, bins: seq<Stat>, us: seq<Unit>, bs: seq<Block>, tail: seq<byte>)
    requires ValidScan(sc) && ValidInterval(sc, us) && |bins| == NUM_BINS && AllPrimed(sc, us, bs) && IsMarkerTail(tail)
    ensures ComponentsExist(sc, Components(us))
    ensures var w := EncodeInterval(sc, bins, us);
            var x := DecodeInterval(sc, w.bytes + tail, bins, Components(us), bs);
            && x.Got? && x.v == AllImproved(sc, us, bs) && x.r.bins == w.bins
            && Feeding(x.r, [], Ending(tail, w.bins))
  {
    hide WriteUnits, ReadUnits, DifferencesInRange, AllImproved, Target, EncodeRun, Finish;
    var ds := Interval(sc, us);
    UnitsInRange(sc, ResetPredictions(sc), us);
    StartIsSynced(ds, bins, tail);
    var w := EncodeInterval(sc, bins, us);
    var r := StartOf(w.bytes + tail, bins);
    assert Feeding(r, ds, Ending(tail, w.bins));
    UnitsRead(sc, ResetPredictions(sc), us, r, bs, Ending(tail, w.bins));
    FeedingEnds(ReadUnits(sc, ResetPredictions(sc), r, Components(us), bs).r, Ending(tail, w.bins));
  }

  /** The blocks come back improved, both sides have the same statistics, and the restart marker is next. */
  predicate ReadsThenRestarts(sc: ScanParams, x: Read<seq<Block>>, w: Written, us: seq<Unit>, bs: seq<Block>,
                              restart: nat, rest: seq<byte>)
    requires ValidScan(sc) && |us| == |bs|
  {
    && x.Got? && x.v == AllImproved(sc, us, bs) && x.r.bins == w.bins
    && ReadRestartMarker(x.r.d, restart) == Some(rest)
  }

  /** One interval with a restart marker after it: the marker is found where the reader stands. */
  lemma IntervalThenRestart(sc: ScanParams, bins: seq<Stat>, us: seq<Unit>, bs: seq<Block>, restart: nat, rest: seq<byte>)
    requires ValidScan(sc) && ValidInterval(sc, us) && |bins| == NUM_BINS && AllPrimed(sc, us, bs) && restart < 8
    ensures ComponentsExist(sc, Components(us))
    ensures var w := EncodeInterval(sc, bins, us);
            ReadsThenRestarts(sc, DecodeInterval(sc, w.bytes + Marked(restart, rest), bins, Components(us), bs),
                              w, us, bs, restart, rest)
  {
    hide EncodeInterval, DecodeInterval, ValidInterval, AllImproved, AllPrimed, ReadRestartMarker, Feeding, ValidScan,
         Components, ComponentsExist, Marked, IsMarkerTail;
    var more := Marked(restart, rest);
    PrimedSize(sc, us, bs);
    IntervalReads(sc, bins, us, bs, more);
    var w := EncodeInterval(sc, bins, us);
    var x := DecodeInterval(sc, w.bytes + more, bins, Components(us), bs);
    RestartMarkerIsFound(x.r, Ending(more, w.bins), restart, rest);
  }

  function Orders(parts: seq<seq<Unit>>): seq<seq<nat>> {
    seq(|parts|, i requires 0 <= i < |parts| => Components(parts[i]))
  }

  function ScanImproved(sc: ScanParams, parts: seq<seq<Unit>>, bs: seq<seq<Block>>): seq<seq<Block>>
    requires ValidScan(sc) && ScanPrimed(sc, parts, bs)
  {
    seq(|parts|, i requires 0 <= i < |parts| => AllImproved(sc, parts[i], bs[i]))
  }

  predicate ScanPrimed(sc: ScanParams, parts: seq<seq<Unit>>, bs: seq<seq<Block>>)
    requires ValidScan(sc)
  {
    |bs| == |parts| && forall i :: 0 <= i < |parts| ==> AllPrimed(sc, parts[i], bs[i])
  }

  lemma OrdersHaveShape(sc: ScanParams, parts: seq<seq<Unit>>, bs: seq<seq<Block>>)
    requires ValidScan(sc) && ValidIntervals(sc, parts) && ScanPrimed(sc, parts, bs)
    ensures ValidShape(sc, Orders(parts), bs)
  {
    hide DifferencesInRange;
  }

  /** An arithmetic-coded scan of any kind, with any restart intervals, decodes to the coded coefficients at the
      precision of the scan, and leaves the same statistics. `tail` is the marker that follows the scan. */
  lemma {:induction false} ScanIsLossless(sc: ScanParams, bins: seq<Stat>, parts: seq<seq<Unit>>, bs: seq<seq<Block>>,
                                          restart: nat, tail: seq<byte>)
    requires ValidScan(sc) && ValidIntervals(sc, parts) && parts != [] && restart < 8
    requires |bins| == NUM_BINS && IsMarkerTail(tail) && ScanPrimed(sc, parts, bs)
    ensures ValidShape(sc, Orders(parts), bs)
    ensures var w := EncodeScan(sc, bins, parts, restart);
            var x := DecodeScan(sc, w.bytes + tail, bins, Orders(parts), bs, restart);
            x.Got? && x.r.bins == w.bins && x.v == ScanImproved(sc, parts, bs)
    decreases |parts|
  {
    hide *;
    OrdersHaveShape(sc, parts, bs);
    if |parts| == 1 {
      OneIntervalScan(sc, bins, parts, bs, restart, tail);
    } else {
      RestOfScan(sc, parts, bs);
      var w := EncodeInterval(sc, bins, parts[0]);
      ScanIsLossless(sc, EncoderReset(sc, w.bins), parts[1..], bs[1..], (restart + 1) % 8, tail);
      FirstInterval(sc, bins, parts, bs, restart, tail);
    }
  }

  lemma RestOfScan(sc: ScanParams, parts: seq<seq<Unit>>, bs: seq<seq<Block>>)
    requires ValidScan(sc) && ValidIntervals(sc, parts) && |parts| > 1 && ScanPrimed(sc, parts, bs)
    ensures ValidInterval(sc, parts[0]) && ValidIntervals(sc, parts[1..])
    ensures |bs| > 1 && ScanPrimed(sc, parts[1..], bs[1..]) && AllPrimed(sc, parts[0], bs[0])
    ensures |parts[0]| == |bs[0]|
    ensures ScanImproved(sc, parts, bs) == [AllImproved(sc, parts[0], bs[0])] + ScanImproved(sc, parts[1..], bs[1..])
    ensures |Orders(parts)| == |parts|
    ensures Orders(parts)[0] == Components(parts[0]) && Orders(parts)[1..] == Orders(parts[1..])
  {
    hide ValidInterval, AllImproved, AllPrimed;
    assert ValidIntervals(sc, parts[1..]);
    assert |bs[0]| == |parts[0]| by { PrimedSize(sc, parts[0], bs[0]); }
  }

  lemma PrimedSize(sc: ScanParams, us: seq<Unit>, bs: seq<Block>)
    requires ValidScan(sc) && AllPrimed(sc, us, bs)
    ensures |us| == |bs|
  {
  }

  lemma OneIntervalScan(sc: ScanParams, bins: seq<Stat>, parts: seq<seq<Unit>>, bs: seq<seq<Block>>,
                        restart: nat, tail: seq<byte>)
    requires ValidScan(sc) && ValidIntervals(sc, parts) && |parts| == 1 && restart < 8
    requires |bins| == NUM_BINS && IsMarkerTail(tail) && ScanPrimed(sc, parts, bs) && ValidShape(sc, Orders(parts), bs)
    ensures var w := EncodeScan(sc, bins, parts, restart);
            var x := DecodeScan(sc, w.bytes + tail, bins, Orders(parts), bs, restart);
            x.Got? && x.r.bins == w.bins && x.v == ScanImproved(sc, parts, bs)
  {
    hide EncodeInterval, DecodeInterval, ValidInterval, AllImproved, AllPrimed, Feeding, ValidScan, IsMarkerTail;
    IntervalReads(sc, bins, parts[0], bs[0], tail);
    assert Orders(parts)[0] == Components(parts[0]);
  }

  /** The first interval of several decodes, and hands over to the rest of the scan. */
  lemma FirstInterval(sc: ScanParams, bins: seq<Stat>, parts: seq<seq<Unit>>, bs: seq<seq<Block>>,
                      restart: nat, tail: seq<byte>)
    requires ValidScan(sc) && ValidIntervals(sc, parts) && |parts| > 1 && restart < 8
    requires |bins| == NUM_BINS && ScanPrimed(sc, parts, bs) && ValidShape(sc, Orders(parts), bs)
    ensures ValidIntervals(sc, parts[1..]) && ScanPrimed(sc, parts[1..], bs[1..])
    ensures ValidShape(sc, Orders(parts[1..]), bs[1..])
    ensures var reset := EncoderReset(sc, EncodeInterval(sc, bins, parts[0]).bins);
            var w := EncodeScan(sc, bins, parts, restart);
            var rest := EncodeScan(sc, reset, parts[1..], (restart + 1) % 8);
            var x := DecodeScan(sc, w.bytes + tail, bins, Orders(parts), bs, restart);
            var y := DecodeScan(sc, rest.bytes + tail, reset, Orders(parts[1..]), bs[1..], (restart + 1) % 8);
            && w.bins == rest.bins
            && (y.Got? ==> x == Got(y.r, [AllImproved(sc, parts[0], bs[0])] + y.v))
  {
    hide ValidScan, ValidIntervals, ScanPrimed, ValidShape, EncodeInterval, DecodeInterval, EncoderReset, DecoderReset,
         ValidInterval, AllImproved, AllPrimed, ReadRestartMarker, ScanImproved, Orders, Components, ComponentsExist;
    RestOfScan(sc, parts, bs);
    OrdersHaveShape(sc, parts[1..], bs[1..]);
    var w := EncodeInterval(sc, bins, parts[0]);
    SameReset(sc, w.bins);
    var rest := EncodeScan(sc, EncoderReset(sc, w.bins), parts[1..], (restart + 1) % 8);
    Assoc4(w.bytes, [0xFF, RST0 + restart], rest.bytes, tail);
    IntervalThenRestart(sc, bins, parts[0], bs[0], restart, rest.bytes + tail);
  }

  lemma FeedingEnds(r: DecRun, tail: Ending)
    requires Feeding(r, [], tail)
    ensures r.bins == tail.bins
  {
    var e :| Synced(r, e, [], tail.bytes) && EncodeRun(e, []).bins == tail.bins;
  }
}
