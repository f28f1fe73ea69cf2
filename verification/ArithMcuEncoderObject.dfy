/** MCU encoding with the arithmetic coder (jcarith.c): the loops that turn blocks into decisions, DC prediction
    kept in place, restart markers. Blocks are given in zigzag order. */
module ArithMcuEncoderObject {
  import opened Markers
  import opened EstimationTable
  import opened Bytes
  import opened ArithCoding
  import opened ArithModel
  import opened ArithBins
  import opened ArithRefinement
  import opened ArithScan
  import opened StandardDecisions
  import opened Arithmetic
  import opened PointTransform
  import opened Seqs
  import opened ArithEncoderObject

  class ArithMcuEncoder {
    const coder: ArithEncoder
    const params: ScanParams
    var lastDc: seq<int>
    var dcContext: seq<nat>
    const restartInterval: nat
    var restartsToGo: nat
    var nextRestartNum: nat

    /** The destination and the statistics before the scan, the intervals that are finished, and the blocks of
        the current one. */
    ghost const header: seq<byte>
    ghost const scanBins: seq<Stat>
    ghost var parts: seq<seq<Unit>>
    ghost var units: seq<Unit>

    ghost predicate Ready()
      reads this, coder, coder.stats
    {
      && coder.Valid() && coder.stats.Length == NUM_BINS
      && ValidScan(params) && ValidPredictions(params, Predictions(lastDc, dcContext))
    }

    /** The coder has coded exactly the current interval, and before it was written what the finished intervals
        and their restart markers amount to. */
    ghost predicate Valid()
      reads this, coder, coder.stats
    {
      && Ready() && |scanBins| == NUM_BINS
      && ValidInterval(params, units) && ValidIntervals(params, parts)
      && Predictions(lastDc, dcContext) == AfterUnits(params, ResetPredictions(params), units)
      && coder.log == WriteUnits(params, ResetPredictions(params), units)
      && coder.written == header + ScanPrefix(params, scanBins, parts).bytes
      && coder.startBins == ScanPrefix(params, scanBins, parts).bins
      && nextRestartNum == |parts| % 8
    }

    constructor (coder: ArithEncoder, params: ScanParams, restartInterval: nat)
      requires coder.Valid() && coder.stats.Length == NUM_BINS && ValidScan(params) && coder.log == []
      ensures this.coder == coder && this.params == params && this.restartInterval == restartInterval
      ensures Valid() && parts == [] && units == [] && restartsToGo == restartInterval
      ensures header == coder.written && scanBins == coder.startBins
    {
      this.coder, this.params, this.restartInterval := coder, params, restartInterval;
      lastDc, dcContext := seq(|params.comps|, _ => 0), seq(|params.comps|, _ => 0);
      restartsToGo, nextRestartNum := restartInterval, 0;
      header, scanBins, parts, units := coder.written, coder.startBins, [], [];
    }

    /** Figure F.8 from category bin `st` on, for a nonzero `v`. */
    method EncodeCategory(x1: nat, v: int, m0: int) returns (m: int, st: nat)
      requires coder.Valid() && 1 <= v && 1 <= m0
      requires InRange(Category(x1, v), coder.stats.Length)
      modifies coder, coder.stats
      ensures coder.Valid() && coder.written == old(coder.written) && coder.startBins == old(coder.startBins)
      ensures coder.log == old(coder.log) + Category(x1, v)
      ensures m == Grown(m0, v) && st == CategoryEnd(x1, v)
    {
      hide ArithEncoder.Valid, ArithEncoder.Coded;
      m, st := m0, x1;
      var v2 := v;
      while v2 / 2 != 0
        invariant coder.Valid() && coder.written == old(coder.written) && coder.startBins == old(coder.startBins)
        invariant 1 <= v2 && InRange(Category(st, v2), coder.stats.Length)
        invariant coder.log + Category(st, v2) == old(coder.log) + Category(x1, v)
        invariant Grown(m, v2) == Grown(m0, v) && CategoryEnd(st, v2) == CategoryEnd(x1, v)
        decreases v2
      {
        ghost var rest := Category(st + 1, v2 / 2);
        assert Category(st, v2) == [Decision(st, true)] + rest;
        assert Category(st, v2)[0].bin < coder.stats.Length && Category(st, v2)[1..] == rest;
        Assoc(coder.log, [Decision(st, true)], rest);
        v2 := v2 / 2;
        coder.ArithEncode(st, true);
        m := 2 * m;
        st := st + 1;
      }
      assert Category(st, v2)[0].bin < coder.stats.Length;
      coder.ArithEncode(st, false);
    }

    /** Figure F.9: the bits of `v` below its top bit `top`. */
    method EncodePattern(st: nat, top: int, v: int)
      requires coder.Valid() && 0 <= top && st < coder.stats.Length
      modifies coder, coder.stats
      ensures coder.Valid() && coder.written == old(coder.written) && coder.startBins == old(coder.startBins)
      ensures coder.log == old(coder.log) + Pattern(st, top, v)
    {
      var m := top;
      while m / 2 != 0
        invariant coder.Valid() && coder.written == old(coder.written) && coder.startBins == old(coder.startBins)
        invariant 0 <= m && coder.log + Pattern(st, m, v) == old(coder.log) + Pattern(st, top, v)
      {
        Assoc(coder.log, [Decision(st, HasBit(v, m / 2))], Pattern(st, m / 2, v));
        m := m / 2;
        coder.ArithEncode(st, HasBit(v, m));
      }
    }

    /** Figures F.4 to F.9 for the point-transformed DC value `dc` of a block of component `ci`. */
    method EncodeDc(ci: nat, dc: int)
      requires Ready() && ci < |params.comps| && Abs(dc - lastDc[ci]) <= 0x8000
      modifies this`lastDc, this`dcContext, coder, coder.stats
      ensures Ready() && coder.written == old(coder.written) && coder.startBins == old(coder.startBins)
      ensures var t := params.comps[ci];
              && coder.log == old(coder.log) + DcDecisions(DcArea(t.dcTbl), old(dcContext[ci]), dc - old(lastDc[ci]))
              && lastDc == old(lastDc)[ci := dc]
              && dcContext == old(dcContext)[ci := NextContext(t.bounds, dc - old(lastDc[ci]))]
    {
      hide ArithEncoder.Valid, ArithEncoder.Coded, MagnitudeBits, Category, Pattern, TopBit, Grown, DcMagnitude;
      var t := params.comps[ci];
      var area := DcArea(t.dcTbl);
      var st := area + dcContext[ci];
      var v := dc - lastDc[ci];
      DcBinRanges(area, dcContext[ci], v);
      if v == 0 {
        coder.ArithEncode(st, false);
        dcContext := dcContext[ci := 0];
      } else {
        lastDc := lastDc[ci := dc];
        coder.ArithEncode(st, true);
        var negative := v < 0;
        coder.ArithEncode(st + 1, negative);
        if negative {
          v := -v;
          st := st + 3;
        } else {
          st := st + 2;
        }
        v := v - 1;
        var m := EncodeDcMagnitude(area, st, v);
        dcContext := dcContext[ci := if m < Pow2(t.bounds.lower) / 2 then 0
                                     else if m > Pow2(t.bounds.upper) / 2 then (if negative then 8 else 4) + 8
                                     else if negative then 8 else 4];
        Log3(old(coder.log), Decision(area + old(dcContext[ci]), true), Decision(area + old(dcContext[ci]) + 1, negative),
             DcMagnitude(area, st, v));
      }
    }

    lemma Log3(log: seq<Decision>, d: Decision, e: Decision, rest: seq<Decision>)
      ensures log + [d] + [e] + rest == log + ([d] + ([e] + rest))
    {
    }

    /** The category and the pattern of the magnitude less one, `v`; gives its top bit, 0 if `v` is 0. */
    method EncodeDcMagnitude(area: nat, s: nat, v: int) returns (m: int)
      requires coder.Valid() && 0 <= v < 0x8000
      requires area + DC_STAT_BINS <= coder.stats.Length && s < coder.stats.Length
      modifies coder, coder.stats
      ensures coder.Valid() && coder.written == old(coder.written) && coder.startBins == old(coder.startBins)
      ensures coder.log == old(coder.log) + DcMagnitude(area, s, v)
      ensures m == if v == 0 then 0 else TopBit(v)
    {
      hide ArithEncoder.Valid, ArithEncoder.Coded, Category, CategoryEnd, Pattern, TopBit, Grown, DcMagnitude;
      DcMagnitudePlan(area, s, v);
      if v == 0 {
        m := 0;
        coder.ArithEncode(s, false);
      } else {
        coder.ArithEncode(s, true);
        var st: nat;
        m, st := EncodeCategory(area + 20, v, 1);
        EncodePattern(st + 14, m, v);
        Log3b(old(coder.log), Decision(s, true), Category(area + 20, v), Pattern(st + 14, m, v));
      }
    }

    lemma DcMagnitudePlan(area: nat, s: nat, v: int)
      requires 0 <= v < 0x8000
      ensures v == 0 ==> DcMagnitude(area, s, v) == [Decision(s, false)]
      ensures v != 0 ==>
                && InRange(Category(area + 20, v), area + DC_STAT_BINS)
                && CategoryEnd(area + 20, v) + 14 < area + DC_STAT_BINS && Grown(1, v) == TopBit(v)
                && DcMagnitude(area, s, v)
                   == [Decision(s, true)]
                      + (Category(area + 20, v) + Pattern(CategoryEnd(area + 20, v) + 14, TopBit(v), v))
    {
      hide Category, CategoryEnd, Pattern, TopBit, Grown, Pow2;
      if v != 0 {
        Pow2Of14();
        MagnitudeRanges(area + 20, v, v, 14);
        CategoryEndRange(area + 20, v, 14);
        GrownIsTopBit(1, v);
      }
    }

    lemma Log3b(log: seq<Decision>, d: Decision, cat: seq<Decision>, pat: seq<Decision>)
      ensures log + [d] + cat + pat == log + ([d] + (cat + pat))
    {
    }

    /** Figures F.8 and F.9 for the coefficient at `k`, whose magnitude is `v` + 1. */
    method EncodeAcMagnitude(ci: nat, k: nat, v: int)
      requires Ready() && ci < |params.comps| && 1 <= k <= 63 && 0 <= v < 0x8000
      modifies coder, coder.stats
      ensures coder.Valid() && coder.written == old(coder.written) && coder.startBins == old(coder.startBins)
      ensures coder.log == old(coder.log)
                           + AcMagnitude(AcArea(params.comps[ci].acTbl), params.comps[ci].kx, k, v)
    {
      hide ArithEncoder.Valid, ArithEncoder.Coded, MagnitudeBits, Category, CategoryEnd, Pattern, TopBit, Grown, Pow2;
      var area, kx := AcArea(params.comps[ci].acTbl), params.comps[ci].kx;
      var st := Position(area, k) + 2;
      AcBinRanges(area, kx, k, v);
      var m := 0;
      if v != 0 {
        coder.ArithEncode(st, true);
        m := 1;
        if v / 2 != 0 {
          coder.ArithEncode(st, true);
          EncodeLargeAcMagnitude(AcCategoryBin(area, kx, k), v);
          Log2(old(coder.log), [Decision(st, true)], [Decision(st, true)],
               MagnitudeBits(AcCategoryBin(area, kx, k), v / 2, v));
          return;
        }
      }
      coder.ArithEncode(st, false);
      st := st + 14;
      EncodePattern(st, m, v);
      PatternRange(st, m, v);
      assert coder.log == old(coder.log) + AcMagnitude(area, kx, k, v) + [];
    }

    method EncodeLargeAcMagnitude(x1: nat, v: int)
      requires coder.Valid() && 2 <= v < 0x8000 && x1 + 28 <= coder.stats.Length
      modifies coder, coder.stats
      ensures coder.Valid() && coder.written == old(coder.written) && coder.startBins == old(coder.startBins)
      ensures coder.log == old(coder.log) + MagnitudeBits(x1, v / 2, v)
    {
      hide ArithEncoder.Valid, ArithEncoder.Coded, Category, CategoryEnd, Pattern, TopBit, Grown, Pow2;
      Pow2Of14();
      MagnitudeRanges(x1, v / 2, v, 13);
      CategoryEndRange(x1, v / 2, 13);
      GrownFromTwo(v);
      var m, st := EncodeCategory(x1, v / 2, 2);
      EncodePattern(st + 14, m, v);
      Assoc(old(coder.log), Category(x1, v / 2), Pattern(st + 14, m, v));
    }

    lemma GrownFromTwo(v: int)
      requires 2 <= v
      ensures Grown(2, v / 2) == TopBit(v)
    {
      GrownIsTopBit(1, v);
    }

    lemma Log2(log: seq<Decision>, a: seq<Decision>, b: seq<Decision>, c: seq<Decision>)
      ensures log + a + b + c == log + (a + (b + c))
    {
    }

    /** Establish the end-of-block index of the band for the point transform `al`. */
    method EndOfBlock(z: Block, last: nat, al: nat) returns (ke: nat)
      requires last <= 63
      ensures ke == LastNonzero(z, last, al)
    {
      ke := last;
      while ke > 0 && Truncated(z[ke], al) == 0
        invariant ke <= last && LastNonzero(z, ke, al) == LastNonzero(z, last, al)
      {
        ke := ke - 1;
      }
    }

    /** Figure F.5 over the band that starts at `first`. */
    method EncodeAcBand(ci: nat, z: Block, first: nat)
      requires Ready() && ci < |params.comps| && 1 <= first && IsShortBlock(z)
      modifies coder, coder.stats
      ensures coder.Valid() && coder.written == old(coder.written) && coder.startBins == old(coder.startBins)
      ensures var s := AcPart(params, ci);
              coder.log == old(coder.log) + AcDecisions(s, z, LastNonzero(z, s.se, s.al), first, true)
    {
      hide ArithEncoder.Valid, ArithEncoder.Coded, AcMagnitude, LastNonzero, Truncated, NextContext;
      var s := AcPart(params, ci);
      var ke := EndOfBlock(z, s.se, s.al);
      ghost var target := old(coder.log) + AcDecisions(s, z, ke, first, true);
      var k := first;
      while k <= ke
        invariant coder.Valid() && coder.written == old(coder.written) && coder.startBins == old(coder.startBins)
        invariant 1 <= k && coder.log + AcDecisions(s, z, ke, k, true) == target
      {
        k := EncodeZeroRun(ci, z, ke, k, target);
        k := k + 1;
      }
      if k <= s.se {
        coder.ArithEncode(Position(s.area, k), true);
      } else {
        assert coder.log + [] == coder.log;
      }
    }

    /** The decision that the block goes on, a run of zeros, and the nonzero coefficient after it. */
    method EncodeZeroRun(ci: nat, z: Block, ke: nat, from: nat, ghost target: seq<Decision>) returns (k: nat)
      requires Ready() && ci < |params.comps| && 1 <= from <= ke && IsShortBlock(z)
      requires var s := AcPart(params, ci);
               && ke == LastNonzero(z, s.se, s.al)
               && coder.log + AcDecisions(s, z, ke, from, true) == target
      modifies coder, coder.stats
      ensures coder.Valid() && coder.written == old(coder.written) && coder.startBins == old(coder.startBins)
      ensures from <= k <= ke && coder.log + AcDecisions(AcPart(params, ci), z, ke, k + 1, true) == target
    {
      hide ArithEncoder.Valid, ArithEncoder.Coded, AcMagnitude, LastNonzero, Truncated, NextContext;
      var s := AcPart(params, ci);
      k := from;
      Assoc(coder.log, [Decision(Position(s.area, k), false)], AcDecisions(s, z, ke, k, false));
      coder.ArithEncode(Position(s.area, k), false);
      var v := Truncated(z[k], s.al);
      while v == 0
        invariant coder.Valid() && coder.written == old(coder.written) && coder.startBins == old(coder.startBins)
        invariant from <= k <= ke && v == Truncated(z[k], s.al)
        invariant coder.log + AcDecisions(s, z, ke, k, false) == target
        decreases ke - k
      {
        Assoc(coder.log, [Decision(Position(s.area, k) + 1, false)], AcDecisions(s, z, ke, k + 1, false));
        coder.ArithEncode(Position(s.area, k) + 1, false);
        k := k + 1;
        v := Truncated(z[k], s.al);
      }
      ghost var log := coder.log;
      coder.ArithEncode(Position(s.area, k) + 1, true);
      coder.ArithEncode(FIXED_BIN, v < 0);
      ApproxIsShort(z[k], s.al);
      EncodeAcMagnitude(ci, k, Abs(v) - 1);
      LogCoefficient(log, Decision(Position(s.area, k) + 1, true), Decision(FIXED_BIN, v < 0),
                     AcMagnitude(s.area, s.kx, k, Excess(v)), AcDecisions(s, z, ke, k + 1, true));
    }

    lemma LogCoefficient(log: seq<Decision>, d: Decision, e: Decision, mag: seq<Decision>, rest: seq<Decision>)
      ensures log + [d] + [e] + mag + rest == log + ([d] + (([e] + mag) + rest))
    {
    }

    /** Figure G.10 over the band. */
    method EncodeRefinement(ci: nat, z: Block)
      requires Ready() && ci < |params.comps| && params.progressive && params.ss > 0
      modifies coder, coder.stats
      ensures coder.Valid() && coder.written == old(coder.written) && coder.startBins == old(coder.startBins)
      ensures coder.log == old(coder.log) + WriteRefinement(params, Unit(ci, z))
    {
      hide ArithEncoder.Valid, ArithEncoder.Coded, LastNonzero, Truncated, NextContext;
      var s := AcPart(params, ci);
      var ke := EndOfBlock(z, s.se, s.al);
      var kex := EndOfBlock(z, ke, params.ah);
      ghost var target := old(coder.log) + RefineDecisions(s, z, ke, kex, params.ss, true);
      var k := params.ss;
      while k <= ke
        invariant coder.Valid() && coder.written == old(coder.written) && coder.startBins == old(coder.startBins)
        invariant 1 <= k && coder.log + RefineDecisions(s, z, ke, kex, k, true) == target
      {
        k := EncodeRefinedRun(ci, z, ke, kex, k, target);
        k := k + 1;
      }
      if k <= s.se {
        coder.ArithEncode(Position(s.area, k), true);
      } else {
        assert coder.log + [] == coder.log;
      }
    }

    /** A run of coefficients that stay zero, and the correction or arrival of the one after it. */
    method EncodeRefinedRun(ci: nat, z: Block, ke: nat, kex: nat, from: nat, ghost target: seq<Decision>)
      returns (k: nat)
      requires Ready() && ci < |params.comps| && 1 <= from <= ke
      requires var s := AcPart(params, ci);
               && ke == LastNonzero(z, s.se, s.al)
               && coder.log + RefineDecisions(s, z, ke, kex, from, true) == target
      modifies coder, coder.stats
      ensures coder.Valid() && coder.written == old(coder.written) && coder.startBins == old(coder.startBins)
      ensures from <= k <= ke && coder.log + RefineDecisions(AcPart(params, ci), z, ke, kex, k + 1, true) == target
    {
      hide ArithEncoder.Valid, ArithEncoder.Coded, LastNonzero, Truncated, NextContext;
      var s := AcPart(params, ci);
      k := from;
      ghost var rest := RefineDecisions(s, z, ke, kex, k, false);
      if k > kex {
        Assoc(coder.log, [Decision(Position(s.area, k), false)], rest);
        coder.ArithEncode(Position(s.area, k), false);
      } else {
        assert [] + rest == rest;
      }
      var v := Truncated(z[k], s.al);
      while v == 0
        invariant coder.Valid() && coder.written == old(coder.written) && coder.startBins == old(coder.startBins)
        invariant from <= k <= ke && v == Truncated(z[k], s.al)
        invariant coder.log + RefineDecisions(s, z, ke, kex, k, false) == target
        decreases ke - k
      {
        Assoc(coder.log, [Decision(Position(s.area, k) + 1, false)], RefineDecisions(s, z, ke, kex, k + 1, false));
        coder.ArithEncode(Position(s.area, k) + 1, false);
        k := k + 1;
        v := Truncated(z[k], s.al);
      }
      rest := RefineDecisions(s, z, ke, kex, k + 1, true);
      Assoc(coder.log, Refinement(s, v, k), rest);
      EncodeRefinedCoefficient(s, k, v);
    }

    /** The correction bit of an earlier coefficient, or a new coefficient with its sign. */
    method EncodeRefinedCoefficient(s: AcScan, k: nat, v: int)
      requires coder.Valid() && coder.stats.Length == NUM_BINS && ValidAcScan(s) && 1 <= k <= 63 && v != 0
      modifies coder, coder.stats
      ensures coder.Valid() && coder.written == old(coder.written) && coder.startBins == old(coder.startBins)
      ensures coder.log == old(coder.log) + Refinement(s, v, k)
    {
      hide ArithEncoder.Valid, ArithEncoder.Coded;
      if Abs(v) / 2 != 0 {
        coder.ArithEncode(Position(s.area, k) + 2, Abs(v) % 2 == 1);
      } else {
        coder.ArithEncode(Position(s.area, k) + 1, true);
        coder.ArithEncode(FIXED_BIN, v < 0);
        assert old(coder.log) + [Decision(Position(s.area, k) + 1, true)] + [Decision(FIXED_BIN, v < 0)]
            == old(coder.log) + Refinement(s, v, k);
      }
    }

    /** One block, by the routine that the scan parameters select. */
    method EncodeBlock(u: Unit)
      requires Ready() && u.ci < |params.comps| && IsShortBlock(u.z)
      requires DifferenceInRange(params, Predictions(lastDc, dcContext), u)
      modifies this`lastDc, this`dcContext, coder, coder.stats
      ensures Ready() && coder.written == old(coder.written) && coder.startBins == old(coder.startBins)
      ensures coder.log == old(coder.log) + WriteUnit(params, old(Predictions(lastDc, dcContext)), u)
      ensures Predictions(lastDc, dcContext) == NextPredictions(params, old(Predictions(lastDc, dcContext)), u)
    {
      hide ArithEncoder.Valid, ArithEncoder.Coded, AcDecisions, DcDecisions, RefineDecisions, LastNonzero, NextContext;
      ghost var p := Predictions(lastDc, dcContext);
      if params.progressive {
        if params.ah == 0 {
          if params.ss == 0 {
            EncodeDc(u.ci, DcValue(params, u.z));
          } else {
            EncodeAcBand(u.ci, u.z, params.ss);
          }
        } else {
          if params.ss == 0 {
            coder.ArithEncode(FIXED_BIN, u.z[0] / Pow2(params.al) % 2 == 1);
          } else {
            EncodeRefinement(u.ci, u.z);
          }
        }
      } else {
        EncodeDc(u.ci, DcValue(params, u.z));
        EncodeAcBand(u.ci, u.z, 1);
        Assoc(old(coder.log), WriteDc(params, p, u), WriteAc(params, u));
      }
    }

    /** Set `n` bins from `st` on to zero. */
    method ClearArea(st: nat, n: nat)
      requires st + n <= coder.stats.Length
      modifies coder.stats
      ensures coder.stats[..] == Zeroed(old(coder.stats[..]), st, n)
    {
      for i := 0 to n
        invariant coder.stats[..] == Zeroed(old(coder.stats[..]), st, i)
      {
        coder.stats[st + i] := 0;
      }
    }

    /** Clear the areas of the tables that the scan uses, and the DC predictions. */
    method ResetStatistics()
      requires ValidScan(params) && coder.stats.Length == NUM_BINS
      requires ValidPredictions(params, Predictions(lastDc, dcContext))
      modifies this`lastDc, this`dcContext, coder.stats
      ensures coder.stats[..] == EncoderReset(params, old(coder.stats[..]))
      ensures EncoderResetsDc(params) ==> Predictions(lastDc, dcContext) == ResetPredictions(params)
      ensures !EncoderResetsDc(params) ==> lastDc == old(lastDc) && dcContext == old(dcContext)
    {
      var dc, ac := EncoderResetsDc(params), EncoderResetsAc(params);
      for ci := 0 to |params.comps|
        invariant coder.stats[..] == ResetStats(params, dc, ac, old(coder.stats[..]), ci)
        invariant |lastDc| == |dcContext| == |params.comps|
        invariant dc ==> forall j :: 0 <= j < ci ==> lastDc[j] == 0 && dcContext[j] == 0
        invariant !dc ==> lastDc == old(lastDc) && dcContext == old(dcContext)
      {
        if dc {
          ClearArea(DcArea(params.comps[ci].dcTbl), DC_STAT_BINS);
          lastDc := lastDc[ci := 0];
          dcContext := dcContext[ci := 0];
        }
        if ac {
          ClearArea(AcArea(params.comps[ci].acTbl), AC_STAT_BINS);
        }
      }
    }

    /** Close the segment, and write a restart marker after it. */
    method FinishAndMark(ghost segment: seq<byte>)
      requires coder.Valid() && nextRestartNum < 8 && segment == coder.Segment()
      modifies coder
      ensures coder.stats[..] == old(coder.stats[..])
      ensures coder.output == old(coder.written) + (segment + [0xFF, RST0 + nextRestartNum])
    {
      hide ArithEncoder.Coded, ArithEncoder.Valid, ArithEncoder.Segment;
      coder.FinishPass();
      coder.EmitByte(0xFF);
      coder.EmitByte(RST0 + nextRestartNum);
      MarkerBytes(coder.written, segment, 0xFF, RST0 + nextRestartNum);
    }

    static lemma MarkerBytes(before: seq<byte>, data: seq<byte>, b: byte, m: byte)
      ensures before + data + [b] + [m] == before + (data + [b, m])
    {
    }

    /** Finishing the coder now would complete the current interval. */
    lemma IntervalIsCoded()
      requires Valid()
      ensures EncodeInterval(params, coder.startBins, units)
              == Written(coder.Segment(), coder.stats[..])
    {
      hide WriteUnits, DifferencesInRange, EncodeRun, Finish;
    }

    /** End the current interval with a restart marker, and start the next one. */
    method EmitRestart()
      requires Valid()
      modifies this`lastDc, this`dcContext, this`parts, this`units, coder, coder.stats
      ensures Ready() && coder.log == [] && units == [] && parts == old(parts) + [old(units)]
      ensures ValidIntervals(params, parts)
      ensures Predictions(lastDc, dcContext) == ResetPredictions(params)
      ensures coder.written == header + ScanPrefix(params, scanBins, parts).bytes
      ensures coder.startBins == ScanPrefix(params, scanBins, parts).bins == EncoderReset(params, old(coder.stats[..]))
    {
      hide Valid, ArithEncoder.Valid, ArithEncoder.Coded, ArithEncoder.Segment, ScanPrefix, EncoderReset,
           ValidInterval, ValidScan, ResetPredictions, EncoderResetsDc;
      RestartPlan();
      ghost var segment := coder.Segment();
      FinishAndMark(segment);
      ResetStatistics();
      coder.StartSegment();
      parts := parts + [units];
      units := [];
    }

    /** What a restart has to bring about. */
    lemma RestartPlan()
      requires Valid()
      ensures Ready() && coder.Valid() && ValidScan(params) && coder.stats.Length == NUM_BINS && nextRestartNum < 8
      ensures ValidPredictions(params, Predictions(lastDc, dcContext)) && |scanBins| == NUM_BINS
      ensures ValidIntervals(params, parts + [units]) && ValidInterval(params, [])
      ensures !EncoderResetsDc(params) ==> Predictions(lastDc, dcContext) == ResetPredictions(params)
      ensures var w := ScanPrefix(params, scanBins, parts + [units]);
              && coder.written + (coder.Segment() + [0xFF, RST0 + nextRestartNum]) == header + w.bytes
              && EncoderReset(params, coder.stats[..]) == w.bins
    {
      hide *;
      PredictionsKept();
      IntervalIsCoded();
      ValidMeans();
      PrefixGrows(params, scanBins, parts, units, header);
    }

    lemma ReadyMeans()
      requires Valid()
      ensures Ready() && coder.Valid() && ValidScan(params) && coder.stats.Length == NUM_BINS
      ensures ValidPredictions(params, Predictions(lastDc, dcContext))
    {
      hide ArithEncoder.Valid, ArithEncoder.Coded, ScanPrefix, AfterUnits, WriteUnits, ValidScan, ResetPredictions,
           ValidIntervals, ValidInterval, ValidPredictions;
    }

    lemma ValidMeans()
      requires Valid()
      ensures Ready() && coder.Valid() && ValidScan(params) && coder.stats.Length == NUM_BINS
      ensures ValidPredictions(params, ResetPredictions(params))
      ensures ValidPredictions(params, Predictions(lastDc, dcContext)) && |scanBins| == NUM_BINS
      ensures ValidIntervals(params, parts) && ValidInterval(params, units) && ValidInterval(params, [])
      ensures coder.written == header + ScanPrefix(params, scanBins, parts).bytes
      ensures coder.startBins == ScanPrefix(params, scanBins, parts).bins
      ensures nextRestartNum == |parts| % 8
    {
      hide ArithEncoder.Valid, ArithEncoder.Coded, ScanPrefix, AfterUnits, WriteUnits, ValidScan, ResetPredictions,
           ValidIntervals, ValidPredictions, EncodeRun, NextPredictions, WriteUnit, Ready, DifferenceInRange;
      ReadyMeans();
      assert ValidUnits(params, []);
    }

    /** Where a restart resets nothing, the predictions have not moved. */
    lemma PredictionsKept()
      requires Valid()
      ensures !EncoderResetsDc(params) ==> Predictions(lastDc, dcContext) == ResetPredictions(params)
    {
      hide ArithEncoder.Valid, ArithEncoder.Coded;
      if !EncoderResetsDc(params) {
        PredictionsStay(params, ResetPredictions(params), units);
      }
    }

    predicate RestartDue()
      reads this
    {
      restartInterval != 0 && restartsToGo == 0
    }

    /** Code one more block of the current interval. */
    method AddBlock(u: Unit)
      requires Valid() && u.ci < |params.comps| && IsShortBlock(u.z)
      requires DifferenceInRange(params, Predictions(lastDc, dcContext), u)
      modifies this`lastDc, this`dcContext, this`units, coder, coder.stats
      ensures Valid() && units == old(units) + [u] && coder.startBins == old(coder.startBins)
      ensures Predictions(lastDc, dcContext) == NextPredictions(params, old(Predictions(lastDc, dcContext)), u)
    {
      hide ArithEncoder.Valid, ArithEncoder.Coded, WriteUnit, NextPredictions, DifferenceInRange, ScanPrefix;
      UnitsSnoc(params, ResetPredictions(params), units, u);
      EncodeBlock(u);
      units := units + [u];
    }

    /** Code one MCU, after a restart marker when the interval is used up. */
    method EncodeMcu(mcu: seq<Unit>)
      requires Valid() && ValidUnits(params, mcu)
      requires DifferencesInRange(
                 params, if RestartDue() then ResetPredictions(params) else Predictions(lastDc, dcContext), mcu)
      modifies this`lastDc, this`dcContext, this`restartsToGo, this`nextRestartNum, this`parts, this`units, coder,
               coder.stats
      ensures Valid()
      ensures if old(RestartDue()) then parts == old(parts) + [old(units)] && units == mcu
              else parts == old(parts) && units == old(units) + mcu
      ensures ValidScan(params) && ValidUnits(params, units) && coder.log == IntervalCode(params, units)
      ensures old(RestartDue()) ==> coder.startBins == EncoderReset(params, old(coder.stats[..]))
      ensures restartInterval == 0 ==> restartsToGo == old(restartsToGo)
      ensures restartInterval != 0 ==>
                restartsToGo == if old(RestartDue()) then restartInterval - 1 else old(restartsToGo) - 1
    {
      hide Valid, Ready, ResetPredictions, ValidPredictions, DifferencesInRange, ValidIntervals, ValidInterval, ValidUnits,
           ScanPrefix, ValidScan, ArithEncoder.Valid, IntervalCode;
      ValidMeans();
      if restartInterval != 0 {
        if restartsToGo == 0 {
          Restart();
        }
        CountDown();
      }
      ValidMeans();
      EncodeBlocks(mcu);
      assert [] + mcu == mcu;
      LogIsStandard();
    }

    /** The decisions coded since the last restart are those of the standard, bin by bin. */
    lemma LogIsStandard()
      requires Valid()
      ensures ValidScan(params) && ValidUnits(params, units) && coder.log == IntervalCode(params, units)
    {
      hide ArithEncoder.Valid, ArithEncoder.Coded, ScanPrefix, AfterUnits, WriteUnits, ValidScan, ResetPredictions,
           ValidIntervals, ValidPredictions, IntervalCode, DifferencesInRange, Keeps;
      IntervalIsStandard(params, units);
    }

    method CountDown()
      requires Valid() && restartsToGo != 0
      modifies this`restartsToGo
      ensures Valid() && restartsToGo == old(restartsToGo) - 1 && coder.startBins == old(coder.startBins)
    {
      hide ArithEncoder.Valid, ArithEncoder.Coded, ScanPrefix, AfterUnits, WriteUnits, ValidScan, ResetPredictions;
      restartsToGo := restartsToGo - 1;
    }

    /** The restart marker, the number of the next one, and the full interval that is ahead. */
    method Restart()
      requires Valid()
      modifies this`lastDc, this`dcContext, this`restartsToGo, this`nextRestartNum, this`parts, this`units, coder, coder.stats
      ensures Valid() && parts == old(parts) + [old(units)] && units == [] && restartsToGo == restartInterval
      ensures Predictions(lastDc, dcContext) == ResetPredictions(params)
      ensures coder.startBins == EncoderReset(params, old(coder.stats[..]))
    {
      hide ArithEncoder.Valid, ArithEncoder.Coded, ScanPrefix, ValidScan, ResetPredictions, ValidPredictions,
           EncoderReset;
      EmitRestart();
      restartsToGo := restartInterval;
      nextRestartNum := (nextRestartNum + 1) % 8;
    }

    method EncodeBlocks(mcu: seq<Unit>)
      requires Valid() && ValidUnits(params, mcu) && ValidPredictions(params, Predictions(lastDc, dcContext))
      requires DifferencesInRange(params, Predictions(lastDc, dcContext), mcu)
      modifies this`lastDc, this`dcContext, this`units, coder, coder.stats
      ensures Valid() && units == old(units) + mcu && coder.startBins == old(coder.startBins)
    {
      hide Valid, Ready, NextPredictions, DifferenceInRange, ValidPredictions, ValidIntervals, ValidInterval, ScanPrefix,
           ValidScan, ArithEncoder.Valid;
      for i := 0 to |mcu|
        invariant Valid() && units == old(units) + mcu[..i] && coder.startBins == old(coder.startBins)
        invariant ValidPredictions(params, Predictions(lastDc, dcContext))
        invariant DifferencesInRange(params, Predictions(lastDc, dcContext), mcu[i..])
      {
        assert mcu[i..][0] == mcu[i] && mcu[i..][1..] == mcu[i + 1..];
        AddBlock(mcu[i]);
        assert mcu[..i + 1] == mcu[..i] + [mcu[i]];
        ValidMeans();
      }
      assert mcu[..|mcu|] == mcu;
    }

    /** End the scan: the destination holds what it held before, and the whole scan. */
    method FinishScan()
      requires Valid()
      modifies coder
      ensures ValidIntervals(params, parts + [units])
      ensures coder.output == header + EncodeScan(params, scanBins, parts + [units], 0).bytes
    {
      hide Valid, ArithEncoder.Valid, ArithEncoder.Coded, ArithEncoder.Segment, ScanPrefix, EncodeScan, ValidInterval,
           ValidScan;
      ScanPlan();
      coder.FinishPass();
    }

    /** What the end of the scan has to bring about. */
    lemma ScanPlan()
      requires Valid()
      ensures coder.Valid() && ValidScan(params) && |scanBins| == NUM_BINS && ValidIntervals(params, parts + [units])
      ensures coder.written + coder.Segment() == header + EncodeScan(params, scanBins, parts + [units], 0).bytes
    {
      hide *;
      ValidMeans();
      IntervalIsCoded();
      LastInterval(params, scanBins, parts, units, header);
    }
  }
}
