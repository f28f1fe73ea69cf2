/** Whole scans coded in two passes (huff_opt_pass and output_pass in jcmaster.c): the gathering pass and the output
    pass run over the same MCUs with the same restart interval. With the tables made in between, the output pass never
    lacks a code. */
module OptimizedScans {
  import opened EstimationTable
  import opened Arithmetic
  import opened PointTransform
  import opened HuffmanTables
  import opened HuffmanItems
  import opened HuffmanEobRuns
  import opened HuffmanSegments
  import opened HuffmanEncoderObject
  import opened HuffmanSequentialEncoderObject
  import opened HuffmanAcEncoderObject
  import opened HuffmanAcScans
  import opened OptimalTable
  import opened GenOptimalTable
  import opened OptimizedCoding
  import opened RestartIntervals
  import opened Seqs
  import S = HuffmanSequential
  import First = HuffmanFirst
  import Refinement = HuffmanRefinement

  /** OutOfRange: the error exit for a coefficient. CodeTooLong: the error exit for a code of more than 32 bits. */
  datatype Outcome = OutOfRange | CodeTooLong | Coded(tables: seq<HuffTable>, output: seq<byte>)

  // ---------------------------------------------------------------- scans with DC coefficients

  /** The tables of the scan: first a component's DC table, then its AC table if the scan has AC coefficients. */
  function TablesOf(sc: S.SeqScan, n: nat): seq<nat>
    requires n <= |sc.comps|
  {
    if n == 0 then []
    else TablesOf(sc, n - 1) + ([sc.comps[n - 1].dcTbl] + if sc.se > 0 then [sc.comps[n - 1].acTbl] else [])
  }

  /** The first `numDc` of the tables are DC tables. */
  predicate HasTables(sc: S.SeqScan, numDc: nat, numTables: nat) {
    forall ci :: 0 <= ci < |sc.comps| ==>
      && sc.comps[ci].dcTbl < numDc <= numTables
      && (sc.se > 0 ==> numDc <= sc.comps[ci].acTbl < numTables)
  }

  /** Every component has blocks in the scan. */
  predicate EveryComponent(sc: S.SeqScan, us: seq<S.Unit>) {
    forall ci :: 0 <= ci < |sc.comps| ==> ci in S.Components(us)
  }

  lemma {:induction false} TablesOfComponents(sc: S.SeqScan, n: nat, tbl: nat)
    requires n <= |sc.comps|
    ensures tbl in TablesOf(sc, n) <==>
              exists ci :: 0 <= ci < n && (sc.comps[ci].dcTbl == tbl || (sc.se > 0 && sc.comps[ci].acTbl == tbl))
  {
    if n > 0 { TablesOfComponents(sc, n - 1, tbl); }
  }

  /** What is known of the items of a block. */
  predicate Fitting(sc: S.SeqScan, numDc: nat, items: seq<Item>) {
    AreSymbols(numDc, items) && Within(items, TablesOf(sc, |sc.comps|))
  }

  lemma FittingSum(sc: S.SeqScan, numDc: nat, a: seq<Item>, b: seq<Item>)
    requires Fitting(sc, numDc, a) && Fitting(sc, numDc, b)
    ensures Fitting(sc, numDc, a + b)
  {
    hide TablesOf;
    AreSymbolsSum(numDc, a, b);
  }

  lemma {:induction false} AcFits(sc: S.SeqScan, numDc: nat, tbl: nat, z: Block, k: nat, r: nat)
    requires sc.se <= 63 && S.CodableAc(z, sc.se) && numDc <= tbl && tbl in TablesOf(sc, |sc.comps|) && 1 <= k
    ensures Fitting(sc, numDc, S.AcItems(tbl, z, sc.se, k, r))
    ensures k <= sc.se || r > 0 ==> Sees(S.AcItems(tbl, z, sc.se, k, r), tbl)
    decreases sc.se + 1 - k, r
  {
    hide TablesOf, NumBits, ValueItem;
    var items := S.AcItems(tbl, z, sc.se, k, r);
    if k > sc.se {
      assert r > 0 ==> items[0] == Sym(tbl, 0);
    } else if z[k] == 0 {
      AcFits(sc, numDc, tbl, z, k + 1, r + 1);
    } else if r > 15 {
      AcFits(sc, numDc, tbl, z, k, r - 16);
      assert items[0] == Sym(tbl, ZRL);
      FittingSum(sc, numDc, [Sym(tbl, ZRL)], S.AcItems(tbl, z, sc.se, k, r - 16));
    } else {
      AcFits(sc, numDc, tbl, z, k + 1, 0);
      var sym := Sym(tbl, 16 * r + NumBits(Abs(z[k])));
      ValueIsRaw(z[k]);
      assert items[0] == sym;
      FittingSum(sc, numDc, [ValueItem(z[k])], S.AcItems(tbl, z, sc.se, k + 1, 0));
      FittingSum(sc, numDc, [sym], [ValueItem(z[k])] + S.AcItems(tbl, z, sc.se, k + 1, 0));
    }
  }

  lemma ValueIsRaw(v: int)
    ensures ValueItem(v).Raw?
  {
  }

  lemma UnitFits(sc: S.SeqScan, numDc: nat, numTables: nat, lastDc: seq<int>, u: S.Unit)
    requires HasTables(sc, numDc, numTables) && S.CodableUnit(sc, lastDc, u)
    ensures u.ci < |sc.comps| == |lastDc| && sc.se <= 63
    ensures Fitting(sc, numDc, S.UnitItems(sc, lastDc, u))
    ensures Sees(S.UnitItems(sc, lastDc, u), sc.comps[u.ci].dcTbl)
    ensures sc.se > 0 ==> Sees(S.UnitItems(sc, lastDc, u), sc.comps[u.ci].acTbl)
  {
    hide TablesOf, S.AcItems, S.DcItems, S.CodableAc, S.CodableDc, S.DcPoint, Fitting, Sees;
    var t, diff := sc.comps[u.ci], S.DcPoint(sc, u.z) - lastDc[u.ci];
    var dc, ac := S.DcItems(t.dcTbl, diff), S.AcItems(t.acTbl, u.z, sc.se, 1, 0);
    TableNumbers(sc, numDc, numTables);
    DcFits(sc, numDc, t.dcTbl, diff);
    if sc.se > 0 {
      AcFits(sc, numDc, t.acTbl, u.z, 1, 0);
    } else {
      S.NoAcItems([], t.acTbl, u.z, []);
      NothingFits(sc, numDc);
    }
    FittingSum(sc, numDc, dc, ac);
    SeenInSum(dc, ac, t.dcTbl);
    SeenInSum(dc, ac, t.acTbl);
  }

  lemma DcFits(sc: S.SeqScan, numDc: nat, tbl: nat, diff: int)
    requires S.CodableDc(diff) && tbl in TablesOf(sc, |sc.comps|)
    ensures Fitting(sc, numDc, S.DcItems(tbl, diff)) && Sees(S.DcItems(tbl, diff), tbl)
  {
    hide TablesOf, NumBits, ValueItem;
    ValueIsRaw(diff);
    assert S.DcItems(tbl, diff)[0].Sym?;
  }

  /** The items of an interval fit, and show the tables of every component that has a block. */
  lemma {:induction false} UnitsFit(sc: S.SeqScan, numDc: nat, numTables: nat, lastDc: seq<int>, us: seq<S.Unit>)
    requires HasTables(sc, numDc, numTables) && S.CodableUnits(sc, lastDc, us)
    ensures Fitting(sc, numDc, S.UnitsItems(sc, lastDc, us))
    ensures forall i :: 0 <= i < |us| ==> us[i].ci < |sc.comps| && SeesComponent(sc, S.UnitsItems(sc, lastDc, us), us[i].ci)
    decreases |us|
  {
    hide S.CodableUnit, S.UnitItems, Fitting, HasTables, Sees;
    if us == [] {
      NothingFits(sc, numDc);
    } else {
      UnitFits(sc, numDc, numTables, lastDc, us[0]);
      var next := lastDc[us[0].ci := S.DcPoint(sc, us[0].z)];
      UnitsFit(sc, numDc, numTables, next, us[1..]);
      var a, b := S.UnitItems(sc, lastDc, us[0]), S.UnitsItems(sc, next, us[1..]);
      FittingSum(sc, numDc, a, b);
      forall i | 0 <= i < |us| ensures us[i].ci < |sc.comps| && SeesComponent(sc, S.UnitsItems(sc, lastDc, us), us[i].ci) {
        assert i > 0 ==> us[i] == us[1..][i - 1];
        SeenInSum(a, b, sc.comps[us[i].ci].dcTbl);
        SeenInSum(a, b, sc.comps[us[i].ci].acTbl);
      }
    }
  }

  predicate SeesComponent(sc: S.SeqScan, items: seq<Item>, ci: nat)
    requires ci < |sc.comps|
  {
    Sees(items, sc.comps[ci].dcTbl) && (sc.se > 0 ==> Sees(items, sc.comps[ci].acTbl))
  }

  lemma SeenInSum(a: seq<Item>, b: seq<Item>, tbl: nat)
    ensures Sees(a, tbl) || Sees(b, tbl) ==> Sees(a + b, tbl)
  {
    if Sees(a, tbl) {
      var i :| 0 <= i < |a| && a[i].Sym? && a[i].tbl == tbl;
      assert (a + b)[i] == a[i];
    } else if Sees(b, tbl) {
      var i :| 0 <= i < |b| && b[i].Sym? && b[i].tbl == tbl;
      assert (a + b)[|a| + i] == b[i];
    }
  }

  lemma NothingFits(sc: S.SeqScan, numDc: nat)
    ensures Fitting(sc, numDc, [])
  {
    hide TablesOf;
  }

  /** The same for all intervals. */
  lemma {:induction false} PartsFit(sc: S.SeqScan, numDc: nat, numTables: nat, parts: seq<seq<S.Unit>>)
    requires HasTables(sc, numDc, numTables) && S.CodableParts(sc, parts)
    ensures var log := Flat(S.SegmentItems(sc, parts));
            Fitting(sc, numDc, log)
            && forall i :: 0 <= i < |Flat(parts)| ==> Flat(parts)[i].ci < |sc.comps| && SeesComponent(sc, log, Flat(parts)[i].ci)
    decreases |parts|
  {
    hide S.CodableUnits, S.UnitsItems, Fitting, HasTables, Sees;
    if parts == [] {
      NothingFits(sc, numDc);
    } else {
      var rest := parts[1..];
      assert forall i :: 0 <= i < |rest| ==> rest[i] == parts[i + 1];
      UnitsFit(sc, numDc, numTables, S.ResetDc(sc), parts[0]);
      PartsFit(sc, numDc, numTables, rest);
      var all := S.SegmentItems(sc, parts);
      assert all[1..] == S.SegmentItems(sc, rest);
      FittingSum(sc, numDc, all[0], Flat(all[1..]));
      forall i | 0 <= i < |Flat(parts)|
        ensures Flat(parts)[i].ci < |sc.comps| && SeesComponent(sc, Flat(all), Flat(parts)[i].ci)
      {
        var u := if i < |parts[0]| then parts[0][i] else Flat(rest)[i - |parts[0]|];
        assert Flat(parts)[i] == u;
        SeenInSum(all[0], Flat(all[1..]), sc.comps[u.ci].dcTbl);
        SeenInSum(all[0], Flat(all[1..]), sc.comps[u.ci].acTbl);
      }
    }
  }

  /** What the gathering pass logs fulfils what the tables are made from. */
  lemma LogIsFit(sc: S.SeqScan, numDc: nat, numTables: nat, mcus: seq<seq<S.Unit>>, interval: nat)
    requires HasTables(sc, numDc, numTables) && S.CodableParts(sc, Intervals(mcus, interval))
    requires EveryComponent(sc, Flat(mcus))
    ensures var log := Flat(S.SegmentItems(sc, Intervals(mcus, interval)));
            && AreSymbols(numDc, log) && Within(log, TablesOf(sc, |sc.comps|))
            && forall tbl :: tbl in TablesOf(sc, |sc.comps|) ==> tbl < numTables && Sees(log, tbl)
  {
    hide S.CodableUnits, S.UnitsItems, AreSymbols, Within, Sees, Intervals, TablesOf;
    var parts := Intervals(mcus, interval);
    var log := Flat(S.SegmentItems(sc, parts));
    PartsFit(sc, numDc, numTables, parts);
    IntervalsHoldAll(mcus, interval);
    forall tbl | tbl in TablesOf(sc, |sc.comps|) ensures tbl < numTables && Sees(log, tbl) {
      TablesOfComponents(sc, |sc.comps|, tbl);
      var ci :| 0 <= ci < |sc.comps| && (sc.comps[ci].dcTbl == tbl || (sc.se > 0 && sc.comps[ci].acTbl == tbl));
      assert ci in S.Components(Flat(mcus));
      var i :| 0 <= i < |Flat(mcus)| && S.Components(Flat(mcus))[i] == ci;
      assert Flat(parts)[i].ci == ci;
    }
  }

  /** A sequential scan, or the first DC scan, in two passes. */
  method OptimizedScan(sc: S.SeqScan, progressive: bool, numDc: nat, numTables: nat, interval: nat,
                       mcus: seq<seq<S.Unit>>, destination: seq<byte>) returns (r: Outcome)
    requires S.ValidShape(sc) && (if progressive then sc.se == 0 else sc.al == 0) && HasTables(sc, numDc, numTables)
    requires (forall i :: 0 <= i < |mcus| ==> IsMcu(sc, mcus[i])) && EveryComponent(sc, Flat(mcus))
    requires var parts := Intervals(mcus, interval);
             S.CodableParts(sc, parts) ==>
               TotalsBelow(Flat(S.SegmentItems(sc, parts)), TablesOf(sc, |sc.comps|), MAX_TOTAL + 1)
    ensures r.OutOfRange? <==> !S.CodableParts(sc, Intervals(mcus, interval))
    ensures r.CodeTooLong? ==>
              !TotalsBelow(Flat(S.SegmentItems(sc, Intervals(mcus, interval))), TablesOf(sc, |sc.comps|), SAFE_TOTAL)
    ensures r.Coded? ==> var parts := Intervals(mcus, interval);
                         && S.ValidScan(sc, r.tables) && S.CodableScan(sc, r.tables, parts)
                         && r.output == destination + ScanBytes(S.ScanBits(sc, r.tables, parts), 0)
  {
    hide HuffmanEncoder.Valid, HuffmanSequentialEncoder.Valid, AreSymbols, Within, Intervals, TablesOf, IsEncTable, AllMade,
         S.CodableUnits, S.UnitsItems, ScanBytes, S.ScanBits, Sendable, Reads, TotalsBelow, S.CodableParts;
    ghost var parts, tbls := Intervals(mcus, interval), TablesOf(sc, |sc.comps|);
    var inRange, ok, derived := GatherTables(sc, progressive, numDc, numTables, interval, mcus);
    if !inRange { return OutOfRange; }
    if !ok { return CodeTooLong; }
    ghost var log := Flat(S.SegmentItems(sc, parts));
    LogIsFit(sc, numDc, numTables, mcus, interval);
    TableNumbers(sc, numDc, numTables);
    MadeTablesSuffice(log, numDc, tbls, derived);
    FlatSendable(Public(derived), S.SegmentItems(sc, parts));
    AllMadeAreTables(log, tbls, derived);
    var coder := new HuffmanEncoder(false, derived, destination);
    assert coder.Tables() == Public(derived);
    var output := new HuffmanSequentialEncoder(coder, sc, progressive, interval);
    ok := output.EncodeAll(mcus);
    assert ok;
    output.FinishPass();
    SameScanBits(sc, Public(derived), parts);
    r := Coded(Public(derived), coder.writer.output);
  }

  /** The gathering pass, and the tables for what it has counted. */
  method GatherTables(sc: S.SeqScan, progressive: bool, numDc: nat, numTables: nat, interval: nat, mcus: seq<seq<S.Unit>>)
    returns (inRange: bool, ok: bool, derived: seq<EncTable>)
    requires S.ValidShape(sc) && (if progressive then sc.se == 0 else sc.al == 0) && HasTables(sc, numDc, numTables)
    requires (forall i :: 0 <= i < |mcus| ==> IsMcu(sc, mcus[i])) && EveryComponent(sc, Flat(mcus))
    requires var parts := Intervals(mcus, interval);
             S.CodableParts(sc, parts) ==>
               TotalsBelow(Flat(S.SegmentItems(sc, parts)), TablesOf(sc, |sc.comps|), MAX_TOTAL + 1)
    ensures inRange <==> S.CodableParts(sc, Intervals(mcus, interval))
    ensures inRange && !ok ==>
              !TotalsBelow(Flat(S.SegmentItems(sc, Intervals(mcus, interval))), TablesOf(sc, |sc.comps|), SAFE_TOTAL)
    ensures inRange && ok ==>
              |derived| == numTables
              && AllMade(Flat(S.SegmentItems(sc, Intervals(mcus, interval))), TablesOf(sc, |sc.comps|), derived)
  {
    hide HuffmanEncoder.Valid, HuffmanSequentialEncoder.Valid, AreSymbols, Within, Sees, Intervals, TablesOf, IsEncTable,
         AllMade, S.CodableUnits, S.UnitsItems, TotalsBelow, AllSendable, S.CodableParts;
    ok, derived := false, [];
    var counting := new HuffmanEncoder(true, seq(numTables, _ => NO_TABLE), []);
    var pass := new HuffmanSequentialEncoder(counting, sc, progressive, interval);
    inRange := pass.EncodeAll(mcus);
    if !inRange { return; }
    pass.AllLogged();
    LogIsFit(sc, numDc, numTables, mcus, interval);
    ok, derived := MakeTables(counting, numDc, TablesOf(sc, |sc.comps|));
  }

  lemma TableNumbers(sc: S.SeqScan, numDc: nat, numTables: nat)
    requires HasTables(sc, numDc, numTables)
    ensures forall ci :: 0 <= ci < |sc.comps| ==>
              sc.comps[ci].dcTbl in TablesOf(sc, |sc.comps|) && (sc.se > 0 ==> sc.comps[ci].acTbl in TablesOf(sc, |sc.comps|))
  {
    hide TablesOf;
    forall ci | 0 <= ci < |sc.comps|
      ensures sc.comps[ci].dcTbl in TablesOf(sc, |sc.comps|)
      ensures sc.se > 0 ==> sc.comps[ci].acTbl in TablesOf(sc, |sc.comps|)
    {
      TablesOfComponents(sc, |sc.comps|, sc.comps[ci].dcTbl);
      TablesOfComponents(sc, |sc.comps|, sc.comps[ci].acTbl);
    }
  }

  lemma AllMadeAreTables(items: seq<Item>, tbls: seq<nat>, derived: seq<EncTable>)
    requires AllMade(items, tbls, derived)
    ensures forall i :: 0 <= i < |derived| ==> IsEncTable(derived[i])
  {
    hide IsEncTable;
  }

  lemma SameScanBits(sc: S.SeqScan, tables: seq<HuffTable>, parts: seq<seq<S.Unit>>)
    requires S.CodableParts(sc, parts) && AllSendable(tables, S.SegmentItems(sc, parts))
    ensures S.CodableScan(sc, tables, parts)
    ensures AllBits(tables, S.SegmentItems(sc, parts)) == S.ScanBits(sc, tables, parts)
  {
    hide Sendable, Bits, S.UnitsItems, S.CodableUnits;
    var items := S.SegmentItems(sc, parts);
    forall i | 0 <= i < |parts| ensures Sendable(tables, S.UnitsItems(sc, S.ResetDc(sc), parts[i])) {
      assert Sendable(tables, items[i]);
    }
  }

  // ---------------------------------------------------------------- AC scans

  /** What is known of the items of an AC scan: they are symbols of its table, and the first one is a symbol. */
  predicate FitsBand(p: Band, numDc: nat, items: seq<Item>) {
    && AreSymbols(numDc, items) && Within(items, [p.tbl])
    && (items != [] ==> items[0].Sym? && items[0].tbl == p.tbl)
  }

  lemma FitsBandSum(p: Band, numDc: nat, a: seq<Item>, b: seq<Item>)
    requires FitsBand(p, numDc, a) && AreSymbols(numDc, b) && Within(b, [p.tbl])
    ensures a != [] || FitsBand(p, numDc, b) ==> FitsBand(p, numDc, a + b)
  {
    AreSymbolsSum(numDc, a, b);
  }

  lemma SymbolFits(p: Band, numDc: nat, sym: nat, raw: seq<Item>)
    requires numDc <= p.tbl && sym < 256 && sym % 16 <= 11 && forall i :: 0 <= i < |raw| ==> raw[i].Raw?
    ensures FitsBand(p, numDc, [Sym(p.tbl, sym)] + raw)
  {
    assert FitsBand(p, numDc, [Sym(p.tbl, sym)]);
    FitsBandSum(p, numDc, [Sym(p.tbl, sym)], raw);
  }

  lemma FlushFits(p: Band, numDc: nat, e: Pending)
    requires numDc <= p.tbl && e.run < 0x8000
    ensures FitsBand(p, numDc, FlushItems(p.tbl, e)) && (e.run > 0 ==> FlushItems(p.tbl, e) != [])
  {
    hide NumBits, FitsBand;
    if e.run == 0 {
      NothingFitsBand(p, numDc);
    } else {
      Refinement.RunIsShort(e.run);
      var n := NumBits(e.run) - 1;
      var raw := (if n > 0 then [Raw(e.run, n)] else []) + BitItems(e.bits);
      SymbolFits(p, numDc, 16 * n, raw);
      assert FlushItems(p.tbl, e) == [Sym(p.tbl, 16 * n)] + raw;
    }
  }

  lemma NothingFitsBand(p: Band, numDc: nat)
    ensures FitsBand(p, numDc, [])
  {
  }

  /** What a block sends fits, and a block always leaves a trace: it sends something, or a run is pending. */
  ghost predicate FitsSent(p: Band, numDc: nat, s: Sent) {
    FitsBand(p, numDc, s.items) && (s.items != [] || s.pending.run > 0)
  }

  lemma EndFits(p: Band, numDc: nat, r: nat, br: seq<bool>, e: Pending)
    requires numDc <= p.tbl && e.run < 0x7FFF && (r > 0 || br != [] || e.run > 0)
    ensures FitsSent(p, numDc, EndOfBand(p, r, br, e))
  {
    hide FitsBand, FlushItems;
    NothingFitsBand(p, numDc);
    FlushFits(p, numDc, Pending(e.run + 1, e.bits + br));
  }

  lemma EndFitsToo(p: Band, numDc: nat, r: nat, br: seq<bool>, e: Pending)
    requires numDc <= p.tbl && e.run < 0x7FFF
    ensures FitsBand(p, numDc, EndOfBand(p, r, br, e).items)
  {
    hide FitsBand, FlushItems;
    NothingFitsBand(p, numDc);
    FlushFits(p, numDc, Pending(e.run + 1, e.bits + br));
  }

  /** Symbols that go out after a pending run. */
  lemma FlushThenFits(p: Band, numDc: nat, e: Pending, sym: nat, raw: seq<Item>, rest: seq<Item>)
    requires numDc <= p.tbl && e.run < 0x8000 && sym < 256 && sym % 16 <= 11 && FitsBand(p, numDc, rest)
    requires forall i :: 0 <= i < |raw| ==> raw[i].Raw?
    ensures var items := FlushItems(p.tbl, e) + ([Sym(p.tbl, sym)] + raw) + rest;
            FitsBand(p, numDc, items) && items != []
  {
    hide FlushItems;
    FlushFits(p, numDc, e);
    SymbolFits(p, numDc, sym, raw);
    FitsBandSum(p, numDc, FlushItems(p.tbl, e), [Sym(p.tbl, sym)] + raw);
    FitsBandSum(p, numDc, FlushItems(p.tbl, e) + ([Sym(p.tbl, sym)] + raw), rest);
  }

  lemma {:induction false} RefineFits(p: Band, numDc: nat, z: Block, k: nat, r: nat, br: seq<bool>, e: Pending)
    requires ValidBand(p) && numDc <= p.tbl && e.run < 0x7FFF && p.ss <= k <= p.se + 1
    ensures var s := RefineItems(p, z, k, r, br, e);
            && FitsBand(p, numDc, s.items)
            && (k <= p.se || r > 0 || br != [] || e.run > 0 ==> FitsSent(p, numDc, s))
    decreases p.se + 1 - k, r
  {
    hide Mag, LastNew, FlushItems, FitsBand;
    if k > p.se {
      EndFitsToo(p, numDc, r, br, e);
      if r > 0 || br != [] || e.run > 0 { EndFits(p, numDc, r, br, e); }
    } else {
      var a := Mag(z, p, k);
      if a == 0 {
        RefineFits(p, numDc, z, k + 1, r + 1, br, e);
      } else if r > 15 && k <= LastNew(z, p, p.se) {
        RefineFits(p, numDc, z, k, r - 16, [], NONE);
        FlushThenFits(p, numDc, e, ZRL, BitItems(br), RefineItems(p, z, k, r - 16, [], NONE).items);
      } else if a > 1 {
        RefineFits(p, numDc, z, k + 1, r, br + [a % 2 == 1], e);
      } else {
        RefineFits(p, numDc, z, k + 1, 0, [], NONE);
        assert r <= 15;
        FlushThenFits(p, numDc, e, 16 * r + 1, [BitItem(z[k] >= 0)] + BitItems(br), RefineItems(p, z, k + 1, 0, [], NONE).items);
      }
    }
  }

  lemma {:induction false} FirstFits(p: Band, numDc: nat, z: Block, k: nat, r: nat, e: Pending)
    requires ValidBand(p) && numDc <= p.tbl && e.run < 0x7FFF && p.ss <= k <= p.se + 1 && First.CodableBand(p, z)
    ensures var s := First.FirstItems(p, z, k, r, e);
            && FitsBand(p, numDc, s.items)
            && (k <= p.se || r > 0 || e.run > 0 ==> FitsSent(p, numDc, s))
    decreases p.se + 1 - k, r, e.run
  {
    hide Truncated, FlushItems, FitsBand, NumBits, ValueItem;
    if k > p.se {
      EndFitsToo(p, numDc, r, [], e);
      if r > 0 || e.run > 0 { EndFits(p, numDc, r, [], e); }
    } else {
      var v := Truncated(z[k], p.al);
      if v == 0 {
        FirstFits(p, numDc, z, k + 1, r + 1, e);
      } else if e.run > 0 {
        FirstFits(p, numDc, z, k, r, NONE);
        FlushFits(p, numDc, e);
        FlushedFirst(p, numDc, FlushItems(p.tbl, e), First.FirstItems(p, z, k, r, NONE).items);
      } else if r > 15 {
        FirstFits(p, numDc, z, k, r - 16, NONE);
        SymbolThenFits(p, numDc, ZRL, [], First.FirstItems(p, z, k, r - 16, NONE).items);
      } else {
        FirstFits(p, numDc, z, k + 1, 0, NONE);
        ValueIsRaw(v);
        assert NumBits(Mag(z, p, k)) <= MAX_COEF_BITS;
        SymbolThenFits(p, numDc, 16 * r + NumBits(Abs(v)), [ValueItem(v)], First.FirstItems(p, z, k + 1, 0, NONE).items);
      }
    }
  }

  lemma FlushedFirst(p: Band, numDc: nat, a: seq<Item>, b: seq<Item>)
    requires FitsBand(p, numDc, a) && FitsBand(p, numDc, b)
    ensures FitsBand(p, numDc, a + b)
  {
    FitsBandSum(p, numDc, a, b);
  }

  lemma SymbolThenFits(p: Band, numDc: nat, sym: nat, raw: seq<Item>, rest: seq<Item>)
    requires numDc <= p.tbl && sym < 256 && sym % 16 <= 11 && FitsBand(p, numDc, rest)
    requires forall i :: 0 <= i < |raw| ==> raw[i].Raw?
    ensures var items := [Sym(p.tbl, sym)] + raw + rest; FitsBand(p, numDc, items) && items != []
    ensures raw == [] ==> FitsBand(p, numDc, [Sym(p.tbl, sym)] + rest)
  {
    SymbolFits(p, numDc, sym, raw);
    FitsBandSum(p, numDc, [Sym(p.tbl, sym)] + raw, rest);
    assert raw == [] ==> [Sym(p.tbl, sym)] + raw == [Sym(p.tbl, sym)];
  }

  lemma BlockFits(a: AcScan, numDc: nat, z: Block, e: Pending)
    requires ValidAcScan(a) && numDc <= a.p.tbl && ValidBetween(a, e) && CodableBlock(a, z)
    ensures FitsSent(a.p, numDc, BlockSent(a, z, e)) && ValidBetween(a, BlockSent(a, z, e).pending)
  {
    hide FitsBand, RefineItems, First.FirstItems, First.CodableBand;
    if a.first {
      FirstFits(a.p, numDc, z, a.p.ss, 0, e);
      First.RunStaysValid(a.p, z, a.p.ss, 0, e);
    } else {
      RefineFits(a.p, numDc, z, a.p.ss, 0, [], e);
      PendingStaysValid(a.p, z, a.p.ss, 0, [], e);
    }
  }

  lemma {:induction false} SentByFits(a: AcScan, numDc: nat, zs: seq<Block>)
    requires ValidAcScan(a) && numDc <= a.p.tbl && forall i :: 0 <= i < |zs| ==> CodableBlock(a, zs[i])
    ensures var s := SentBy(a, zs);
            && FitsBand(a.p, numDc, s.items) && ValidBetween(a, s.pending) && (zs != [] ==> FitsSent(a.p, numDc, s))
    decreases |zs|
  {
    hide FitsBand, BlockSent, CodableBlock;
    if zs == [] {
      NothingFitsBand(a.p, numDc);
    } else {
      var k := |zs| - 1;
      SentByFits(a, numDc, zs[..k]);
      var s := SentBy(a, zs[..k]);
      BlockFits(a, numDc, zs[k], s.pending);
      FlushedFirst(a.p, numDc, s.items, BlockSent(a, zs[k], s.pending).items);
    }
  }

  lemma IntervalFits(a: AcScan, numDc: nat, zs: seq<Block>)
    requires ValidAcScan(a) && numDc <= a.p.tbl && forall i :: 0 <= i < |zs| ==> CodableBlock(a, zs[i])
    ensures FitsBand(a.p, numDc, IntervalItems(a, zs)) && (zs != [] ==> IntervalItems(a, zs) != [])
  {
    hide FitsBand, BlockSent, CodableBlock, SentBy, FlushItems;
    SentByFits(a, numDc, zs);
    var s := SentBy(a, zs);
    FlushFits(a.p, numDc, s.pending);
    FlushedFirst(a.p, numDc, s.items, FlushItems(a.p.tbl, s.pending));
  }

  lemma {:induction false} AcPartsFit(a: AcScan, numDc: nat, parts: seq<seq<Block>>)
    requires ValidAcScan(a) && numDc <= a.p.tbl && CodableParts(a, parts)
    ensures var log := Flat(SegmentItems(a, parts)); FitsBand(a.p, numDc, log) && (Flat(parts) != [] ==> log != [])
    decreases |parts|
  {
    hide FitsBand, CodableBlock, IntervalItems;
    if parts == [] {
      NothingFitsBand(a.p, numDc);
    } else {
      var rest := parts[1..];
      assert forall i :: 0 <= i < |rest| ==> rest[i] == parts[i + 1];
      IntervalFits(a, numDc, parts[0]);
      AcPartsFit(a, numDc, rest);
      var all := SegmentItems(a, parts);
      assert all[1..] == SegmentItems(a, rest);
      FlushedFirst(a.p, numDc, all[0], Flat(all[1..]));
    }
  }

  lemma AcLogIsFit(a: AcScan, numDc: nat, zs: seq<Block>, interval: nat)
    requires ValidAcScan(a) && numDc <= a.p.tbl && zs != [] && CodableParts(a, Intervals(OneBlockMcus(zs), interval))
    ensures var log := Flat(SegmentItems(a, Intervals(OneBlockMcus(zs), interval)));
            AreSymbols(numDc, log) && Within(log, [a.p.tbl]) && Sees(log, a.p.tbl)
  {
    hide CodableBlock, IntervalItems, Intervals, AreSymbols, Within;
    AcPartsFit(a, numDc, Intervals(OneBlockMcus(zs), interval));
    IntervalsHoldAll(OneBlockMcus(zs), interval);
    assert Flat(OneBlockMcus(zs))[0] == zs[0];
    var log := Flat(SegmentItems(a, Intervals(OneBlockMcus(zs), interval)));
    assert log[0].Sym? && log[0].tbl == a.p.tbl;
  }

  /** An AC scan, first or refining, in two passes. */
  method OptimizedAcScan(a: AcScan, numDc: nat, numTables: nat, interval: nat, zs: seq<Block>, destination: seq<byte>)
    returns (r: Outcome)
    requires ValidAcScan(a) && numDc <= a.p.tbl < numTables && zs != []
    requires var parts := Intervals(OneBlockMcus(zs), interval);
             CodableParts(a, parts) ==> TotalsBelow(Flat(SegmentItems(a, parts)), [a.p.tbl], MAX_TOTAL + 1)
    ensures r.OutOfRange? <==> !CodableParts(a, Intervals(OneBlockMcus(zs), interval))
    ensures r.CodeTooLong? ==> !TotalsBelow(Flat(SegmentItems(a, Intervals(OneBlockMcus(zs), interval))), [a.p.tbl], SAFE_TOTAL)
    ensures r.Coded? ==> var parts := Intervals(OneBlockMcus(zs), interval);
                         && |r.tables| == numTables && Reads(r.tables[a.p.tbl]) && SendableParts(a, r.tables, parts)
                         && r.output == destination + ScanBytes(ScanBits(a, r.tables, parts), 0)
  {
    hide HuffmanEncoder.Valid, HuffmanAcEncoder.Valid, AreSymbols, Within, Sees, Intervals, IsEncTable, AllMade,
         CodableBlock, IntervalItems, ScanBytes, ScanBits, Sendable, Reads, LogItems;
    ghost var parts := Intervals(OneBlockMcus(zs), interval);
    var counting := new HuffmanEncoder(true, seq(numTables, _ => NO_TABLE), []);
    var pass := new HuffmanAcEncoder(counting, a, interval);
    var ok := pass.EncodeAll(zs);
    if !ok { return OutOfRange; }
    ok := pass.FinishPass();
    AcLogIsFit(a, numDc, zs, interval);
    ghost var log := counting.Log();
    var derived;
    ok, derived := MakeTables(counting, numDc, [a.p.tbl]);
    if !ok { return CodeTooLong; }
    MadeTablesSuffice(log, numDc, [a.p.tbl], derived);
    FlatSendable(Public(derived), SegmentItems(a, parts));
    AllMadeAreTables(log, [a.p.tbl], derived);
    var coder := new HuffmanEncoder(false, derived, destination);
    assert coder.Tables() == Public(derived);
    var output := new HuffmanAcEncoder(coder, a, interval);
    ok := output.EncodeAll(zs);
    if !ok {
      LogIsSendable(a, Public(derived), parts);
      assert false;
    }
    ok := output.FinishPass();
    SameAcBits(a, Public(derived), parts);
    r := Coded(Public(derived), coder.writer.output);
  }

  /** What has been sent of the last interval is part of it. */
  lemma LogIsSendable(a: AcScan, tables: seq<HuffTable>, parts: seq<seq<Block>>)
    requires ValidAcScan(a) && parts != [] && AllSendable(tables, SegmentItems(a, parts))
    ensures AllSendable(tables, LogItems(a, parts))
  {
    hide Sendable, SentBy, FlushItems;
    var last := |parts| - 1;
    forall i | 0 <= i < |parts| ensures Sendable(tables, LogItems(a, parts)[i]) {
      assert Sendable(tables, SegmentItems(a, parts)[i]);
      var s := SentBy(a, parts[last]);
      SendableConcat(tables, s.items, FlushItems(a.p.tbl, s.pending));
    }
  }

  lemma SameAcBits(a: AcScan, tables: seq<HuffTable>, parts: seq<seq<Block>>)
    requires ValidAcScan(a) && AllSendable(tables, SegmentItems(a, parts))
    ensures SendableParts(a, tables, parts) && AllBits(tables, SegmentItems(a, parts)) == ScanBits(a, tables, parts)
  {
    hide Sendable, Bits, IntervalItems;
    var items := SegmentItems(a, parts);
    forall i | 0 <= i < |parts| ensures Sendable(tables, IntervalItems(a, parts[i])) {
      assert Sendable(tables, items[i]);
    }
  }
}
