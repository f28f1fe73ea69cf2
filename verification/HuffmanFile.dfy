/** All scans of a Huffman-coded file, progressive or sequential: what the decoder holds of the image after each of
    them, and that a complete script gives the image back. */
module HuffmanFile {
  import opened Wrappers
  import opened Markers
  import opened EstimationTable
  import opened PointTransform
  import opened BitWriting
  import opened HuffmanTables
  import opened HuffmanItems
  import opened HuffmanEobRuns
  import opened HuffmanSegments
  import opened McuTiling
  import opened ScanImages
  import opened ScanPlans
  import Script = ScanScript
  import S = HuffmanSequential
  import Ac = HuffmanAcScans
  import Dc = HuffmanDcRefinement
  import First = HuffmanFirst
  import R = HuffmanRefinement

  // ---------------------------------------------------------------- one scan

  /** A scan of the file, the tables of its components, and the tables in force. */
  datatype CodedScan = CodedScan(scan: ImageScan, comps: seq<S.SeqComp>, tables: seq<HuffTable>)
  {
    predicate CodesDcValues() { scan.info.ss == 0 && scan.info.ah == 0 }

    predicate RefinesDc() { scan.info.ss == 0 && scan.info.ah != 0 }
  }

  /** A sequential scan, or the first DC scan. */
  function DcScan(cs: CodedScan): S.SeqScan
    requires ValidKind(cs.scan.info)
  {
    S.SeqScan(cs.scan.info.se, cs.scan.info.al, cs.comps)
  }

  function AcScan(cs: CodedScan): (a: Ac.AcScan)
    requires ValidKind(cs.scan.info) && cs.scan.info.ss > 0 && |cs.comps| >= 1
    ensures Ac.ValidAcScan(a)
  {
    Ac.AcScan(Band(cs.scan.info.ss, cs.scan.info.se, cs.scan.info.al, cs.comps[0].acTbl), cs.scan.info.ah == 0)
  }

  /** What the decoder needs of the scan header and the tables. */
  predicate Decodable(img: Image, cs: CodedScan) {
    && ValidKind(cs.scan.info) && |cs.comps| == |cs.scan.info.comps|
    && cs.scan.plan != [] && PlanExists(img, cs.scan.info.comps, cs.scan.plan)
    && (cs.CodesDcValues() ==> S.ValidScan(DcScan(cs), cs.tables))
    && (cs.scan.info.ss > 0 ==> |cs.comps| == 1 && cs.comps[0].acTbl < |cs.tables| && Reads(cs.tables[cs.comps[0].acTbl]))
  }

  function UnitsOf(img: Image, comps: seq<int>, cells: seq<Cell>): (us: seq<S.Unit>)
    requires CellsExist(img, comps, cells)
    ensures |us| == |cells|
  {
    seq(|cells|, j requires 0 <= j < |cells| => S.Unit(cells[j].ci, img[comps[cells[j].ci]][cells[j].index]))
  }

  function Parts(img: Image, cs: CodedScan): (parts: seq<seq<S.Unit>>)
    requires PlanExists(img, cs.scan.info.comps, cs.scan.plan)
    ensures |parts| == |cs.scan.plan|
  {
    seq(|cs.scan.plan|, p requires 0 <= p < |cs.scan.plan| => UnitsOf(img, cs.scan.info.comps, cs.scan.plan[p]))
  }

  /** The blocks of the intervals. */
  function Blocks(img: Image, cs: CodedScan): (parts: seq<seq<Block>>)
    requires PlanExists(img, cs.scan.info.comps, cs.scan.plan)
    ensures |parts| == |cs.scan.plan|
  {
    GatherAll(img, cs.scan.info.comps, cs.scan.plan)
  }

  /** The encoder does not fail: no coefficient is out of range, and every symbol has a code. */
  predicate Codable(img: Image, cs: CodedScan) {
    && Decodable(img, cs)
    && (cs.CodesDcValues() ==> S.CodableScan(DcScan(cs), cs.tables, Parts(img, cs)))
    && (cs.scan.info.ss > 0 ==>
          Ac.CodableParts(AcScan(cs), Blocks(img, cs)) && Ac.SendableParts(AcScan(cs), cs.tables, Blocks(img, cs)))
  }

  /** The bits of every interval. */
  function ScanBits(img: Image, cs: CodedScan): (bits: seq<seq<bool>>)
    requires Codable(img, cs)
    ensures |bits| == |cs.scan.plan|
  {
    if cs.CodesDcValues() then S.ScanBits(DcScan(cs), cs.tables, Parts(img, cs))
    else if cs.RefinesDc() then Dc.ScanBits(cs.scan.info.al, Blocks(img, cs))
    else Ac.ScanBits(AcScan(cs), cs.tables, Blocks(img, cs))
  }

  /** The entropy-coded data of the scan. */
  function EncodeOneScan(img: Image, cs: CodedScan): seq<byte>
    requires Codable(img, cs)
  {
    ScanBytes(ScanBits(img, cs), 0)
  }

  function Answer<T>(x: BitRead<T>): Option<T> {
    match x
    case Suspend => None
    case Done(_, v) => Some(v)
  }

  /** The blocks of one interval, decoded into the areas `bs`. */
  function ReadPart(cs: CodedScan, s: seq<bool>, cis: seq<nat>, bs: seq<Block>): Option<seq<Block>>
    requires ValidKind(cs.scan.info) && |cs.comps| == |cs.scan.info.comps| && |bs| == |cis|
    requires cs.CodesDcValues() ==> S.ValidScan(DcScan(cs), cs.tables) && forall j :: 0 <= j < |cis| ==> cis[j] < |cs.comps|
    requires cs.scan.info.ss > 0 ==> |cs.comps| == 1 && cs.comps[0].acTbl < |cs.tables| && Reads(cs.tables[cs.comps[0].acTbl])
  {
    if cs.CodesDcValues() then
      match S.ReadUnits(DcScan(cs), cs.tables, S.ResetDc(DcScan(cs)), s, cis, bs)
      case Suspend => None
      case Done(_, v) => Some(v.1)
    else if cs.RefinesDc() then Answer(Dc.ReadDcBits(cs.scan.info.al, s, bs))
    else Answer(Ac.ReadInterval(AcScan(cs), cs.tables[cs.comps[0].acTbl], s, bs))
  }

  lemma PlanOrder(img: Image, cs: CodedScan, p: nat)
    requires Decodable(img, cs) && p < |cs.scan.plan|
    ensures var cis := PlanOrders(cs.scan.plan)[p];
            |cis| == |cs.scan.plan[p]| && forall j :: 0 <= j < |cis| ==> cis[j] < |cs.comps|
  {
    var comps, cells := cs.scan.info.comps, cs.scan.plan[p];
    assert CellsExist(img, comps, cells);
    forall j | 0 <= j < |cells| ensures cells[j].ci < |cs.comps| {
      assert CellExists(img, comps, cells[j]);
    }
  }

  function ReadParts(cs: CodedScan, segments: seq<seq<bool>>, img: Image, n: nat): Option<seq<seq<Block>>>
    requires Decodable(img, cs) && |segments| == |cs.scan.plan| && n <= |cs.scan.plan|
  {
    hide ReadPart;
    if n == 0 then Some([])
    else
      PlanOrder(img, cs, n - 1);
      var x := ReadPart(cs, segments[n - 1], PlanOrders(cs.scan.plan)[n - 1], Blocks(img, cs)[n - 1]);
      match ReadParts(cs, segments, img, n - 1)
      case None => None
      case Some(front) => if x.Some? then Some(front + [x.value]) else None
  }

  function DecodeOneScan(cs: CodedScan, input: seq<byte>, img: Image): (x: Option<Image>)
    requires Decodable(img, cs)
    ensures x.Some? ==> SameShape(img, x.value)
  {
    hide ReadParts, ScatterAll, Split;
    match Split(input, |cs.scan.plan|, 0)
    case None => None
    case Some(segments) =>
      match ReadParts(cs, segments, img, |cs.scan.plan|)
      case None => None
      case Some(bs) =>
        if FitsPlan(cs.scan.plan, bs) then Some(ScatterAll(img, cs.scan.info.comps, cs.scan.plan, bs)) else None
  }

  // ---------------------------------------------------------------- every kind of scan

  /** The blocks of an interval as they are after the scan. */
  predicate ImprovedTo(s: Script.ScanInfo, zs: seq<Block>, bs: seq<Block>, r: seq<Block>)
    requires ValidKind(s)
  {
    |zs| == |bs| == |r| && forall j :: 0 <= j < |zs| ==> r[j] == Improved(s, zs[j], bs[j])
  }

  predicate ReadyFor(s: Script.ScanInfo, zs: seq<Block>, bs: seq<Block>)
    requires ValidKind(s)
  {
    |zs| == |bs| && forall j :: 0 <= j < |zs| ==> Ready(s, zs[j], bs[j]) && IsShortBlock(zs[j])
  }

  lemma DcPartReads(cs: CodedScan, us: seq<S.Unit>, zs: seq<Block>, bs: seq<Block>)
    requires ValidKind(cs.scan.info) && |cs.comps| == |cs.scan.info.comps| && cs.CodesDcValues() && S.ValidScan(DcScan(cs), cs.tables)
    requires ReadyFor(cs.scan.info, zs, bs) && |us| == |zs| && forall j :: 0 <= j < |us| ==> us[j].z == zs[j]
    requires S.CodableUnits(DcScan(cs), S.ResetDc(DcScan(cs)), us)
    requires Sendable(cs.tables, S.UnitsItems(DcScan(cs), S.ResetDc(DcScan(cs)), us))
    ensures forall j :: 0 <= j < |us| ==> S.Components(us)[j] < |cs.comps|
    ensures var sc := DcScan(cs);
            var x := ReadPart(cs, Padded(Bits(cs.tables, S.UnitsItems(sc, S.ResetDc(sc), us))), S.Components(us), bs);
            x.Some? && ImprovedTo(cs.scan.info, zs, bs, x.value)
  {
    hide S.UnitsItems, S.CodableUnits, S.ReadUnits, Sendable, Bits, Padded, DcApprox, S.ValidScan;
    var sc := DcScan(cs);
    S.IntervalReadsBack(sc, cs.tables, us, bs);
    forall j | 0 <= j < |us| ensures S.Coded(sc, zs[j], bs[j]) == Improved(cs.scan.info, zs[j], bs[j]) {
      CodedIsImproved(cs, zs[j], bs[j]);
    }
  }

  lemma CodedIsImproved(cs: CodedScan, z: Block, b: Block)
    requires ValidKind(cs.scan.info) && cs.CodesDcValues()
    ensures S.Coded(DcScan(cs), z, b) == Improved(cs.scan.info, z, b)
  {
    hide DcApprox, Approx;
    if cs.scan.info.se > 0 {
      S.FullBlockIsCoded(DcScan(cs), z, b);
      forall j | 0 <= j < 64 ensures Approx(z[j], 0) == z[j] { ApproxAtZero(z[j]); }
    }
  }

  lemma DcBitsPartReads(cs: CodedScan, zs: seq<Block>, bs: seq<Block>, cis: seq<nat>)
    requires ValidKind(cs.scan.info) && |cs.comps| == |cs.scan.info.comps| && cs.RefinesDc() && |zs| == |bs| == |cis|
    ensures var x := ReadPart(cs, Padded(Dc.DcBits(cs.scan.info.al, zs)), cis, bs);
            x.Some? && ImprovedTo(cs.scan.info, zs, bs, x.value)
  {
    hide Dc.ReadDcBits, Padded, Dc.DcBits, RefinedDc;
    Dc.PartReadsBack(cs.scan.info.al, zs, bs);
  }

  lemma AcPartReads(cs: CodedScan, zs: seq<Block>, bs: seq<Block>, cis: seq<nat>)
    requires ValidKind(cs.scan.info) && |cs.comps| == |cs.scan.info.comps| == 1 && cs.scan.info.ss > 0 && |zs| == |bs| == |cis|
    requires cs.comps[0].acTbl < |cs.tables| && Reads(cs.tables[cs.comps[0].acTbl])
    requires cs.scan.info.ah != 0 ==> cs.scan.info.ah == cs.scan.info.al + 1
    requires ReadyFor(cs.scan.info, zs, bs) && forall j :: 0 <= j < |zs| ==> Ac.CodableBlock(AcScan(cs), zs[j])
    requires Sendable(cs.tables, Ac.IntervalItems(AcScan(cs), zs))
    ensures var x := ReadPart(cs, Padded(Bits(cs.tables, Ac.IntervalItems(AcScan(cs), zs))), cis, bs);
            x.Some? && ImprovedTo(cs.scan.info, zs, bs, x.value)
  {
    hide Ac.ReadInterval, Padded, Bits, Sendable, Ac.IntervalItems, Reads, Approx, First.CodableBand;
    var a := AcScan(cs);
    assert Ac.AllReady(a, zs, bs) by { AcReady(cs, zs, bs); }
    Ac.IntervalReadsBack(a, cs.tables, zs, bs);
    forall j | 0 <= j < |zs|
      ensures R.Refined(a.p, bs[j], zs[j], a.p.ss, a.p.se + 1) == Improved(cs.scan.info, zs[j], bs[j])
    {
    }
  }

  lemma AcReady(cs: CodedScan, zs: seq<Block>, bs: seq<Block>)
    requires ValidKind(cs.scan.info) && |cs.comps| == 1 && cs.scan.info.ss > 0
    requires cs.scan.info.ah != 0 ==> cs.scan.info.ah == cs.scan.info.al + 1
    requires ReadyFor(cs.scan.info, zs, bs) && forall j :: 0 <= j < |zs| ==> Ac.CodableBlock(AcScan(cs), zs[j])
    ensures Ac.AllReady(AcScan(cs), zs, bs)
  {
    hide Approx, First.CodableBand, IsShortBlock;
  }

  /** The refinement parameters that the scripts let through. */
  predicate RefinesByOne(s: Script.ScanInfo) { s.ah != 0 ==> s.ah == s.al + 1 }

  /** Whatever the kind of scan, an interval is read back improved. */
  lemma PartReads(img: Image, cs: CodedScan, cur: Image, p: nat)
    requires Codable(img, cs) && ShortImage(img) && SameShape(img, cur) && RefinesByOne(cs.scan.info)
    requires PlanReady(cs.scan.info, cs.scan.plan, img, cur) && p < |cs.scan.plan|
    ensures Decodable(cur, cs)
    ensures var comps, cis, t := cs.scan.info.comps, PlanOrders(cs.scan.plan)[p], ImprovedImage(cs.scan.info, img, cur);
            && |cis| == |cs.scan.plan[p]| && (forall j :: 0 <= j < |cis| ==> cis[j] < |cs.comps|)
            && CellsExist(t, comps, cs.scan.plan[p])
            && ReadPart(cs, Padded(ScanBits(img, cs)[p]), cis, Blocks(cur, cs)[p]) == Some(Gather(t, comps, cs.scan.plan[p]))
  {
    hide Ready, Improved, ImprovedImage, PlanReady, ReadPart, Padded, Bits, Sendable, S.UnitsItems, S.CodableUnits, S.ValidScan,
         Ac.IntervalItems, Ac.CodableBlock, Dc.DcBits, Reads, PlanExists, CellExists, ShortImage;
    var s, comps, plan := cs.scan.info, cs.scan.info.comps, cs.scan.plan;
    PlanElsewhere(img, cur, comps, plan);
    PlanOrder(cur, cs, p);
    IntervalCells(s, plan, img, cur, p);
    var t, zs, bs := ImprovedImage(s, img, cur), Gather(img, comps, plan[p]), Gather(cur, comps, plan[p]);
    assert Blocks(img, cs)[p] == zs && Blocks(cur, cs)[p] == bs;
    var r := Gather(t, comps, plan[p]);
    if cs.CodesDcValues() {
      var us := Parts(img, cs)[p];
      assert S.Components(us) == PlanOrders(plan)[p];
      DcPartReads(cs, us, zs, bs);
    } else if cs.RefinesDc() {
      DcBitsPartReads(cs, zs, bs, PlanOrders(plan)[p]);
    } else {
      forall j | 0 <= j < |zs| ensures Ac.CodableBlock(AcScan(cs), zs[j]) {
        assert Ac.CodableBlock(AcScan(cs), Blocks(img, cs)[p][j]);
      }
      AcPartReads(cs, zs, bs, PlanOrders(plan)[p]);
    }
    var x := ReadPart(cs, Padded(ScanBits(img, cs)[p]), PlanOrders(plan)[p], bs);
    assert x.value == r;
  }

  lemma {:induction false} PartsRead(img: Image, cs: CodedScan, cur: Image, n: nat)
    requires Codable(img, cs) && ShortImage(img) && SameShape(img, cur) && RefinesByOne(cs.scan.info)
    requires PlanReady(cs.scan.info, cs.scan.plan, img, cur) && n <= |cs.scan.plan|
    ensures Decodable(cur, cs)
    ensures PlanExists(ImprovedImage(cs.scan.info, img, cur), cs.scan.info.comps, cs.scan.plan)
    ensures ReadParts(cs, AllPadded(ScanBits(img, cs)), cur, n)
         == Some(GatherAll(ImprovedImage(cs.scan.info, img, cur), cs.scan.info.comps, cs.scan.plan)[..n])
    decreases n
  {
    hide ImprovedImage, PlanReady, ReadPart, Padded, ScanBits, Codable, ShortImage, Decodable, CellsExist, Gather;
    CodableMeans(img, cs, cur);
    var t, comps, plan := ImprovedImage(cs.scan.info, img, cur), cs.scan.info.comps, cs.scan.plan;
    PlanElsewhere(img, t, comps, plan);
    var all := GatherAll(t, comps, plan);
    if n > 0 {
      PartsRead(img, cs, cur, n - 1);
      PartReads(img, cs, cur, n - 1);
      PlanOrder(cur, cs, n - 1);
      assert all[..n] == all[..n - 1] + [all[n - 1]];
    }
  }

  lemma CodableMeans(img: Image, cs: CodedScan, cur: Image)
    requires Codable(img, cs) && SameShape(img, cur)
    ensures Decodable(img, cs) && Decodable(cur, cs) && ValidKind(cs.scan.info) && cs.scan.plan != []
    ensures PlanExists(img, cs.scan.info.comps, cs.scan.plan)
  {
    PlanElsewhere(img, cur, cs.scan.info.comps, cs.scan.plan);
  }

  /** One scan improves the blocks that it goes through. */
  lemma OneScanDecodes(img: Image, cs: CodedScan, cur: Image, tail: seq<byte>)
    requires Codable(img, cs) && ShortImage(img) && SameShape(img, cur) && RefinesByOne(cs.scan.info) && IsMarkerTail(tail)
    requires PlanReady(cs.scan.info, cs.scan.plan, img, cur)
    ensures Decodable(cur, cs) && ValidKind(cs.scan.info) && PlanExists(img, cs.scan.info.comps, cs.scan.plan)
    ensures DecodeOneScan(cs, EncodeOneScan(img, cs) + tail, cur) == Some(AfterScan(cs.scan.info, cs.scan.plan, img, cur))
  {
    hide ImprovedImage, PlanReady, Codable, Decodable, ScanBits, AllPadded, Split, ScanBytes, ReadParts, ScatterAll, GatherAll,
         ShortImage, PlanExists, ValidKind;
    CodableMeans(img, cs, cur);
    PlanNotEmpty(cs);
    var bits, n := ScanBits(img, cs), |cs.scan.plan|;
    SegmentsAreSplit(bits, 0, tail);
    PartsRead(img, cs, cur, n);
    var all := GatherAll(ImprovedImage(cs.scan.info, img, cur), cs.scan.info.comps, cs.scan.plan);
    assert all[..n] == all;
  }

  lemma PlanNotEmpty(cs: CodedScan)
    requires cs.scan.plan != []
    ensures |cs.scan.plan| >= 1
  {
  }

  // ---------------------------------------------------------------- all scans

  function Scans(css: seq<CodedScan>): (r: seq<ImageScan>)
    ensures |r| == |css|
  {
    seq(|css|, i requires 0 <= i < |css| => css[i].scan)
  }

  predicate AllCodable(img: Image, css: seq<CodedScan>) {
    forall i :: 0 <= i < |css| ==> Codable(img, css[i])
  }

  predicate AllDecodable(img: Image, css: seq<CodedScan>) {
    forall i :: 0 <= i < |css| ==> Decodable(img, css[i])
  }

  function EncodeFile(img: Image, css: seq<CodedScan>): (segments: seq<seq<byte>>)
    requires AllCodable(img, css)
    ensures |segments| == |css|
  {
    seq(|css|, i requires 0 <= i < |css| => EncodeOneScan(img, css[i]))
  }

  function DecodeFile(css: seq<CodedScan>, inputs: seq<seq<byte>>, img: Image): (x: Option<Image>)
    requires |inputs| == |css| && AllDecodable(img, css)
    decreases |css|
  {
    hide DecodeOneScan, Decodable;
    if css == [] then Some(img)
    else
      match DecodeOneScan(css[0], inputs[0], img)
      case None => None
      case Some(img1) =>
        DecodableElsewhere(img, img1, css);
        DecodeFile(css[1..], inputs[1..], img1)
  }

  lemma DecodableElsewhere(a: Image, b: Image, css: seq<CodedScan>)
    requires SameShape(a, b) && AllDecodable(a, css)
    ensures AllDecodable(b, css)
  {
    hide PlanExists, S.ValidScan;
    forall i | 0 <= i < |css| ensures Decodable(b, css[i]) {
      PlanElsewhere(a, b, css[i].scan.info.comps, css[i].scan.plan);
    }
  }

  predicate AllMarkers(tails: seq<seq<byte>>) { forall i :: 0 <= i < |tails| ==> IsMarkerTail(tails[i]) }

  predicate AllByOne(script: seq<Script.ScanInfo>) { forall i :: 0 <= i < |script| ==> RefinesByOne(script[i]) }

  lemma {:induction false} DueMeansByOne(bits: seq<Script.BitRow>, script: seq<Script.ScanInfo>)
    requires AllScansDue(bits, script) && forall i :: 0 <= i < |script| ==> script[i].comps != []
    ensures AllByOne(script)
    decreases |script|
  {
    hide SentBits;
    if script != [] {
      var s, c := script[0], script[0].comps[0];
      assert c in s.comps && Due(bits[c], s) && Script.CoefficientFollows(bits[c][s.ss], s.ah, s.al);
      forall i | 0 <= i < |script[1..]| ensures script[1..][i].comps != [] {
        assert script[1..][i] == script[i + 1];
      }
      DueMeansByOne(SentBits(bits, s), script[1..]);
      assert forall i :: 0 < i < |script| ==> script[i] == script[1..][i - 1];
    }
  }

  /** Scan after scan, the decoder's arrays go through the same states as on the side of the image. */
  lemma {:induction false} ScansDecode(img: Image, css: seq<CodedScan>, cur: Image, tails: seq<seq<byte>>)
    requires AllCodable(img, css) && ShortImage(img) && SameShape(img, cur) && RunReady(img, Scans(css), cur)
    requires AllByOne(Infos(Scans(css))) && |tails| == |css| && AllMarkers(tails)
    ensures AllDecodable(cur, css)
    ensures DecodeFile(css, Inputs(EncodeFile(img, css), tails), cur) == Some(AfterScans(img, Scans(css), cur))
    decreases |css|
  {
    hide Codable, Decodable, EncodeOneScan, DecodeOneScan, IsMarkerTail, PlanReady, AfterScan, ValidKind, PlanExists, SameShape,
         ShortImage, RefinesByOne;
    CodableElsewhere(img, cur, css);
    if css != [] {
      var cs, infos := css[0], Infos(Scans(css));
      assert Scans(css)[0] == cs.scan && Scans(css)[1..] == Scans(css[1..]);
      assert infos[0] == cs.scan.info && infos[1..] == Infos(Scans(css[1..]));
      OneScanDecodes(img, cs, cur, tails[0]);
      var inputs := Inputs(EncodeFile(img, css), tails);
      assert inputs[1..] == Inputs(EncodeFile(img, css[1..]), tails[1..]);
      ScansDecode(img, css[1..], AfterScan(cs.scan.info, cs.scan.plan, img, cur), tails[1..]);
    }
  }

  lemma CodableElsewhere(img: Image, cur: Image, css: seq<CodedScan>)
    requires AllCodable(img, css) && SameShape(img, cur)
    ensures AllDecodable(cur, css)
  {
    hide Codable, Decodable;
    forall i | 0 <= i < |css| ensures Decodable(cur, css[i]) {
      CodableMeans(img, css[i], cur);
    }
  }

  /** After the scans of an accepted script, sequential or progressive, the decoder holds every block inside the image at the
      precision of its last scans. */
  lemma ScansAreLossless(img: Image, css: seq<CodedScan>, inside: set<(nat, nat)>, tails: seq<seq<byte>>)
    requires ShortImage(img) && AllCover(img, Scans(css), inside) && Script.ScriptFault(|img|, Infos(Scans(css))).None?
    requires AllCodable(img, css) && |tails| == |css| && AllMarkers(tails)
    ensures AllDecodable(Blank(img), css)
    ensures var x := DecodeFile(css, Inputs(EncodeFile(img, css), tails), Blank(img));
            x.Some? && ScanImages.Holds(img, ScriptBits(|img|, Infos(Scans(css))), inside, x.value)
  {
    hide *;
    ScriptIsHeld(img, Scans(css), inside);
    HoldsShape(img, Script.Fresh(|img|), inside, Blank(img)) by { NothingIsKnown(img, inside); }
    AcceptedScript(|img|, Infos(Scans(css)));
    AcceptedHaveComponents(|img|, Infos(Scans(css)));
    DueMeansByOne(Script.Fresh(|img|), Infos(Scans(css)));
    ScansDecode(img, css, Blank(img), tails);
  }

  /** The same over the geometry of an image: whatever its size and sampling factors, with dummy blocks at its edges in some
      scans, and whatever the restart intervals, the blocks of the image are at the precision of their last scans. */
  lemma FrameIsLossless(frame: Scan, planes: seq<Plane>, css: seq<CodedScan>, intervals: seq<nat>, tails: seq<seq<byte>>)
    requires frame.Valid() && frame.Shaped(planes) && ShortPlanes(planes) && OverFrame(frame, Scans(css), intervals)
    requires Script.ScriptFault(|frame.comps|, Infos(Scans(css))).None?
    requires AllCodable(Buffers(frame, planes), css) && |tails| == |css| && AllMarkers(tails)
    ensures var img := Buffers(frame, planes);
            && AllDecodable(Blank(img), css)
            && var x := DecodeFile(css, Inputs(EncodeFile(img, css), tails), Blank(img));
               x.Some? && PlanesHeld(frame, planes, x.value, ScriptBits(|frame.comps|, Infos(Scans(css))))
  {
    hide *;
    var img, inside := Buffers(frame, planes), ImageBlocks(frame);
    ScriptCovers(frame, planes, Scans(css), intervals);
    BuffersAreShort(frame, planes);
    ScansAreLossless(img, css, inside, tails);
    HeldInPlanes(frame, planes, ScriptBits(|frame.comps|, Infos(Scans(css))),
                 DecodeFile(css, Inputs(EncodeFile(img, css), tails), Blank(img)).value);
  }

  /** With the recommended script, or any sequential one, the blocks of the image are exactly restored. */
  lemma CompleteFrameIsRestored(frame: Scan, planes: seq<Plane>, ycc: bool, css: seq<CodedScan>, intervals: seq<nat>,
                                tails: seq<seq<byte>>)
    requires frame.Valid() && frame.Shaped(planes) && ShortPlanes(planes) && OverFrame(frame, Scans(css), intervals)
    requires SendsEverything(|frame.comps|, Infos(Scans(css)), ycc)
    requires AllCodable(Buffers(frame, planes), css) && |tails| == |css| && AllMarkers(tails)
    ensures var img := Buffers(frame, planes);
            && AllDecodable(Blank(img), css)
            && var x := DecodeFile(css, Inputs(EncodeFile(img, css), tails), Blank(img));
               x.Some? && PlanesRestored(frame, planes, x.value)
  {
    hide *;
    var img := Buffers(frame, planes);
    EverythingIsSent(|frame.comps|, Infos(Scans(css)), ycc);
    FrameIsLossless(frame, planes, css, intervals, tails);
    AllSentIsRestored(frame, planes, DecodeFile(css, Inputs(EncodeFile(img, css), tails), Blank(img)).value,
                      ScriptBits(|frame.comps|, Infos(Scans(css))));
  }
}
