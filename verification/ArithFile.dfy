/** All scans of an arithmetic-coded file, progressive or sequential: what the decoder holds of the image after each of
    them, and that a complete script gives the image back. */
module ArithFile {
  import opened Limits
  import opened Wrappers
  import opened Markers
  import opened EstimationTable
  import opened PointTransform
  import opened ArithCoding
  import opened ArithDecoding
  import opened ArithModel
  import opened ArithScan
  import opened McuTiling
  import opened ScanImages
  import opened ScanPlans
  import Script = ScanScript

  // ---------------------------------------------------------------- one scan

  /** A scan of the file, and the tables it uses. */
  datatype CodedScan = CodedScan(scan: ImageScan, tables: seq<CompTables>)

  predicate TablesExist(cs: CodedScan) {
    && |cs.tables| == |cs.scan.info.comps|
    && forall ci :: 0 <= ci < |cs.tables| ==> cs.tables[ci].dcTbl < NUM_ARITH_TBLS && cs.tables[ci].acTbl < NUM_ARITH_TBLS
  }

  function Params(cs: CodedScan): ScanParams
    requires ValidKind(cs.scan.info)
  {
    var s := cs.scan.info;
    ScanParams(!Script.IsSequential(s), s.ss, s.se, s.ah, s.al, 63, cs.tables)
  }

  function UnitsOf(img: Image, comps: seq<int>, cells: seq<Cell>): (us: seq<Unit>)
    requires CellsExist(img, comps, cells)
    ensures |us| == |cells|
  {
    seq(|cells|, j requires 0 <= j < |cells| => Unit(cells[j].ci, img[comps[cells[j].ci]][cells[j].index]))
  }

  function UnitsOfAll(img: Image, comps: seq<int>, plan: seq<seq<Cell>>): (parts: seq<seq<Unit>>)
    requires PlanExists(img, comps, plan)
    ensures |parts| == |plan| && forall p :: 0 <= p < |plan| ==> |parts[p]| == |plan[p]|
  {
    seq(|plan|, p requires 0 <= p < |plan| => UnitsOf(img, comps, plan[p]))
  }

  function Parts(img: Image, cs: CodedScan): (parts: seq<seq<Unit>>)
    requires PlanExists(img, cs.scan.info.comps, cs.scan.plan)
  {
    UnitsOfAll(img, cs.scan.info.comps, cs.scan.plan)
  }

  /** What the decoder needs of a scan header and of the image it has so far. */
  predicate Decodable(img: Image, cs: CodedScan) {
    && ValidKind(cs.scan.info) && ValidScan(Params(cs)) && TablesExist(cs)
    && cs.scan.plan != [] && PlanExists(img, cs.scan.info.comps, cs.scan.plan)
  }

  /** The blocks have 16-bit coefficients, and no DC difference exceeds what the model can code. */
  predicate Codable(img: Image, cs: CodedScan) {
    Decodable(img, cs) && ValidIntervals(Params(cs), Parts(img, cs))
  }

  /** The coder asks for what the image side calls ready, and gives what it calls improved. */
  lemma SameScan(cs: CodedScan, z: Block, b: Block)
    requires ValidKind(cs.scan.info) && ValidScan(Params(cs))
    ensures ScanImages.Ready(cs.scan.info, z, b) ==> Primed(Params(cs), z, b)
    ensures ArithScan.Improved(Params(cs), z, b) == ScanImages.Improved(cs.scan.info, z, b)
  {
    hide Approx, DcApprox, RefinedDc;
    if Script.IsSequential(cs.scan.info) {
      forall j | 0 <= j < 64 ensures Approx(z[j], 0) == z[j] && DcApprox(z[j], 0) == z[j] {
        ApproxAtZero(z[j]);
      }
    }
  }

  lemma IntervalPrimed(img: Image, cs: CodedScan, cur: Image, p: nat)
    requires Codable(img, cs) && SameShape(img, cur) && PlanReady(cs.scan.info, cs.scan.plan, img, cur) && p < |cs.scan.plan|
    ensures CellsExist(cur, cs.scan.info.comps, cs.scan.plan[p])
    ensures var comps, t := cs.scan.info.comps, ImprovedImage(cs.scan.info, img, cur);
            var us, bs := Parts(img, cs)[p], Gather(cur, comps, cs.scan.plan[p]);
            && AllPrimed(Params(cs), us, bs) && CellsExist(t, comps, cs.scan.plan[p])
            && AllImproved(Params(cs), us, bs) == Gather(t, comps, cs.scan.plan[p])
  {
    hide Primed, ArithScan.Improved, ScanImages.Ready, ScanImages.Improved, ValidScan, ValidIntervals, ImprovedImage, PlanReady,
         ValidKind;
    var s, comps, cells := cs.scan.info, cs.scan.info.comps, cs.scan.plan[p];
    IntervalCells(s, cs.scan.plan, img, cur, p);
    var us, zs, bs := Parts(img, cs)[p], Gather(img, comps, cells), Gather(cur, comps, cells);
    forall j | 0 <= j < |cells| ensures us[j].z == zs[j] {
    }
    forall j | 0 <= j < |cells|
      ensures Primed(Params(cs), us[j].z, bs[j])
      ensures ArithScan.Improved(Params(cs), us[j].z, bs[j]) == ScanImages.Improved(s, zs[j], bs[j])
    {
      SameScan(cs, zs[j], bs[j]);
    }
  }

  lemma ScanIsPrimed(img: Image, cs: CodedScan, cur: Image)
    requires Codable(img, cs) && SameShape(img, cur) && PlanReady(cs.scan.info, cs.scan.plan, img, cur)
    ensures var comps, plan, t := cs.scan.info.comps, cs.scan.plan, ImprovedImage(cs.scan.info, img, cur);
            && PlanExists(cur, comps, plan) && PlanExists(t, comps, plan)
            && ScanPrimed(Params(cs), Parts(img, cs), GatherAll(cur, comps, plan))
            && ScanImproved(Params(cs), Parts(img, cs), GatherAll(cur, comps, plan)) == GatherAll(t, comps, plan)
  {
    hide AllPrimed, AllImproved, ValidScan, ValidIntervals, ImprovedImage, PlanReady, CellsExist, Gather, UnitsOf;
    var comps, plan, t := cs.scan.info.comps, cs.scan.plan, ImprovedImage(cs.scan.info, img, cur);
    forall p | 0 <= p < |plan|
      ensures CellsExist(cur, comps, plan[p]) && CellsExist(t, comps, plan[p])
      ensures var us, bs := Parts(img, cs)[p], Gather(cur, comps, plan[p]);
              AllPrimed(Params(cs), us, bs) && AllImproved(Params(cs), us, bs) == Gather(t, comps, plan[p])
    {
      IntervalPrimed(img, cs, cur, p);
    }
  }

  lemma PlanHasShape(img: Image, cs: CodedScan)
    requires Decodable(img, cs)
    ensures ValidShape(Params(cs), PlanOrders(cs.scan.plan), GatherAll(img, cs.scan.info.comps, cs.scan.plan))
  {
    forall p | 0 <= p < |cs.scan.plan| ensures ComponentsExist(Params(cs), PlanOrders(cs.scan.plan)[p]) {
      assert CellsExist(img, cs.scan.info.comps, cs.scan.plan[p]);
    }
  }

  function DecodeOneScan(cs: CodedScan, input: seq<byte>, bins: seq<Stat>, img: Image): (x: Read<Image>)
    requires |bins| == NUM_BINS && Decodable(img, cs)
    ensures x.Got? ==> Readable(x.r) && SameShape(img, x.v)
  {
    hide DecodeScan, DecoderReset, Readable, ScatterAll;
    PlanHasShape(img, cs);
    var sc, comps, plan := Params(cs), cs.scan.info.comps, cs.scan.plan;
    var (r, bs) :- DecodeScan(sc, input, DecoderReset(sc, bins), PlanOrders(plan), GatherAll(img, comps, plan), 0);
    if FitsPlan(plan, bs) then Got(r, ScatterAll(img, comps, plan, bs)) else Bad
  }

  lemma OrdersOfPlan(img: Image, cs: CodedScan)
    requires Codable(img, cs)
    ensures Orders(Parts(img, cs)) == PlanOrders(cs.scan.plan)
  {
    hide ValidIntervals, ValidScan;
    var units := Parts(img, cs);
    forall p | 0 <= p < |cs.scan.plan| ensures Orders(units)[p] == PlanOrders(cs.scan.plan)[p] {
      assert Components(units[p]) == PlanOrders(cs.scan.plan)[p];
    }
  }

  function EncodeOneScan(img: Image, cs: CodedScan, bins: seq<Stat>): (w: Written)
    requires Codable(img, cs) && |bins| == NUM_BINS
    ensures |w.bins| == NUM_BINS
  {
    hide EncodeScan, EncoderReset;
    EncodeScan(Params(cs), EncoderReset(Params(cs), bins), Parts(img, cs), 0)
  }

  /** One scan improves the blocks that it goes through. */
  lemma OneScanDecodes(img: Image, cs: CodedScan, cur: Image, bins: seq<Stat>, tail: seq<byte>)
    requires Codable(img, cs) && SameShape(img, cur) && PlanReady(cs.scan.info, cs.scan.plan, img, cur)
    requires |bins| == NUM_BINS && IsMarkerTail(tail)
    ensures Decodable(cur, cs)
    ensures var w := EncodeOneScan(img, cs, bins);
            var x := DecodeOneScan(cs, w.bytes + tail, bins, cur);
            x.Got? && x.r.bins == w.bins && x.v == AfterScan(cs.scan.info, cs.scan.plan, img, cur)
  {
    ScanIsPrimed(img, cs, cur);
    OrdersOfPlan(img, cs);
    hide ValidScan, ValidIntervals, PlanReady, ScanPrimed, EncodeScan, DecodeScan, ScatterAll, EncoderReset, DecoderReset,
         PlanExists, PlanOrders, ScanImproved, IsMarkerTail, TablesExist, Orders, Readable, ImprovedImage, ValidKind;
    var sc, comps, plan := Params(cs), cs.scan.info.comps, cs.scan.plan;
    SameReset(sc, bins);
    PlanHasShape(cur, cs);
    ScanIsLossless(sc, EncoderReset(sc, bins), Parts(img, cs), GatherAll(cur, comps, plan), 0, tail);
  }

  // ---------------------------------------------------------------- all scans

  function Scans(css: seq<CodedScan>): (r: seq<ImageScan>)
    ensures |r| == |css|
  {
    seq(|css|, i requires 0 <= i < |css| => css[i].scan)
  }

  predicate AllCodable(img: Image, css: seq<CodedScan>) {
    forall i :: 0 <= i < |css| ==> Codable(img, css[i])
  }

  predicate AllDecodable(img: Image, css: seq<CodedScan>) {
    forall i :: 0 <= i < |css| ==> Decodable(img, css[i])
  }

  /** The entropy-coded data of every scan. The statistics areas that a scan uses are cleared when it starts. */
  function EncodeFile(img: Image, css: seq<CodedScan>, bins: seq<Stat>): (segments: seq<seq<byte>>)
    requires AllCodable(img, css) && |bins| == NUM_BINS
    ensures |segments| == |css|
    decreases |css|
  {
    hide EncodeOneScan, Codable;
    if css == [] then []
    else
      var w := EncodeOneScan(img, css[0], bins);
      [w.bytes] + EncodeFile(img, css[1..], w.bins)
  }

  function DecodeFile(css: seq<CodedScan>, inputs: seq<seq<byte>>, bins: seq<Stat>, img: Image): (x: Option<Image>)
    requires |bins| == NUM_BINS && |inputs| == |css| && AllDecodable(img, css)
    decreases |css|
  {
    hide DecodeOneScan, Readable, Decodable;
    if css == [] then Some(img)
    else
      match DecodeOneScan(css[0], inputs[0], bins, img)
      case Dry => None
      case Bad => None
      case Got(r, img1) =>
        DecodableElsewhere(img, img1, css);
        ReadableSize(r);
        DecodeFile(css[1..], inputs[1..], r.bins, img1)
  }

  lemma ReadableSize(r: DecRun)
    requires Readable(r)
    ensures |r.bins| == NUM_BINS
  {
  }

  lemma DecodableElsewhere(a: Image, b: Image, css: seq<CodedScan>)
    requires SameShape(a, b) && AllDecodable(a, css)
    ensures AllDecodable(b, css)
  {
    hide PlanExists, ValidScan, TablesExist;
    forall i | 0 <= i < |css| ensures Decodable(b, css[i]) {
      PlanElsewhere(a, b, css[i].scan.info.comps, css[i].scan.plan);
    }
  }

  predicate AllMarkers(tails: seq<seq<byte>>) { forall i :: 0 <= i < |tails| ==> IsMarkerTail(tails[i]) }

  /** Scan after scan, the decoder's arrays go through the same states as on the side of the image. */
  lemma {:induction false} ScansDecode(img: Image, css: seq<CodedScan>, cur: Image, bins: seq<Stat>, tails: seq<seq<byte>>)
    requires AllCodable(img, css) && SameShape(img, cur) && RunReady(img, Scans(css), cur)
    requires |bins| == NUM_BINS && |tails| == |css| && AllMarkers(tails)
    ensures AllDecodable(cur, css)
    ensures DecodeFile(css, Inputs(EncodeFile(img, css, bins), tails), bins, cur) == Some(AfterScans(img, Scans(css), cur))
    decreases |css|
  {
    hide Codable, Decodable, EncodeOneScan, DecodeOneScan, IsMarkerTail, Readable, PlanReady, AfterScan, ValidKind, PlanExists,
         SameShape;
    CodableElsewhere(img, cur, css);
    if css != [] {
      var cs := css[0];
      assert Scans(css)[0] == cs.scan && Scans(css)[1..] == Scans(css[1..]);
      OneScanDecodes(img, cs, cur, bins, tails[0]);
      var w := EncodeOneScan(img, cs, bins);
      var inputs := Inputs(EncodeFile(img, css, bins), tails);
      assert inputs[1..] == Inputs(EncodeFile(img, css[1..], w.bins), tails[1..]);
      ScansDecode(img, css[1..], AfterScan(cs.scan.info, cs.scan.plan, img, cur), w.bins, tails[1..]);
    }
  }

  lemma CodableElsewhere(img: Image, cur: Image, css: seq<CodedScan>)
    requires AllCodable(img, css) && SameShape(img, cur)
    ensures AllDecodable(cur, css)
  {
    hide Decodable, ValidIntervals;
    assert AllDecodable(img, css) by {
      forall i | 0 <= i < |css| ensures Decodable(img, css[i]) {
        assert Codable(img, css[i]);
      }
    }
    DecodableElsewhere(img, cur, css);
  }

  /** After the scans of an accepted script the decoder holds every block inside the image at the precision of its last
      scans: DC values shifted, AC values truncated by magnitude. Blocks that only fill up MCUs may be in some scans of
      their component and not in others. */
  lemma ScansAreLossless(img: Image, css: seq<CodedScan>, inside: set<(nat, nat)>, bins: seq<Stat>, tails: seq<seq<byte>>)
    requires AllCover(img, Scans(css), inside) && Script.ScriptFault(|img|, Infos(Scans(css))).None?
    requires AllCodable(img, css) && |bins| == NUM_BINS && |tails| == |css| && AllMarkers(tails)
    ensures AllDecodable(Blank(img), css)
    ensures var x := DecodeFile(css, Inputs(EncodeFile(img, css, bins), tails), bins, Blank(img));
            x.Some? && Holds(img, ScriptBits(|img|, Infos(Scans(css))), inside, x.value)
  {
    hide *;
    ScriptIsHeld(img, Scans(css), inside);
    HoldsShape(img, Script.Fresh(|img|), inside, Blank(img)) by { NothingIsKnown(img, inside); }
    ScansDecode(img, css, Blank(img), bins, tails);
  }

  /** The same over the geometry of an image: whatever its size and sampling factors, with dummy blocks at its edges in some
      scans, and whatever the restart intervals, the blocks of the image are at the precision of their last scans. */
  lemma FrameIsLossless(frame: Scan, planes: seq<Plane>, css: seq<CodedScan>, intervals: seq<nat>, bins: seq<Stat>,
                        tails: seq<seq<byte>>)
    requires frame.Valid() && frame.Shaped(planes) && OverFrame(frame, Scans(css), intervals)
    requires Script.ScriptFault(|frame.comps|, Infos(Scans(css))).None?
    requires AllCodable(Buffers(frame, planes), css) && |bins| == NUM_BINS && |tails| == |css| && AllMarkers(tails)
    ensures var img := Buffers(frame, planes);
            && AllDecodable(Blank(img), css)
            && var x := DecodeFile(css, Inputs(EncodeFile(img, css, bins), tails), bins, Blank(img));
               x.Some? && PlanesHeld(frame, planes, x.value, ScriptBits(|frame.comps|, Infos(Scans(css))))
  {
    hide *;
    var img, inside := Buffers(frame, planes), ImageBlocks(frame);
    ScriptCovers(frame, planes, Scans(css), intervals);
    ScansAreLossless(img, css, inside, bins, tails);
    HeldInPlanes(frame, planes, ScriptBits(|frame.comps|, Infos(Scans(css))),
                 DecodeFile(css, Inputs(EncodeFile(img, css, bins), tails), bins, Blank(img)).value);
  }

  /** With the recommended script, or any sequential one, the blocks of the image are exactly restored. */
  lemma CompleteFrameIsRestored(frame: Scan, planes: seq<Plane>, ycc: bool, css: seq<CodedScan>, intervals: seq<nat>,
                                bins: seq<Stat>, tails: seq<seq<byte>>)
    requires frame.Valid() && frame.Shaped(planes) && OverFrame(frame, Scans(css), intervals)
    requires SendsEverything(|frame.comps|, Infos(Scans(css)), ycc)
    requires AllCodable(Buffers(frame, planes), css) && |bins| == NUM_BINS && |tails| == |css| && AllMarkers(tails)
    ensures var img := Buffers(frame, planes);
            && AllDecodable(Blank(img), css)
            && var x := DecodeFile(css, Inputs(EncodeFile(img, css, bins), tails), bins, Blank(img));
               x.Some? && PlanesRestored(frame, planes, x.value)
  {
    hide *;
    var img := Buffers(frame, planes);
    EverythingIsSent(|frame.comps|, Infos(Scans(css)), ycc);
    FrameIsLossless(frame, planes, css, intervals, bins, tails);
    AllSentIsRestored(frame, planes, DecodeFile(css, Inputs(EncodeFile(img, css, bins), tails), bins, Blank(img)).value,
                      ScriptBits(|frame.comps|, Infos(Scans(css))));
  }
}
