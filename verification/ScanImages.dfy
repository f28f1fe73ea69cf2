/** The image as the decoder holds it while the scans of a file come in: what is known of a block when the bits up to
    certain positions have been sent, what a scan adds, and what an accepted script leaves, whichever entropy coder is
    used. The blocks that only fill up MCUs at the edges are part of the image here. */
module ScanImages {
  import opened EstimationTable
  import opened Arithmetic
  import opened PointTransform
  import opened ScanScript
  import SimpleProgression

  // ---------------------------------------------------------------- one block

  /** The coefficients of `z` as far as the bit positions of `row` say they have been sent. */
  function Known(z: Block, row: BitRow): Block {
    seq(64, k requires 0 <= k < 64 =>
      if row[k] < 0 then 0 else if k == 0 then DcApprox(z[0], row[0]) else Approx(z[k], row[k]))
  }

  /** With nothing left to send, the block is the original. */
  lemma EverythingIsKnown(z: Block)
    ensures Known(z, seq(64, _ => 0)) == z
  {
    forall k | 0 <= k < 64 ensures Known(z, seq(64, _ => 0))[k] == z[k] {
      ApproxAtZero(z[k]);
    }
  }

  /** A scan of a progressive file, or a sequential one. */
  predicate ValidKind(s: ScanInfo) { ParametersInRange(s) || (IsSequential(s) && s.ah == 0 && s.al == 0) }

  /** Every coefficient of the scan is due. */
  predicate Due(row: BitRow, s: ScanInfo)
    requires ValidKind(s)
  {
    forall k :: s.ss <= k <= s.se ==> CoefficientFollows(row[k], s.ah, s.al)
  }

  /** What the decoder must hold before the scan: zeros where a band starts, the previous approximation where it is
      refined. A DC scan can be read into anything. */
  predicate Ready(s: ScanInfo, z: Block, b: Block)
    requires ValidKind(s)
  {
    if s.ah == 0 then forall j :: 1 <= j && s.ss <= j <= s.se ==> b[j] == 0
    else s.ss > 0 ==> forall j :: s.ss <= j <= s.se ==> b[j] == Approx(z[j], s.ah)
  }

  /** What it holds after the scan. */
  function Improved(s: ScanInfo, z: Block, b: Block): Block
    requires ValidKind(s)
  {
    if s.ss == 0 && s.ah > 0 then b[0 := RefinedDc(b[0], z[0], s.al)]
    else
      seq(64, j requires 0 <= j < 64 =>
        if s.ss <= j <= s.se then (if j == 0 then DcApprox(z[0], s.al) else Approx(z[j], s.al)) else b[j])
  }

  /** A scan that is due finds the decoder prepared, and adds its bits to what is known. */
  lemma ScanAddsItsBits(z: Block, row: BitRow, s: ScanInfo)
    requires ValidKind(s) && Due(row, s)
    ensures Ready(s, z, Known(z, row)) && Improved(s, z, Known(z, row)) == Known(z, SentRow(row, s))
  {
    hide Approx, DcApprox, RefinedDc;
    assert CoefficientFollows(row[s.ss], s.ah, s.al);
    if s.ah > 0 { RefinedDcIsNext(z[0], s.al); }
  }

  // ---------------------------------------------------------------- images

  /** The blocks of every component. */
  type Image = seq<seq<Block>>

  /** A block of the scan: a component of the scan, and which of its blocks. */
  datatype Cell = Cell(ci: nat, index: nat)

  predicate SameShape(a: Image, b: Image) {
    |a| == |b| && forall c :: 0 <= c < |a| ==> |a[c]| == |b[c]|
  }

  /** Everything zero, as the coefficient arrays start. */
  function Blank(img: Image): (b: Image)
    ensures SameShape(img, b)
  {
    seq(|img|, c requires 0 <= c < |img| => seq(|img[c]|, _ => seq(64, _ => 0)))
  }

  predicate CellExists(img: Image, comps: seq<int>, x: Cell) {
    x.ci < |comps| && 0 <= comps[x.ci] < |img| && x.index < |img[comps[x.ci]]|
  }

  predicate CellsExist(img: Image, comps: seq<int>, cells: seq<Cell>) {
    forall j :: 0 <= j < |cells| ==> CellExists(img, comps, cells[j])
  }

  predicate PlanExists(img: Image, comps: seq<int>, plan: seq<seq<Cell>>) {
    forall p :: 0 <= p < |plan| ==> CellsExist(img, comps, plan[p])
  }

  /** The blocks of the image that an interval goes through. */
  function Gather(img: Image, comps: seq<int>, cells: seq<Cell>): (bs: seq<Block>)
    requires CellsExist(img, comps, cells)
    ensures |bs| == |cells|
  {
    seq(|cells|, j requires 0 <= j < |cells| => img[comps[cells[j].ci]][cells[j].index])
  }

  function GatherAll(img: Image, comps: seq<int>, plan: seq<seq<Cell>>): (bs: seq<seq<Block>>)
    requires PlanExists(img, comps, plan)
    ensures |bs| == |plan| && forall p :: 0 <= p < |plan| ==> |bs[p]| == |plan[p]|
  {
    seq(|plan|, p requires 0 <= p < |plan| => Gather(img, comps, plan[p]))
  }

  /** Put decoded blocks back where they belong. */
  function Scatter(img: Image, comps: seq<int>, cells: seq<Cell>, bs: seq<Block>): (r: Image)
    requires CellsExist(img, comps, cells) && |bs| == |cells|
    ensures SameShape(img, r)
    decreases |cells|
  {
    if cells == [] then img
    else
      var c, i := comps[cells[0].ci], cells[0].index;
      var img1 := img[c := img[c][i := bs[0]]];
      ShapeKeepsCells(img, img1, comps, cells[1..]);
      Scatter(img1, comps, cells[1..], bs[1..])
  }

  lemma ShapeKeepsCells(a: Image, b: Image, comps: seq<int>, cells: seq<Cell>)
    requires SameShape(a, b)
    ensures CellsExist(a, comps, cells) <==> CellsExist(b, comps, cells)
  {
  }

  function ScatterAll(img: Image, comps: seq<int>, plan: seq<seq<Cell>>, bs: seq<seq<Block>>): (r: Image)
    requires PlanExists(img, comps, plan) && |bs| == |plan|
    requires forall p :: 0 <= p < |plan| ==> |bs[p]| == |plan[p]|
    ensures SameShape(img, r)
    decreases |plan|
  {
    if plan == [] then img
    else
      var img1 := Scatter(img, comps, plan[0], bs[0]);
      ScatterAll(img1, comps, plan[1..], bs[1..])
  }

  predicate Visits(comps: seq<int>, cells: seq<Cell>, c: nat, i: nat) {
    exists j :: 0 <= j < |cells| && cells[j].ci < |comps| && comps[cells[j].ci] == c && cells[j].index == i
  }

  predicate PlanVisits(comps: seq<int>, plan: seq<seq<Cell>>, c: nat, i: nat) {
    exists p :: 0 <= p < |plan| && Visits(comps, plan[p], c, i)
  }

  /** Blocks that are put back all come from `t`: then the image is `t` where the interval went, and as before
      elsewhere. */
  lemma {:induction false} ScatterFrom(img: Image, comps: seq<int>, cells: seq<Cell>, t: Image)
    requires CellsExist(img, comps, cells) && SameShape(img, t)
    ensures CellsExist(t, comps, cells)
    ensures var r := Scatter(img, comps, cells, Gather(t, comps, cells));
            forall c, i :: 0 <= c < |img| && 0 <= i < |img[c]| ==>
              r[c][i] == if Visits(comps, cells, c, i) then t[c][i] else img[c][i]
    decreases |cells|
  {
    if cells != [] {
      var bs := Gather(t, comps, cells);
      var c0, i0 := comps[cells[0].ci], cells[0].index;
      var img1 := img[c0 := img[c0][i0 := bs[0]]];
      assert bs[1..] == Gather(t, comps, cells[1..]);
      ScatterFrom(img1, comps, cells[1..], t);
      forall c, i | 0 <= c < |img| && 0 <= i < |img[c]|
        ensures Visits(comps, cells, c, i) <==> ((c, i) == (c0, i0) || Visits(comps, cells[1..], c, i))
      {
        VisitsStep(comps, cells, c, i);
      }
    }
  }

  lemma VisitsStep(comps: seq<int>, cells: seq<Cell>, c: nat, i: nat)
    requires cells != [] && cells[0].ci < |comps|
    ensures Visits(comps, cells, c, i)
       <==> ((comps[cells[0].ci] == c && cells[0].index == i) || Visits(comps, cells[1..], c, i))
  {
    if Visits(comps, cells[1..], c, i) {
      var j :| 0 <= j < |cells| - 1 && cells[1..][j].ci < |comps| && comps[cells[1..][j].ci] == c
               && cells[1..][j].index == i;
      assert cells[j + 1] == cells[1..][j];
    }
    if Visits(comps, cells, c, i) {
      var j :| 0 <= j < |cells| && cells[j].ci < |comps| && comps[cells[j].ci] == c && cells[j].index == i;
      if j > 0 { assert cells[1..][j - 1] == cells[j]; }
    }
  }

  lemma {:induction false} ScatterAllFrom(img: Image, comps: seq<int>, plan: seq<seq<Cell>>, t: Image)
    requires PlanExists(img, comps, plan) && SameShape(img, t)
    ensures PlanExists(t, comps, plan)
    ensures var r := ScatterAll(img, comps, plan, GatherAll(t, comps, plan));
            forall c, i :: 0 <= c < |img| && 0 <= i < |img[c]| ==>
              r[c][i] == if PlanVisits(comps, plan, c, i) then t[c][i] else img[c][i]
    decreases |plan|
  {
    hide Scatter, Gather, CellExists, Visits;
    forall p | 0 <= p < |plan| ensures CellsExist(t, comps, plan[p]) {
      ShapeKeepsCells(img, t, comps, plan[p]);
    }
    if plan != [] {
      ScatterFrom(img, comps, plan[0], t);
      var img1 := Scatter(img, comps, plan[0], Gather(t, comps, plan[0]));
      assert GatherAll(t, comps, plan)[1..] == GatherAll(t, comps, plan[1..]);
      forall p | 1 <= p < |plan| ensures CellsExist(img1, comps, plan[p]) {
        ShapeKeepsCells(img, img1, comps, plan[p]);
      }
      ScatterAllFrom(img1, comps, plan[1..], t);
      forall c, i | 0 <= c < |img| && 0 <= i < |img[c]|
        ensures PlanVisits(comps, plan, c, i)
           <==> (Visits(comps, plan[0], c, i) || PlanVisits(comps, plan[1..], c, i))
      {
        if PlanVisits(comps, plan[1..], c, i) {
          var p :| 0 <= p < |plan| - 1 && Visits(comps, plan[1..][p], c, i);
          assert Visits(comps, plan[p + 1], c, i);
        }
        if PlanVisits(comps, plan, c, i) {
          var p :| 0 <= p < |plan| && Visits(comps, plan[p], c, i);
          if p > 0 { assert Visits(comps, plan[1..][p - 1], c, i); }
        }
      }
    }
  }

  /** The scan components, in coding order. */
  function PlanOrders(plan: seq<seq<Cell>>): (r: seq<seq<nat>>) {
    seq(|plan|, p requires 0 <= p < |plan| =>
      seq(|plan[p]|, j requires 0 <= j < |plan[p]| => plan[p][j].ci))
  }

  /** As many blocks as the plan asks for. */
  predicate FitsPlan(plan: seq<seq<Cell>>, bs: seq<seq<Block>>) {
    |bs| == |plan| && forall p :: 0 <= p < |plan| ==> |bs[p]| == |plan[p]|
  }

  predicate NoCellTwice(plan: seq<seq<Cell>>) {
    forall p, i, q, j :: 0 <= p < |plan| && 0 <= i < |plan[p]| && 0 <= q < |plan| && 0 <= j < |plan[q]| ==>
      plan[p][i] == plan[q][j] ==> p == q && i == j
  }

  predicate ShortImage(img: Image) { forall c, i :: 0 <= c < |img| && 0 <= i < |img[c]| ==> IsShortBlock(img[c][i]) }

  // ---------------------------------------------------------------- one scan of the image

  /** Every block of the components of the scan improved, whether the scan goes there or not. */
  function ImprovedImage(s: ScanInfo, img: Image, cur: Image): (r: Image)
    requires ValidKind(s) && SameShape(img, cur)
    ensures SameShape(img, r)
  {
    seq(|img|, c requires 0 <= c < |img| =>
      seq(|img[c]|, i requires 0 <= i < |img[c]| => Improved(s, img[c][i], cur[c][i])))
  }

  /** The array after a scan: the blocks are taken from it, improved, and put back. */
  function AfterScan(s: ScanInfo, plan: seq<seq<Cell>>, img: Image, cur: Image): (r: Image)
    requires ValidKind(s) && SameShape(img, cur) && PlanExists(img, s.comps, plan)
    ensures SameShape(img, r)
  {
    var t := ImprovedImage(s, img, cur);
    PlanElsewhere(img, cur, s.comps, plan);
    PlanElsewhere(img, t, s.comps, plan);
    ScatterAll(cur, s.comps, plan, GatherAll(t, s.comps, plan))
  }

  lemma PlanElsewhere(a: Image, b: Image, comps: seq<int>, plan: seq<seq<Cell>>)
    requires SameShape(a, b)
    ensures PlanExists(a, comps, plan) <==> PlanExists(b, comps, plan)
  {
    hide CellsExist;
    forall p | 0 <= p < |plan| ensures CellsExist(a, comps, plan[p]) <==> CellsExist(b, comps, plan[p]) {
      ShapeKeepsCells(a, b, comps, plan[p]);
    }
  }

  /** Block by block. */
  lemma AfterScanAt(s: ScanInfo, plan: seq<seq<Cell>>, img: Image, cur: Image)
    requires ValidKind(s) && SameShape(img, cur) && PlanExists(img, s.comps, plan)
    ensures forall c, i :: 0 <= c < |img| && 0 <= i < |img[c]| ==>
              AfterScan(s, plan, img, cur)[c][i]
              == if PlanVisits(s.comps, plan, c, i) then Improved(s, img[c][i], cur[c][i]) else cur[c][i]
  {
    hide Improved, Scatter, ScatterAll, GatherAll, PlanVisits, PlanExists;
    var t := ImprovedImage(s, img, cur);
    PlanElsewhere(img, cur, s.comps, plan);
    PlanElsewhere(img, t, s.comps, plan);
    ScatterAllFrom(cur, s.comps, plan, t);
  }

  /** Where the scan goes, the decoder is prepared. */
  predicate PlanReady(s: ScanInfo, plan: seq<seq<Cell>>, img: Image, cur: Image)
    requires ValidKind(s) && SameShape(img, cur)
  {
    forall c, i :: 0 <= c < |img| && 0 <= i < |img[c]| && PlanVisits(s.comps, plan, c, i) ==> Ready(s, img[c][i], cur[c][i])
  }

  /** The blocks of an interval, one by one. */
  lemma IntervalCells(s: ScanInfo, plan: seq<seq<Cell>>, img: Image, cur: Image, p: nat)
    requires ValidKind(s) && SameShape(img, cur) && PlanExists(img, s.comps, plan) && p < |plan|
    ensures CellsExist(img, s.comps, plan[p]) && CellsExist(cur, s.comps, plan[p])
    ensures var t := ImprovedImage(s, img, cur);
            var zs, bs := Gather(img, s.comps, plan[p]), Gather(cur, s.comps, plan[p]);
            && CellsExist(t, s.comps, plan[p])
            && (forall j :: 0 <= j < |plan[p]| ==> Gather(t, s.comps, plan[p])[j] == Improved(s, zs[j], bs[j]))
            && (PlanReady(s, plan, img, cur) ==> forall j :: 0 <= j < |plan[p]| ==> Ready(s, zs[j], bs[j]))
            && (ShortImage(img) ==> forall j :: 0 <= j < |plan[p]| ==> IsShortBlock(zs[j]))
  {
    hide Improved, Ready;
    var t, comps, cells := ImprovedImage(s, img, cur), s.comps, plan[p];
    ShapeKeepsCells(img, cur, comps, cells);
    ShapeKeepsCells(img, t, comps, cells);
    forall j | 0 <= j < |cells| ensures PlanVisits(comps, plan, comps[cells[j].ci], cells[j].index) {
      assert CellExists(img, comps, cells[j]);
      assert Visits(comps, plan[p], comps[cells[j].ci], cells[j].index);
    }
    forall j | 0 <= j < |cells|
      ensures Gather(t, comps, cells)[j] == Improved(s, Gather(img, comps, cells)[j], Gather(cur, comps, cells)[j])
    {
      assert CellExists(img, comps, cells[j]);
    }
  }

  // ---------------------------------------------------------------- all scans

  /** A scan, whoever codes it: its header, and the blocks of its restart intervals in MCU order. */
  datatype ImageScan = ImageScan(info: ScanInfo, plan: seq<seq<Cell>>)

  /** The scan is one of the image. A scan of a component goes through all its blocks that are `inside`, and an AC scan
      through no others. */
  predicate Covers(img: Image, x: ImageScan, inside: set<(nat, nat)>) {
    && ValidKind(x.info) && ComponentsInOrder(|img|, x.info.comps)
    && x.plan != [] && PlanExists(img, x.info.comps, x.plan) && NoCellTwice(x.plan)
    && (forall b <- inside :: b.0 in x.info.comps ==> PlanVisits(x.info.comps, x.plan, b.0, b.1))
    && (x.info.ss > 0 ==> forall c, i :: 0 <= c < |img| && 0 <= i < |img[c]| && PlanVisits(x.info.comps, x.plan, c, i) ==> (c, i) in inside)
  }

  predicate AllCover(img: Image, scans: seq<ImageScan>, inside: set<(nat, nat)>) {
    forall i :: 0 <= i < |scans| ==> Covers(img, scans[i], inside)
  }

  predicate Unsent(row: BitRow) { forall k :: 0 <= k < 64 ==> row[k] < 0 }

  /** The decoder holds what is known of the blocks inside; of components that have not come yet it holds zeros. */
  predicate Holds(img: Image, bits: seq<BitRow>, inside: set<(nat, nat)>, cur: Image) {
    && |bits| == |img| && SameShape(img, cur)
    && (forall c, i :: 0 <= c < |img| && 0 <= i < |img[c]| && (c, i) in inside ==> cur[c][i] == Known(img[c][i], bits[c]))
    && (forall c, i :: 0 <= c < |img| && 0 <= i < |img[c]| && Unsent(bits[c]) ==> cur[c][i] == seq(64, _ => 0))
  }

  function SentBits(bits: seq<BitRow>, s: ScanInfo): (r: seq<BitRow>)
    ensures |r| == |bits|
  {
    seq(|bits|, c requires 0 <= c < |bits| => if c in s.comps then SentRow(bits[c], s) else bits[c])
  }

  predicate AllDue(bits: seq<BitRow>, s: ScanInfo) {
    && ValidKind(s) && ComponentsInOrder(|bits|, s.comps)
    && forall c :: 0 <= c < |bits| && c in s.comps ==> Due(bits[c], s)
  }

  /** One scan that is due. */
  lemma ScanKeepsHolding(img: Image, bits: seq<BitRow>, x: ImageScan, inside: set<(nat, nat)>, cur: Image)
    requires Covers(img, x, inside) && Holds(img, bits, inside, cur) && AllDue(bits, x.info)
    ensures PlanReady(x.info, x.plan, img, cur)
    ensures Holds(img, SentBits(bits, x.info), inside, AfterScan(x.info, x.plan, img, cur))
  {
    hide Known, Improved, Ready, SentRow, PlanVisits, AfterScan, PlanExists, NoCellTwice, Due;
    var s, after := x.info, AfterScan(x.info, x.plan, img, cur);
    forall c, i | 0 <= c < |img| && 0 <= i < |img[c]| && PlanVisits(s.comps, x.plan, c, i)
      ensures Ready(s, img[c][i], cur[c][i])
    {
      VisitedComponent(s.comps, x.plan, c, i);
      if (c, i) in inside {
        ScanAddsItsBits(img[c][i], bits[c], s);
      } else {
        ReadyElsewhere(s, img[c][i], bits[c], cur[c][i]);
      }
    }
    AfterScanAt(s, x.plan, img, cur);
    forall c, i | 0 <= c < |img| && 0 <= i < |img[c]| && (c, i) in inside
      ensures after[c][i] == Known(img[c][i], SentBits(bits, s)[c])
    {
      if c in s.comps {
        assert (c, i).0 in s.comps;
        ScanAddsItsBits(img[c][i], bits[c], s);
      } else {
        NotVisited(s.comps, x.plan, c, i);
      }
    }
    forall c, i | 0 <= c < |img| && 0 <= i < |img[c]| && Unsent(SentBits(bits, s)[c])
      ensures after[c][i] == seq(64, _ => 0)
    {
      if c in s.comps {
        SomethingSent(bits[c], s);
      } else {
        NotVisited(s.comps, x.plan, c, i);
      }
    }
  }

  lemma VisitedComponent(comps: seq<int>, plan: seq<seq<Cell>>, c: nat, i: nat)
    requires PlanVisits(comps, plan, c, i)
    ensures c in comps
  {
  }

  lemma NotVisited(comps: seq<int>, plan: seq<seq<Cell>>, c: nat, i: nat)
    requires c !in comps
    ensures !PlanVisits(comps, plan, c, i)
  {
    if PlanVisits(comps, plan, c, i) { VisitedComponent(comps, plan, c, i); }
  }

  lemma SomethingSent(row: BitRow, s: ScanInfo)
    requires ValidKind(s)
    ensures !Unsent(SentRow(row, s))
  {
    assert SentRow(row, s)[s.ss] == s.al;
  }

  /** A DC scan does not ask for anything; a sequential scan for zeros, and they are there. */
  lemma ReadyElsewhere(s: ScanInfo, z: Block, row: BitRow, b: Block)
    requires ValidKind(s) && s.ss == 0 && Due(row, s)
    requires Unsent(row) ==> b == seq(64, _ => 0)
    ensures Ready(s, z, b)
  {
    if s.se > 0 {
      forall k | 0 <= k < 64 ensures row[k] < 0 {
        assert CoefficientFollows(row[k], s.ah, s.al);
      }
    }
  }

  /** Every segment with the marker that follows it. */
  function Inputs(segments: seq<seq<byte>>, tails: seq<seq<byte>>): (r: seq<seq<byte>>)
    requires |segments| == |tails|
    ensures |r| == |segments|
  {
    seq(|segments|, i requires 0 <= i < |segments| => segments[i] + tails[i])
  }

  function Infos(scans: seq<ImageScan>): (r: seq<ScanInfo>)
    ensures |r| == |scans|
  {
    seq(|scans|, i requires 0 <= i < |scans| => scans[i].info)
  }

  predicate AllScansDue(bits: seq<BitRow>, script: seq<ScanInfo>)
    decreases |script|
  {
    script == [] || (AllDue(bits, script[0]) && AllScansDue(SentBits(bits, script[0]), script[1..]))
  }

  function FinalBits(bits: seq<BitRow>, script: seq<ScanInfo>): (r: seq<BitRow>)
    ensures |r| == |bits|
    decreases |script|
  {
    if script == [] then bits else FinalBits(SentBits(bits, script[0]), script[1..])
  }

  /** Every scan, when it comes, finds the decoder prepared. */
  predicate RunReady(img: Image, scans: seq<ImageScan>, cur: Image)
    requires SameShape(img, cur)
    decreases |scans|
  {
    scans == [] ||
      (var x := scans[0];
       && ValidKind(x.info) && PlanExists(img, x.info.comps, x.plan) && PlanReady(x.info, x.plan, img, cur)
       && RunReady(img, scans[1..], AfterScan(x.info, x.plan, img, cur)))
  }

  function AfterScans(img: Image, scans: seq<ImageScan>, cur: Image): (r: Image)
    requires SameShape(img, cur) && RunReady(img, scans, cur)
    ensures SameShape(img, r)
    decreases |scans|
  {
    if scans == [] then cur else AfterScans(img, scans[1..], AfterScan(scans[0].info, scans[0].plan, img, cur))
  }

  /** Scans that are due one after the other bring the blocks inside to what the script says is known at the end. */
  lemma {:induction false} ScansKeepHolding(img: Image, bits: seq<BitRow>, scans: seq<ImageScan>, inside: set<(nat, nat)>, cur: Image)
    requires AllCover(img, scans, inside) && Holds(img, bits, inside, cur) && AllScansDue(bits, Infos(scans))
    ensures SameShape(img, cur) && RunReady(img, scans, cur)
    ensures Holds(img, FinalBits(bits, Infos(scans)), inside, AfterScans(img, scans, cur))
    decreases |scans|
  {
    hide Covers, Holds, AllDue, AfterScan, PlanReady, SentBits;
    HoldsShape(img, bits, inside, cur);
    if scans != [] {
      var x := scans[0];
      assert Infos(scans)[0] == x.info && Infos(scans)[1..] == Infos(scans[1..]);
      assert Covers(img, x, inside);
      CoversMeans(img, x, inside);
      ScanKeepsHolding(img, bits, x, inside, cur);
      ScansKeepHolding(img, SentBits(bits, x.info), scans[1..], inside, AfterScan(x.info, x.plan, img, cur));
    }
  }

  lemma HoldsShape(img: Image, bits: seq<BitRow>, inside: set<(nat, nat)>, cur: Image)
    requires Holds(img, bits, inside, cur)
    ensures SameShape(img, cur)
  {
  }

  lemma CoversMeans(img: Image, x: ImageScan, inside: set<(nat, nat)>)
    requires Covers(img, x, inside)
    ensures ValidKind(x.info) && PlanExists(img, x.info.comps, x.plan)
  {
  }

  /** A scan does not leave the 16 bits of a coefficient. */
  lemma ImprovedIsShort(s: ScanInfo, z: Block, b: Block)
    requires ValidKind(s) && IsShortBlock(z) && IsShortBlock(b)
    ensures IsShortBlock(Improved(s, z, b))
  {
    hide Approx, DcApprox, IsShort, WithBit;
    var r := Improved(s, z, b);
    forall k | 0 <= k < 64 ensures IsShort(r[k]) {
      ApproxIsShort(z[k], s.al);
      DcApproxIsShort(z[k], s.al);
      WithBitIsShort(b[k], s.al);
    }
  }

  /** So the decoder's arrays, 16 bits to a coefficient, hold everything that the scans bring, also where a bit is set in a
      block that has not been sent before. */
  lemma {:induction false} ArraysStayShort(img: Image, scans: seq<ImageScan>, cur: Image)
    requires SameShape(img, cur) && RunReady(img, scans, cur) && ShortImage(img) && ShortImage(cur)
    ensures ShortImage(AfterScans(img, scans, cur))
    decreases |scans|
  {
    hide AfterScan, PlanReady, Improved, ValidKind, PlanExists, IsShortBlock;
    if scans != [] {
      var x := scans[0];
      AfterScanAt(x.info, x.plan, img, cur);
      var next := AfterScan(x.info, x.plan, img, cur);
      forall c, i | 0 <= c < |next| && 0 <= i < |next[c]| ensures IsShortBlock(next[c][i]) {
        ImprovedIsShort(x.info, img[c][i], cur[c][i]);
      }
      ArraysStayShort(img, scans[1..], next);
    }
  }

  // ---------------------------------------------------------------- accepted scripts

  lemma {:induction false} AcceptedProgressive(bits: seq<BitRow>, script: seq<ScanInfo>, scanno: nat)
    requires CheckScans(bits, script, scanno).Accepted?
    ensures AllScansDue(bits, script) && FinalBits(bits, script) == CheckScans(bits, script, scanno).bits
    decreases |script|
  {
    hide SentRow, CoefficientFollows;
    if script != [] {
      assert SentBits(bits, script[0]) == Sent(bits, script[0]);
      forall c | 0 <= c < |bits| && c in script[0].comps ensures Due(bits[c], script[0]) {
        var i :| 0 <= i < |script[0].comps| && script[0].comps[i] == c;
        assert RowFollows(bits[script[0].comps[i]], script[0]);
      }
      AcceptedProgressive(SentBits(bits, script[0]), script[1..], scanno + 1);
    }
  }

  /** Sequential scans: a component that has been sent is known, the others are untouched. */
  predicate SequentialBits(bits: seq<BitRow>, sent: set<int>) {
    forall c :: 0 <= c < |bits| ==> if c in sent then bits[c] == seq(64, _ => 0) else Unsent(bits[c])
  }

  lemma {:induction false} AcceptedSequential(bits: seq<BitRow>, sent: set<int>, script: seq<ScanInfo>, scanno: nat)
    requires CheckSequential(|bits|, sent, script, scanno).None? && SequentialBits(bits, sent)
    ensures AllScansDue(bits, script) && forall c :: 0 <= c < |bits| ==> FinalBits(bits, script)[c] == seq(64, _ => 0)
    decreases |script|
  {
    if script != [] {
      var s, next := script[0], sent + ComponentSet(script[0]);
      forall c | 0 <= c < |bits| && c in s.comps ensures Due(bits[c], s) && SentRow(bits[c], s) == seq(64, _ => 0) {
        var i :| 0 <= i < |s.comps| && s.comps[i] == c;
        assert s.comps[i] !in sent;
      }
      AcceptedSequential(SentBits(bits, s), next, script[1..], scanno + 1);
    }
  }

  /** Nothing is left to send. */
  function AllSent(n: nat): (bits: seq<BitRow>)
    ensures |bits| == n
  {
    seq(n, _ => seq(64, _ => 0))
  }

  /** The bits that an accepted script leaves: all of them for a sequential one, the record of the validator otherwise. */
  function ScriptBits(n: nat, script: seq<ScanInfo>): (r: seq<BitRow>)
    requires ScriptFault(n, script).None?
    ensures |r| == n
  {
    if IsSequential(script[0]) then AllSent(n) else CheckScans(Fresh(n), script, 1).bits
  }

  lemma AcceptedScript(n: nat, script: seq<ScanInfo>)
    requires ScriptFault(n, script).None?
    ensures AllScansDue(Fresh(n), script) && FinalBits(Fresh(n), script) == ScriptBits(n, script)
  {
    if IsSequential(script[0]) {
      AcceptedSequential(Fresh(n), {}, script, 1);
    } else {
      AcceptedProgressive(Fresh(n), script, 1);
    }
  }

  lemma {:induction false} AcceptedScansHaveComponents(bits: seq<BitRow>, script: seq<ScanInfo>, scanno: nat)
    requires CheckScans(bits, script, scanno).Accepted?
    ensures forall i :: 0 <= i < |script| ==> script[i].comps != []
    decreases |script|
  {
    if script != [] {
      AcceptedScansHaveComponents(CheckScan(bits, script[0], scanno).bits, script[1..], scanno + 1);
      assert forall i :: 0 < i < |script| ==> script[i] == script[1..][i - 1];
    }
  }

  lemma {:induction false} SequentialScansHaveComponents(n: nat, sent: set<int>, script: seq<ScanInfo>, scanno: nat)
    requires CheckSequential(n, sent, script, scanno).None?
    ensures forall i :: 0 <= i < |script| ==> script[i].comps != []
    decreases |script|
  {
    if script != [] {
      SequentialScansHaveComponents(n, sent + ComponentSet(script[0]), script[1..], scanno + 1);
      assert forall i :: 0 < i < |script| ==> script[i] == script[1..][i - 1];
    }
  }

  lemma AcceptedHaveComponents(n: nat, script: seq<ScanInfo>)
    requires ScriptFault(n, script).None?
    ensures forall i :: 0 <= i < |script| ==> script[i].comps != []
  {
    if IsSequential(script[0]) {
      SequentialScansHaveComponents(n, {}, script, 1);
    } else {
      AcceptedScansHaveComponents(Fresh(n), script, 1);
    }
  }

  /** Before the first scan the arrays are zero, and nothing is known. */
  lemma NothingIsKnown(img: Image, inside: set<(nat, nat)>)
    ensures Holds(img, Fresh(|img|), inside, Blank(img))
  {
    forall c, i | 0 <= c < |img| && 0 <= i < |img[c]| ensures Known(img[c][i], Fresh(|img|)[c]) == Blank(img)[c][i] {
    }
  }

  /** Whatever script is accepted: at the end the decoder holds every block inside at the precision of its last scans. */
  lemma ScriptIsHeld(img: Image, scans: seq<ImageScan>, inside: set<(nat, nat)>)
    requires AllCover(img, scans, inside) && ScriptFault(|img|, Infos(scans)).None?
    ensures RunReady(img, scans, Blank(img))
    ensures Holds(img, ScriptBits(|img|, Infos(scans)), inside, AfterScans(img, scans, Blank(img)))
  {
    hide Covers, Holds, ScriptBits, AfterScans, RunReady;
    NothingIsKnown(img, inside);
    AcceptedScript(|img|, Infos(scans));
    ScansKeepHolding(img, Fresh(|img|), scans, inside, Blank(img));
  }

  /** The recommended script, or any sequential one that is accepted. */
  predicate SendsEverything(n: nat, script: seq<ScanInfo>, ycc: bool) {
    if script != [] && IsSequential(script[0]) then ScriptFault(n, script).None?
    else n >= 1 && script == SimpleProgression.SimpleScript(n, ycc)
  }

  lemma EverythingIsSent(n: nat, script: seq<ScanInfo>, ycc: bool)
    requires SendsEverything(n, script, ycc)
    ensures ScriptFault(n, script).None? && ScriptBits(n, script) == AllSent(n)
  {
    if !(script != [] && IsSequential(script[0])) { SimpleProgression.SimpleScriptIsAccepted(n, ycc); }
    hide ScriptFault, CheckScans, SimpleProgression.SimpleScript;
  }
}
