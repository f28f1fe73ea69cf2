/** Whole AC scans in Huffman mode: what is sent for a sequence of restart intervals, and that the stuffed bytes with
    their restart markers are read back (jchuff.c, jdhuff.c). */
module HuffmanAcScans {
  import opened Wrappers
  import opened EstimationTable
  import opened Arithmetic
  import opened PointTransform
  import opened Bytes
  import opened Markers
  import opened HuffmanCode
  import opened HuffmanTables
  import opened BitWriting
  import opened HuffmanItems
  import opened HuffmanEobRuns
  import opened HuffmanSegments
  import opened Seqs
  import First = HuffmanFirst
  import Refinement = HuffmanRefinement
  import Sequential = HuffmanSequential

  /** The first scan of a band, or one that refines it. */
  datatype AcScan = AcScan(p: Band, first: bool)

  predicate ValidAcScan(a: AcScan) { ValidBand(a.p) }

  /** What the encoder does not refuse as out of range; in a refinement scan that is everything. */
  predicate CodableBlock(a: AcScan, z: Block)
    requires ValidAcScan(a)
  {
    a.first ==> First.CodableBand(a.p, z)
  }

  predicate CodableParts(a: AcScan, parts: seq<seq<Block>>)
    requires ValidAcScan(a)
  {
    forall i, j :: 0 <= i < |parts| && 0 <= j < |parts[i]| ==> CodableBlock(a, parts[i][j])
  }

  /** An AC scan has one component, and its MCUs have one block. */
  function OneBlockMcus(zs: seq<Block>): (r: seq<seq<Block>>)
    ensures |r| == |zs|
  {
    seq(|zs|, i requires 0 <= i < |zs| => [zs[i]])
  }

  predicate ValidBetween(a: AcScan, e: Pending) { if a.first then First.ValidRun(e) else ValidPending(e) }

  // ---------------------------------------------------------------- writing

  function BlockSent(a: AcScan, z: Block, e: Pending): Sent
    requires ValidAcScan(a)
  {
    if a.first then First.FirstItems(a.p, z, a.p.ss, 0, e) else RefineItems(a.p, z, a.p.ss, 0, [], e)
  }

  /** What has been sent, and what is pending, after the blocks of an interval. */
  function SentBy(a: AcScan, zs: seq<Block>): Sent
    requires ValidAcScan(a)
    decreases |zs|
  {
    if zs == [] then Sent([], NONE)
    else
      var s := SentBy(a, zs[..|zs| - 1]);
      Before(s.items, BlockSent(a, zs[|zs| - 1], s.pending))
  }

  /** The whole interval, with what is pending at its end. */
  function IntervalItems(a: AcScan, zs: seq<Block>): seq<Item>
    requires ValidAcScan(a)
  {
    SentBy(a, zs).items + FlushItems(a.p.tbl, SentBy(a, zs).pending)
  }

  function SegmentItems(a: AcScan, parts: seq<seq<Block>>): (r: seq<seq<Item>>)
    requires ValidAcScan(a)
    ensures |r| == |parts|
  {
    seq(|parts|, i requires 0 <= i < |parts| => IntervalItems(a, parts[i]))
  }

  /** While the last interval is under way, what it has pending has not been sent. */
  function LogItems(a: AcScan, parts: seq<seq<Block>>): (r: seq<seq<Item>>)
    requires ValidAcScan(a) && parts != []
    ensures |r| == |parts|
  {
    SegmentItems(a, parts[..|parts| - 1]) + [SentBy(a, parts[|parts| - 1]).items]
  }

  lemma SentByMore(a: AcScan, zs: seq<Block>, z: Block)
    requires ValidAcScan(a)
    ensures var s := SentBy(a, zs); SentBy(a, zs + [z]) == Before(s.items, BlockSent(a, z, s.pending))
  {
    assert (zs + [z])[..|zs|] == zs;
  }

  function SentAll(a: AcScan, zs: seq<Block>, e: Pending): seq<Item>
    requires ValidAcScan(a)
  {
    if a.first then First.FirstAll(a.p, zs, e) else RefineAll(a.p, zs, e)
  }

  /** Block by block it is what the scan as a whole is given as. */
  lemma {:induction false} SentBySums(a: AcScan, zs: seq<Block>, more: seq<Block>)
    requires ValidAcScan(a)
    ensures SentAll(a, zs + more, NONE) == SentBy(a, zs).items + SentAll(a, more, SentBy(a, zs).pending)
    decreases |zs|
  {
    hide First.FirstItems, RefineItems;
    if zs == [] {
      assert zs + more == more;
      assert [] + SentAll(a, more, NONE) == SentAll(a, more, NONE);
    } else {
      var k := |zs| - 1;
      assert zs + more == zs[..k] + ([zs[k]] + more);
      SentBySums(a, zs[..k], [zs[k]] + more);
      var s := SentBy(a, zs[..k]);
      var b := BlockSent(a, zs[k], s.pending);
      assert ([zs[k]] + more)[1..] == more;
      assert SentAll(a, [zs[k]] + more, s.pending) == b.items + SentAll(a, more, b.pending);
      Assoc(s.items, b.items, SentAll(a, more, b.pending));
    }
  }

  lemma IntervalIsAll(a: AcScan, zs: seq<Block>)
    requires ValidAcScan(a)
    ensures IntervalItems(a, zs) == SentAll(a, zs, NONE)
  {
    SentBySums(a, zs, []);
    assert zs + [] == zs;
  }

  // ---------------------------------------------------------------- reading

  function ReadInterval(a: AcScan, t: HuffTable, s: seq<bool>, bs: seq<Block>): BitRead<seq<Block>>
    requires ValidAcScan(a) && Reads(t)
  {
    if a.first then First.ReadBlocks(a.p, t, s, bs, 0) else Refinement.ReadBlocks(a.p, t, s, bs, 0)
  }

  /** The blocks are in range, and in the areas there is what the scans before have left. */
  predicate AllReady(a: AcScan, zs: seq<Block>, bs: seq<Block>)
    requires ValidAcScan(a)
  {
    if a.first then First.AllReady(a.p, zs, bs) else Refinement.AllPrevious(a.p, zs, bs)
  }

  predicate SendableParts(a: AcScan, tables: seq<HuffTable>, parts: seq<seq<Block>>)
    requires ValidAcScan(a)
  {
    forall i :: 0 <= i < |parts| ==> Sendable(tables, IntervalItems(a, parts[i]))
  }

  function ScanBits(a: AcScan, tables: seq<HuffTable>, parts: seq<seq<Block>>): (r: seq<seq<bool>>)
    requires ValidAcScan(a) && SendableParts(a, tables, parts)
    ensures |r| == |parts|
  {
    seq(|parts|, i requires 0 <= i < |parts| => Bits(tables, IntervalItems(a, parts[i])))
  }

  predicate PartsReady(a: AcScan, parts: seq<seq<Block>>, areas: seq<seq<Block>>)
    requires ValidAcScan(a)
  {
    |parts| == |areas| && forall i :: 0 <= i < |parts| ==> AllReady(a, parts[i], areas[i])
  }

  /** Reading gives the blocks of the interval at the precision of the scan; what is left is padding. */
  ghost predicate ReadsBack(a: AcScan, t: HuffTable, s: seq<bool>, zs: seq<Block>, bs: seq<Block>)
    requires ValidAcScan(a) && Reads(t)
  {
    var x := ReadInterval(a, t, s, bs);
    |zs| == |bs| && x.Done? && x.v == Refinement.AllRefined(a.p, zs, bs) && Sequential.IsPadding(x.rest)
  }

  lemma IntervalReadsBack(a: AcScan, tables: seq<HuffTable>, zs: seq<Block>, bs: seq<Block>)
    requires ValidAcScan(a) && a.p.tbl < |tables| && Reads(tables[a.p.tbl]) && AllReady(a, zs, bs)
    requires Sendable(tables, IntervalItems(a, zs))
    ensures ReadsBack(a, tables[a.p.tbl], Padded(Bits(tables, IntervalItems(a, zs))), zs, bs)
  {
    hide Bits, Sendable, Reads, First.ReadBlocks, Refinement.ReadBlocks, First.FirstAll, RefineAll, Refinement.AllRefined,
         IntervalItems, First.CodableBand, First.ZeroBand;
    IntervalIsAll(a, zs);
    var bits := Bits(tables, IntervalItems(a, zs));
    var padding := AllOnes((8 - |bits| % 8) % 8);
    if a.first {
      First.FirstScanIsLossless(a.p, tables, zs, bs, padding);
    } else {
      Refinement.RefinementIsLossless(a.p, tables, zs, bs, padding);
    }
  }

  /** An AC scan, first or refining, from coefficients to stuffed bytes with restart markers, is read back. */
  lemma AcScanIsLossless(a: AcScan, tables: seq<HuffTable>, parts: seq<seq<Block>>, areas: seq<seq<Block>>, tail: seq<byte>)
    requires ValidAcScan(a) && a.p.tbl < |tables| && Reads(tables[a.p.tbl]) && IsMarkerTail(tail)
    requires parts != [] && PartsReady(a, parts, areas) && SendableParts(a, tables, parts)
    ensures var x := Split(ScanBytes(ScanBits(a, tables, parts), 0) + tail, |parts|, 0);
            && x.Some?
            && forall i :: 0 <= i < |parts| ==> ReadsBack(a, tables[a.p.tbl], x.value[i], parts[i], areas[i])
  {
    hide Bits, Sendable, Reads, ReadsBack, IntervalItems, AllReady, Padded;
    var segments := ScanBits(a, tables, parts);
    SegmentsAreSplit(segments, 0, tail);
    forall i | 0 <= i < |parts|
      ensures ReadsBack(a, tables[a.p.tbl], AllPadded(segments)[i], parts[i], areas[i])
    {
      IntervalReadsBack(a, tables, parts[i], areas[i]);
    }
  }
}
