/** The scan that refines DC coefficients in Huffman mode: one bit for every block, without a table
    (encode_mcu_DC_refine in jchuff.c, decode_mcu_DC_refine in jdhuff.c). */
module HuffmanDcRefinement {
  import opened Wrappers
  import opened EstimationTable
  import opened PointTransform
  import opened Markers
  import opened BitWriting
  import opened HuffmanItems
  import opened HuffmanSegments
  import opened Seqs
  import Refinement = HuffmanRefinement
  import Sequential = HuffmanSequential

  /** The bit of the DC coefficient that is worth 2^al. */
  function DcBits(al: nat, zs: seq<Block>): (bits: seq<bool>)
    ensures |bits| == |zs|
  {
    seq(|zs|, i requires 0 <= i < |zs| => BitIsSet(zs[i][0], al))
  }

  function ReadDcBits(al: nat, s: seq<bool>, bs: seq<Block>): (x: BitRead<seq<Block>>)
    ensures x.Done? ==> |x.v| == |bs|
    decreases |bs|
  {
    if bs == [] then Done(s, [])
    else
      var (s1, bit) :- ReadBits(1, s);
      var b := if bit == 1 then bs[0][0 := WithBit(bs[0][0], al)] else bs[0];
      var (s2, more) :- ReadDcBits(al, s1, bs[1..]);
      Done(s2, [b] + more)
  }

  /** Every block has received its bit, whatever was there. */
  function Received(al: nat, zs: seq<Block>, bs: seq<Block>): (r: seq<Block>)
    requires |zs| == |bs|
    ensures |r| == |zs|
  {
    seq(|zs|, i requires 0 <= i < |zs| => bs[i][0 := RefinedDc(bs[i][0], zs[i][0], al)])
  }

  lemma {:induction false} DcBitsRead(al: nat, zs: seq<Block>, bs: seq<Block>, rest: seq<bool>)
    requires |zs| == |bs|
    ensures ReadDcBits(al, DcBits(al, zs) + rest, bs) == Done(rest, Received(al, zs, bs))
    decreases |zs|
  {
    hide WithBit, BitIsSet, ReadBits;
    if zs == [] {
      assert DcBits(al, zs) + rest == rest;
    } else {
      var bit, more := BitIsSet(zs[0][0], al), DcBits(al, zs[1..]);
      assert DcBits(al, zs) == [bit] + more;
      Assoc([bit], more, rest);
      Refinement.OneBitReads(bit, more + rest);
      DcBitsRead(al, zs[1..], bs[1..], rest);
      var b := bs[0];
      assert b[0 := b[0]] == b;
      assert Received(al, zs, bs) == [b[0 := RefinedDc(b[0], zs[0][0], al)]] + Received(al, zs[1..], bs[1..]);
    }
  }

  /** What the scans before have left. */
  predicate DcPrevious(al: nat, zs: seq<Block>, bs: seq<Block>) {
    |zs| == |bs| && forall i :: 0 <= i < |zs| ==> bs[i][0] == DcApprox(zs[i][0], al + 1)
  }

  function DcRefined(al: nat, zs: seq<Block>, bs: seq<Block>): (r: seq<Block>)
    requires |zs| == |bs|
    ensures |r| == |zs|
  {
    seq(|zs|, i requires 0 <= i < |zs| => bs[i][0 := DcApprox(zs[i][0], al)])
  }

  lemma ReceivedIsNext(al: nat, zs: seq<Block>, bs: seq<Block>)
    requires DcPrevious(al, zs, bs)
    ensures Received(al, zs, bs) == DcRefined(al, zs, bs)
  {
    hide DcApprox, RefinedDc;
    forall i | 0 <= i < |zs| ensures Received(al, zs, bs)[i] == DcRefined(al, zs, bs)[i] {
      RefinedDcIsNext(zs[i][0], al);
    }
  }

  function ScanBits(al: nat, parts: seq<seq<Block>>): (r: seq<seq<bool>>)
    ensures |r| == |parts|
  {
    seq(|parts|, i requires 0 <= i < |parts| => DcBits(al, parts[i]))
  }

  ghost predicate ReadsBack(al: nat, s: seq<bool>, zs: seq<Block>, bs: seq<Block>) {
    var x := ReadDcBits(al, s, bs);
    |zs| == |bs| && x.Done? && x.v == Received(al, zs, bs) && Sequential.IsPadding(x.rest)
  }

  predicate SameSizes(parts: seq<seq<Block>>, areas: seq<seq<Block>>) {
    |parts| == |areas| && forall i :: 0 <= i < |parts| ==> |parts[i]| == |areas[i]|
  }

  /** From coefficients to stuffed bytes with restart markers and back: every DC coefficient receives its bit, and nothing
      else changes. */
  lemma DcBitsAreReceived(al: nat, parts: seq<seq<Block>>, areas: seq<seq<Block>>, tail: seq<byte>)
    requires parts != [] && SameSizes(parts, areas) && IsMarkerTail(tail)
    ensures var x := Split(ScanBytes(ScanBits(al, parts), 0) + tail, |parts|, 0);
            && x == Some(AllPadded(ScanBits(al, parts)))
            && forall i :: 0 <= i < |parts| ==> ReadsBack(al, x.value[i], parts[i], areas[i])
  {
    hide ReadsBack, Padded, DcBits;
    var segments := ScanBits(al, parts);
    SegmentsAreSplit(segments, 0, tail);
    forall i | 0 <= i < |parts| ensures ReadsBack(al, AllPadded(segments)[i], parts[i], areas[i]) {
      PartReadsBack(al, parts[i], areas[i]);
    }
  }

  lemma PartReadsBack(al: nat, zs: seq<Block>, bs: seq<Block>)
    requires |zs| == |bs|
    ensures ReadsBack(al, Padded(DcBits(al, zs)), zs, bs)
  {
    hide DcBits, ReadDcBits;
    DcBitsRead(al, zs, bs, AllOnes((8 - |DcBits(al, zs)| % 8) % 8));
  }

  predicate PartsReady(al: nat, parts: seq<seq<Block>>, areas: seq<seq<Block>>) {
    |parts| == |areas| && forall i :: 0 <= i < |parts| ==> DcPrevious(al, parts[i], areas[i])
  }

  /** Where the earlier scans have left the approximation, the next one is there afterwards. */
  lemma DcRefinementIsLossless(al: nat, parts: seq<seq<Block>>, areas: seq<seq<Block>>, tail: seq<byte>)
    requires parts != [] && PartsReady(al, parts, areas) && IsMarkerTail(tail)
    ensures var x := Split(ScanBytes(ScanBits(al, parts), 0) + tail, |parts|, 0);
            && x.Some?
            && forall i :: 0 <= i < |parts| ==>
                 var y := ReadDcBits(al, x.value[i], areas[i]);
                 && |parts[i]| == |areas[i]| && y.Done? && y.v == DcRefined(al, parts[i], areas[i])
                 && Sequential.IsPadding(y.rest)
  {
    hide ReadDcBits, Received, DcRefined, Split, ScanBytes, ScanBits;
    DcBitsAreReceived(al, parts, areas, tail);
    forall i | 0 <= i < |parts| ensures Received(al, parts[i], areas[i]) == DcRefined(al, parts[i], areas[i]) {
      ReceivedIsNext(al, parts[i], areas[i]);
    }
    var x := Split(ScanBytes(ScanBits(al, parts), 0) + tail, |parts|, 0);
    assert forall i :: 0 <= i < |parts| ==> ReadsBack(al, x.value[i], parts[i], areas[i]);
  }
}
