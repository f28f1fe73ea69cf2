/** Sequential Huffman decoding when not all coefficients are needed (coef_limit in decode_mcu and decode_mcu_sub in
    jdhuff.c): symbols behind the limit are read and dropped. The limit changes nothing in front of it, and the bit
    position not at all. */
module HuffmanLimited {
  import opened Wrappers
  import opened EstimationTable
  import opened Arithmetic
  import opened PointTransform
  import opened Markers
  import opened HuffmanTables
  import opened BitWriting
  import opened HuffmanItems
  import opened HuffmanSequential
  import opened HuffmanSegments

  // ---------------------------------------------------------------- reading

  /** The discarding loop: values are dropped, not stored. */
  function SkipAcs(t: HuffTable, s: seq<bool>, z: Block, se: nat, k: nat): BitRead<Block>
    requires Reads(t) && se <= 63
    decreases se + 1 - k
  {
    if k > se then Done(s, z)
    else
      var (s1, sym) :- ReadSymbol(t, s);
      var r, n := sym / 16, sym % 16;
      if n != 0 then
        var (s2, dropped) :- ReadBits(n, s1);
        SkipAcs(t, s2, z, se, k + r + 1)
      else if r == 15 then SkipAcs(t, s1, z, se, k + 16)
      else Done(s1, z)
  }

  /** The storing loop, as long as `k` is below the limit, then the discarding loop. */
  function ReadAcsLimited(t: HuffTable, s: seq<bool>, z: Block, se: nat, limit: nat, k: nat): BitRead<Block>
    requires Reads(t) && se <= 63
    decreases limit - k
  {
    if k >= limit then SkipAcs(t, s, z, se, k)
    else
      var (s1, sym) :- ReadSymbol(t, s);
      var r, n := sym / 16, sym % 16;
      if n != 0 then
        var (s2, v) :- ReadValue(n, s1);
        ReadAcsLimited(t, s2, z[Place(k + r) := v], se, limit, k + r + 1)
      else if r == 15 then ReadAcsLimited(t, s1, z, se, limit, k + 16)
      else Done(s1, z)
  }

  /** A block of a component with a limit: if that is zero, not even the DC difference is used. */
  function ReadUnitLimited(sc: SeqScan, tables: seq<HuffTable>, limits: seq<nat>, lastDc: seq<int>, s: seq<bool>, ci: nat, b: Block)
    : (x: BitRead<(seq<int>, Block)>)
    requires ValidScan(sc, tables) && sc.se > 0 && ci < |sc.comps| == |lastDc| == |limits|
    ensures x.Done? ==> |x.v.0| == |lastDc|
  {
    var t := sc.comps[ci];
    if limits[ci] == 0 then
      var (s1, n) :- ReadSymbol(tables[t.dcTbl], s);
      var (s2, dropped) :- ReadBits(n, s1);
      var (s3, z) :- SkipAcs(tables[t.acTbl], s2, b, sc.se, 1);
      Done(s3, (lastDc, z))
    else
      var (s1, diff) :- ReadDcDiff(tables[t.dcTbl], s);
      var dc := diff + lastDc[ci];
      var (s2, z) :- ReadAcsLimited(tables[t.acTbl], s1, b[0 := StoredDc(sc, dc)], sc.se, limits[ci], 1);
      Done(s2, (lastDc[ci := dc], z))
  }

  function ReadUnitsLimited(sc: SeqScan, tables: seq<HuffTable>, limits: seq<nat>, lastDc: seq<int>, s: seq<bool>, cis: seq<nat>, bs: seq<Block>)
    : (x: BitRead<(seq<int>, seq<Block>)>)
    requires ValidScan(sc, tables) && sc.se > 0 && |lastDc| == |sc.comps| == |limits| && |bs| == |cis|
    requires forall i :: 0 <= i < |cis| ==> cis[i] < |sc.comps|
    ensures x.Done? ==> |x.v.0| == |lastDc| && |x.v.1| == |bs|
    decreases |cis|
  {
    hide ReadUnitLimited;
    if cis == [] then Done(s, (lastDc, []))
    else
      var (s1, x) :- ReadUnitLimited(sc, tables, limits, lastDc, s, cis[0], bs[0]);
      var (s2, y) :- ReadUnitsLimited(sc, tables, limits, x.0, s1, cis[1..], bs[1..]);
      Done(s2, (y.0, [x.1] + y.1))
  }

  // ---------------------------------------------------------------- the same bits

  /** The same bits are taken, and the blocks agree in front of the limit. */
  predicate SameBelow(x: BitRead<Block>, y: BitRead<Block>, limit: nat) {
    if y.Suspend? then x.Suspend? else x.Done? && x.rest == y.rest && Agree(x.v, y.v, limit)
  }

  lemma SameDrop(n: nat, s: seq<bool>)
    ensures var x, y := ReadBits(n, s), ReadValue(n, s);
            if y.Suspend? then x.Suspend? else x.Done? && x.rest == y.rest
  {
    assert s[0..] == s;
  }

  lemma {:induction false} SkippingIsReading(t: HuffTable, s: seq<bool>, z: Block, z1: Block, se: nat, limit: nat, k: nat)
    requires Reads(t) && se <= 63 && Agree(z, z1, limit) && limit <= k
    ensures limit <= 63 || k > se ==> SameBelow(SkipAcs(t, s, z, se, k), ReadAcs(t, s, z1, se, k), limit)
    decreases se + 1 - k
  {
    hide ReadSymbol, ReadValue, Reads, ReadBits;
    if k <= se && limit <= 63 {
      var x := ReadSymbol(t, s);
      if x.Done? {
        var r, n := x.v / 16, x.v % 16;
        if n != 0 {
          SameDrop(n, x.rest);
          var y := ReadValue(n, x.rest);
          if y.Done? { SkippingIsReading(t, y.rest, z, z1[Place(k + r) := y.v], se, limit, k + r + 1); }
        } else if r == 15 {
          SkippingIsReading(t, x.rest, z, z1, se, limit, k + 16);
        }
      }
    }
  }

  lemma {:induction false} LimitedIsReading(t: HuffTable, s: seq<bool>, z: Block, se: nat, limit: nat, k: nat)
    requires Reads(t) && se <= 63 && limit <= se + 1
    ensures SameBelow(ReadAcsLimited(t, s, z, se, limit, k), ReadAcs(t, s, z, se, k), limit)
    decreases limit - k
  {
    hide ReadSymbol, ReadValue, Reads, ReadBits;
    if k >= limit {
      SkippingIsReading(t, s, z, z, se, limit, k);
    } else {
      var x := ReadSymbol(t, s);
      if x.Done? {
        var r, n := x.v / 16, x.v % 16;
        if n != 0 {
          var y := ReadValue(n, x.rest);
          if y.Done? { LimitedIsReading(t, y.rest, z[Place(k + r) := y.v], se, limit, k + r + 1); }
        } else if r == 15 {
          LimitedIsReading(t, x.rest, z, se, limit, k + 16);
        }
      }
    }
  }

  /** Predictions of components that are needed are the same. */
  predicate SameNeeded(limits: seq<nat>, a: seq<int>, b: seq<int>) {
    |a| == |b| == |limits| && forall ci :: 0 <= ci < |limits| && limits[ci] > 0 ==> a[ci] == b[ci]
  }

  predicate ValidLimits(sc: SeqScan, limits: seq<nat>) {
    |limits| == |sc.comps| && forall ci :: 0 <= ci < |limits| ==> limits[ci] <= sc.se + 1
  }

  lemma UnitLimited(sc: SeqScan, tables: seq<HuffTable>, limits: seq<nat>, lastDc: seq<int>, lastDc1: seq<int>, s: seq<bool>, ci: nat, b: Block)
    requires ValidScan(sc, tables) && sc.se > 0 && ci < |sc.comps| && ValidLimits(sc, limits) && SameNeeded(limits, lastDc, lastDc1)
    ensures var x, y := ReadUnitLimited(sc, tables, limits, lastDc, s, ci, b), ReadUnit(sc, tables, lastDc1, s, ci, b);
            && (y.Suspend? ==> x.Suspend?)
            && (y.Done? ==> x.Done? && x.rest == y.rest && SameNeeded(limits, x.v.0, y.v.0) && Agree(x.v.1, y.v.1, limits[ci]))
  {
    hide ReadSymbol, ReadValue, Reads, ReadBits, ReadAcs, SkipAcs, ReadAcsLimited;
    var t := sc.comps[ci];
    var d := ReadSymbol(tables[t.dcTbl], s);
    if d.Done? {
      SameDrop(d.v, d.rest);
      var v := ReadValue(d.v, d.rest);
      if v.Done? {
        var b1 := b[0 := StoredDc(sc, v.v + lastDc1[ci])];
        if limits[ci] == 0 {
          SkippingIsReading(tables[t.acTbl], v.rest, b, b1, sc.se, 0, 1);
        } else {
          LimitedIsReading(tables[t.acTbl], v.rest, b1, sc.se, limits[ci], 1);
        }
      }
    }
  }

  predicate BlocksAgree(limits: seq<nat>, cis: seq<nat>, bs: seq<Block>, cs: seq<Block>)
    requires forall i :: 0 <= i < |cis| ==> cis[i] < |limits|
  {
    |bs| == |cs| == |cis| && forall i :: 0 <= i < |cis| ==> Agree(bs[i], cs[i], limits[cis[i]])
  }

  /** On any bits: decoding with limits stops where decoding without them stops, or takes the same bits and gives the same
      coefficients in front of the limits. */
  lemma {:induction false} LimitsOnlySkip(sc: SeqScan, tables: seq<HuffTable>, limits: seq<nat>, lastDc: seq<int>, lastDc1: seq<int>,
                                          s: seq<bool>, cis: seq<nat>, bs: seq<Block>)
    requires ValidScan(sc, tables) && sc.se > 0 && ValidLimits(sc, limits) && SameNeeded(limits, lastDc, lastDc1) && |bs| == |cis|
    requires |lastDc| == |lastDc1| == |sc.comps| && forall i :: 0 <= i < |cis| ==> cis[i] < |sc.comps|
    ensures var x, y := ReadUnitsLimited(sc, tables, limits, lastDc, s, cis, bs), ReadUnits(sc, tables, lastDc1, s, cis, bs);
            && (y.Suspend? ==> x.Suspend?)
            && (y.Done? ==> x.Done? && x.rest == y.rest && SameNeeded(limits, x.v.0, y.v.0) && BlocksAgree(limits, cis, x.v.1, y.v.1))
    decreases |cis|
  {
    hide ReadUnitLimited, ReadUnit, ValidScan, Agree, SameNeeded;
    if cis != [] {
      UnitLimited(sc, tables, limits, lastDc, lastDc1, s, cis[0], bs[0]);
      var y := ReadUnit(sc, tables, lastDc1, s, cis[0], bs[0]);
      if y.Done? {
        var x := ReadUnitLimited(sc, tables, limits, lastDc, s, cis[0], bs[0]);
        LimitsOnlySkip(sc, tables, limits, x.v.0, y.v.0, y.rest, cis[1..], bs[1..]);
      }
    }
  }

  /** An interval of a sequential scan, decoded with limits: every block has its coefficients in front of the limit. */
  lemma LimitedScanIsRead(sc: SeqScan, tables: seq<HuffTable>, limits: seq<nat>, us: seq<Unit>, areas: seq<Block>)
    requires ValidScan(sc, tables) && sc.se > 0 && ValidLimits(sc, limits) && CodableUnits(sc, ResetDc(sc), us) && AllZeroed(sc, us, areas)
    requires Sendable(tables, UnitsItems(sc, ResetDc(sc), us))
    ensures forall j :: 0 <= j < |us| ==> Components(us)[j] < |sc.comps|
    ensures var s := Padded(Bits(tables, UnitsItems(sc, ResetDc(sc), us)));
            var x := ReadUnitsLimited(sc, tables, limits, ResetDc(sc), s, Components(us), areas);
            x.Done? && BlocksAgree(limits, Components(us), x.v.1, CodedBlocks(sc, us, areas)) && IsPadding(x.rest)
  {
    hide ReadUnitsLimited, ReadUnits, ValidScan, Zeroed, CodableUnits, Sendable, Bits, UnitsItems, Padded, IsPadding;
    IntervalReadsBack(sc, tables, us, areas);
    LimitsOnlySkip(sc, tables, limits, ResetDc(sc), ResetDc(sc), Padded(Bits(tables, UnitsItems(sc, ResetDc(sc), us))),
                   Components(us), areas);
  }
}
