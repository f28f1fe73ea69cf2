/** The sequential Huffman decoder and the first DC scan as they run (decode_mcu, decode_mcu_DC_first and process_restart
    in jdhuff.c). Nothing permanent changes before an MCU is complete; the coefficients that a suspended attempt has
    stored already are stored again by the next one. */
module HuffmanMcuDecoderObject {
  import opened Arithmetic
  import opened Wrappers
  import opened PointTransform
  import opened EstimationTable
  import opened Markers
  import opened HuffmanCode
  import opened HuffmanTables
  import opened BitWriting
  import opened BitReading
  import opened HuffmanItems
  import opened HuffmanEobRuns
  import opened HuffmanSequential
  import opened Seqs
  import First = HuffmanFirst
  import R = HuffmanRefinement

  // ---------------------------------------------------------------- coefficients stored twice

  /** From `s0`, `b0`, `k0` the decoder has come to `s`, `b`, `k`; and a second time, with what it has stored in front of
      `k` in place already, it comes there as well, whatever arrives later. */
  ghost predicate Reached(t: HuffTable, se: nat, s0: seq<bool>, b0: Block, k0: nat, s: seq<bool>, b: Block, k: nat)
    requires Reads(t) && se <= 63
  {
    && (forall more :: ReadAcs(t, s0 + more, b0, se, k0) == ReadAcs(t, s + more, b, se, k))
    && (forall more, c :: Agree(c, b, k) ==> ReadAcs(t, s0 + more, c, se, k0) == ReadAcs(t, s + more, c, se, k))
  }

  lemma ReachedFirst(t: HuffTable, se: nat, s: seq<bool>, b: Block, k: nat)
    requires Reads(t) && se <= 63
    ensures Reached(t, se, s, b, k, s, b, k)
  {
  }

  /** Over a symbol and the coefficient that it announces. */
  lemma ReachedCoefficient(t: HuffTable, se: nat, s0: seq<bool>, b0: Block, k0: nat, s: seq<bool>, b: Block, k: nat,
                           s1: seq<bool>, sym: nat, s2: seq<bool>, v: int)
    requires Reads(t) && k <= se <= 63 && Reached(t, se, s0, b0, k0, s, b, k) && sym % 16 != 0
    requires ReadSymbol(t, s) == Done(s1, sym) && ReadValue(sym % 16, s1) == Done(s2, v)
    ensures var q := k + sym / 16; Reached(t, se, s0, b0, k0, s2, b[Place(q) := v], q + 1)
  {
    hide ReadSymbol, ReadValue, Reads;
    var q := k + sym / 16;
    var b1 := b[Place(q) := v];
    forall more, c: Block | Agree(c, b, k)
      ensures ReadAcs(t, s + more, c, se, k) == ReadAcs(t, s2 + more, c[Place(q) := v], se, q + 1) {
      SymbolWithMore(t, s, more);
      ValueWithMore(sym % 16, s1, more);
    }
    forall more ensures ReadAcs(t, s0 + more, b0, se, k0) == ReadAcs(t, s2 + more, b1, se, q + 1) {
      assert Agree(b, b, k);
    }
    forall more, c | Agree(c, b1, q + 1) ensures ReadAcs(t, s0 + more, c, se, k0) == ReadAcs(t, s2 + more, c, se, q + 1) {
      assert Agree(c, b, k);
      assert c[Place(q) := v] == c;
    }
  }

  lemma ReachedZrl(t: HuffTable, se: nat, s0: seq<bool>, b0: Block, k0: nat, s: seq<bool>, b: Block, k: nat,
                   s1: seq<bool>, sym: nat)
    requires Reads(t) && k <= se <= 63 && Reached(t, se, s0, b0, k0, s, b, k) && sym % 16 == 0 && sym / 16 == 15
    requires ReadSymbol(t, s) == Done(s1, sym)
    ensures Reached(t, se, s0, b0, k0, s1, b, k + 16)
  {
    hide ReadSymbol, ReadValue, Reads;
    forall more, c: Block ensures ReadAcs(t, s + more, c, se, k) == ReadAcs(t, s1 + more, c, se, k + 16) {
      SymbolWithMore(t, s, more);
    }
    forall more, c | Agree(c, b, k + 16) ensures ReadAcs(t, s0 + more, c, se, k0) == ReadAcs(t, s1 + more, c, se, k + 16) {
      assert Agree(c, b, k);
    }
  }

  lemma ReachedLast(t: HuffTable, se: nat, s0: seq<bool>, b0: Block, k0: nat, s: seq<bool>, b: Block, k: nat,
                    s1: seq<bool>, sym: nat)
    requires Reads(t) && k <= se <= 63 && Reached(t, se, s0, b0, k0, s, b, k) && sym % 16 == 0 && sym / 16 != 15
    requires ReadSymbol(t, s) == Done(s1, sym)
    ensures ReadAcs(t, s0, b0, se, k0) == Done(s1, b)
  {
    hide ReadSymbol, ReadValue, Reads;
    assert s0 + [] == s0 && s + [] == s;
  }

  lemma ReachedEnd(t: HuffTable, se: nat, s0: seq<bool>, b0: Block, k0: nat, s: seq<bool>, b: Block, k: nat)
    requires Reads(t) && se < k && se <= 63 && Reached(t, se, s0, b0, k0, s, b, k)
    ensures ReadAcs(t, s0, b0, se, k0) == Done(s, b)
  {
    assert s0 + [] == s0 && s + [] == s;
  }

  /** Where bits are missing, they are missing from the start. */
  lemma ReachedShort(t: HuffTable, se: nat, s0: seq<bool>, b0: Block, k0: nat, s: seq<bool>, b: Block, k: nat)
    requires Reads(t) && k <= se <= 63 && Reached(t, se, s0, b0, k0, s, b, k)
    requires var x := ReadSymbol(t, s); x.Suspend? || (x.v % 16 != 0 && ReadValue(x.v % 16, x.rest).Suspend?)
    ensures ReadAcs(t, s0, b0, se, k0).Suspend?
  {
    hide ReadSymbol, ReadValue, Reads;
    assert s0 + [] == s0 && s + [] == s;
  }

  /** From the block that is left, the same bits and those that come later give what they give from the block before. */
  ghost predicate SameAcs(t: HuffTable, se: nat, s: seq<bool>, b: Block, b1: Block)
    requires Reads(t) && se <= 63
  {
    forall more :: ReadAcs(t, s + more, b1, se, 1) == ReadAcs(t, s + more, b, se, 1)
  }

  lemma ReachedIsSame(t: HuffTable, se: nat, s0: seq<bool>, b0: Block, s: seq<bool>, b: Block, k: nat)
    requires Reads(t) && se <= 63 && Reached(t, se, s0, b0, 1, s, b, k)
    ensures SameAcs(t, se, s0, b0, b)
  {
    hide Reads, ReadAcs;
    forall more ensures ReadAcs(t, s0 + more, b, se, 1) == ReadAcs(t, s0 + more, b0, se, 1) {
      assert Agree(b, b, k);
    }
  }

  // ---------------------------------------------------------------- one block

  ghost predicate SameUnit(sc: SeqScan, tables: seq<HuffTable>, lastDc: seq<int>, s: seq<bool>, ci: nat, b: Block, b1: Block)
    requires ValidScan(sc, tables) && ci < |sc.comps| == |lastDc|
  {
    forall more :: ReadUnit(sc, tables, lastDc, s + more, ci, b1) == ReadUnit(sc, tables, lastDc, s + more, ci, b)
  }

  lemma DiffWithMore(t: HuffTable, s: seq<bool>, more: seq<bool>)
    requires Reads(t)
    ensures var x := ReadDcDiff(t, s); x.Done? ==> ReadDcDiff(t, s + more) == Done(x.rest + more, x.v)
  {
    hide ReadSymbol, ReadValue, Reads;
    SymbolWithMore(t, s, more);
    var x := ReadSymbol(t, s);
    if x.Done? { ValueWithMore(x.v, x.rest, more); }
  }

  /** Whatever bits arrive later: the AC coefficients are read into both blocks alike. */
  ghost predicate SameAcPart(sc: SeqScan, tables: seq<HuffTable>, s: seq<bool>, ci: nat, b: Block, b1: Block)
    requires ValidScan(sc, tables) && ci < |sc.comps|
  {
    forall more :: ReadAcPart(sc, tables, s + more, ci, b1) == ReadAcPart(sc, tables, s + more, ci, b)
  }

  /** The DC coefficient has been stored, and AC coefficients after it. */
  lemma AfterDc(sc: SeqScan, tables: seq<HuffTable>, lastDc: seq<int>, s: seq<bool>, ci: nat, b: Block, s1: seq<bool>, diff: int, b1: Block)
    requires ValidScan(sc, tables) && ci < |sc.comps| == |lastDc|
    requires ReadDcDiff(tables[sc.comps[ci].dcTbl], s) == Done(s1, diff)
    requires var dc := StoredDc(sc, diff + lastDc[ci]); SameAcPart(sc, tables, s1, ci, b[0 := dc], b1) && b1[0] == dc
    ensures SameUnit(sc, tables, lastDc, s, ci, b, b1)
  {
    hide ReadDcDiff, ReadAcPart, Reads, StoredDc;
    var dc := StoredDc(sc, diff + lastDc[ci]);
    assert b1[0 := dc] == b1;
    forall more ensures ReadUnit(sc, tables, lastDc, s + more, ci, b1) == ReadUnit(sc, tables, lastDc, s + more, ci, b) {
      DiffWithMore(tables[sc.comps[ci].dcTbl], s, more);
      assert ReadAcPart(sc, tables, s1 + more, ci, b1) == ReadAcPart(sc, tables, s1 + more, ci, b[0 := dc]);
    }
  }

  lemma NothingStored(sc: SeqScan, tables: seq<HuffTable>, lastDc: seq<int>, s: seq<bool>, ci: nat, b: Block)
    requires ValidScan(sc, tables) && ci < |sc.comps| == |lastDc|
    ensures SameUnit(sc, tables, lastDc, s, ci, b, b)
  {
  }

  lemma UnitIs(sc: SeqScan, tables: seq<HuffTable>, lastDc: seq<int>, s: seq<bool>, ci: nat, b: Block)
    requires ValidScan(sc, tables) && ci < |sc.comps| == |lastDc|
    ensures var d := ReadDcDiff(tables[sc.comps[ci].dcTbl], s);
            && (d.Suspend? ==> ReadUnit(sc, tables, lastDc, s, ci, b).Suspend?)
            && (d.Done? ==>
                  var a := ReadAcPart(sc, tables, d.rest, ci, b[0 := StoredDc(sc, d.v + lastDc[ci])]);
                  if a.Suspend? then ReadUnit(sc, tables, lastDc, s, ci, b).Suspend?
                  else ReadUnit(sc, tables, lastDc, s, ci, b) == Done(a.rest, (lastDc[ci := d.v + lastDc[ci]], a.v)))
  {
    hide ReadDcDiff, ReadAcPart, Reads, StoredDc;
  }

  // ---------------------------------------------------------------- several blocks

  predicate Known(sc: SeqScan, cis: seq<nat>) {
    forall i :: 0 <= i < |cis| ==> cis[i] < |sc.comps|
  }

  lemma {:induction false} UnitsConcat(sc: SeqScan, tables: seq<HuffTable>, lastDc: seq<int>, s: seq<bool>, cis: seq<nat>, bs: seq<Block>,
                                       more: seq<nat>, moreBs: seq<Block>)
    requires ValidScan(sc, tables) && |lastDc| == |sc.comps| && |bs| == |cis| && |moreBs| == |more| && Known(sc, cis + more)
    requires Known(sc, cis) && Known(sc, more)
    ensures var x := ReadUnits(sc, tables, lastDc, s, cis, bs);
            var y := ReadUnits(sc, tables, lastDc, s, cis + more, bs + moreBs);
            && (x.Suspend? ==> y.Suspend?)
            && (x.Done? ==>
                  var z := ReadUnits(sc, tables, x.v.0, x.rest, more, moreBs);
                  if z.Suspend? then y.Suspend? else y == Done(z.rest, (z.v.0, x.v.1 + z.v.1)))
    decreases |cis|
  {
    hide ReadUnit, ValidScan;
    if cis == [] {
      assert cis + more == more && bs + moreBs == moreBs;
      var z := ReadUnits(sc, tables, lastDc, s, more, moreBs);
      assert z.Done? ==> [] + z.v.1 == z.v.1;
    } else {
      assert (cis + more)[1..] == cis[1..] + more && (bs + moreBs)[1..] == bs[1..] + moreBs;
      var x := ReadUnit(sc, tables, lastDc, s, cis[0], bs[0]);
      if x.Done? {
        UnitsConcat(sc, tables, x.v.0, x.rest, cis[1..], bs[1..], more, moreBs);
        var a := ReadUnits(sc, tables, x.v.0, x.rest, cis[1..], bs[1..]);
        if a.Done? {
          var z := ReadUnits(sc, tables, a.v.0, a.rest, more, moreBs);
          if z.Done? { Assoc([x.v.1], a.v.1, z.v.1); }
        }
      }
    }
  }

  lemma OneUnit(sc: SeqScan, tables: seq<HuffTable>, lastDc: seq<int>, s: seq<bool>, ci: nat, b: Block)
    requires ValidScan(sc, tables) && |lastDc| == |sc.comps| && ci < |sc.comps|
    ensures var x := ReadUnit(sc, tables, lastDc, s, ci, b);
            ReadUnits(sc, tables, lastDc, s, [ci], [b]) == if x.Suspend? then Suspend else Done(x.rest, (x.v.0, [x.v.1]))
  {
    hide ReadUnit;
    var x := ReadUnit(sc, tables, lastDc, s, ci, b);
    assert [ci][1..] == [] && [b][1..] == [];
    if x.Done? {
      assert ReadUnits(sc, tables, x.v.0, x.rest, [], []) == Done(x.rest, (x.v.0, []));
      assert [x.v.1] + [] == [x.v.1];
    }
  }

  /** The blocks `bs` have been decoded to `now`; decoding them a second time comes to the same point. */
  ghost predicate Through(sc: SeqScan, tables: seq<HuffTable>, lastDc0: seq<int>, s0: seq<bool>, cis: seq<nat>, bs: seq<Block>,
                          now: seq<Block>, s: seq<bool>, lastDc: seq<int>)
    requires ValidScan(sc, tables) && |lastDc0| == |sc.comps| && |bs| == |now| == |cis| && Known(sc, cis)
  {
    && (forall more :: ReadUnits(sc, tables, lastDc0, s0 + more, cis, bs) == Done(s + more, (lastDc, now)))
    && (forall more :: ReadUnits(sc, tables, lastDc0, s0 + more, cis, now) == Done(s + more, (lastDc, now)))
  }

  lemma ThroughOneMore(sc: SeqScan, tables: seq<HuffTable>, lastDc0: seq<int>, s0: seq<bool>, cis: seq<nat>, bs: seq<Block>,
                       now: seq<Block>, s: seq<bool>, lastDc: seq<int>, ci: nat, b: Block, b1: Block, s1: seq<bool>, lastDc1: seq<int>)
    requires ValidScan(sc, tables) && |lastDc0| == |lastDc| == |sc.comps| && |bs| == |now| == |cis| && Known(sc, cis) && ci < |sc.comps|
    requires Through(sc, tables, lastDc0, s0, cis, bs, now, s, lastDc)
    requires ReadUnit(sc, tables, lastDc, s, ci, b) == Done(s1, (lastDc1, b1)) && SameUnit(sc, tables, lastDc, s, ci, b, b1)
    ensures Known(sc, cis + [ci])
    ensures Through(sc, tables, lastDc0, s0, cis + [ci], bs + [b], now + [b1], s1, lastDc1)
  {
    hide ReadUnit, ReadUnits, ValidScan;
    forall more
      ensures ReadUnits(sc, tables, lastDc0, s0 + more, cis + [ci], bs + [b]) == Done(s1 + more, (lastDc1, now + [b1]))
      ensures ReadUnits(sc, tables, lastDc0, s0 + more, cis + [ci], now + [b1]) == Done(s1 + more, (lastDc1, now + [b1]))
    {
      UnitWithMore(sc, tables, lastDc, s, more, ci, b);
      UnitsConcat(sc, tables, lastDc0, s0 + more, cis, bs, [ci], [b]);
      UnitsConcat(sc, tables, lastDc0, s0 + more, cis, now, [ci], [b1]);
      OneUnit(sc, tables, lastDc, s + more, ci, b);
      OneUnit(sc, tables, lastDc, s + more, ci, b1);
    }
  }

  lemma UnitWithMore(sc: SeqScan, tables: seq<HuffTable>, lastDc: seq<int>, s: seq<bool>, more: seq<bool>, ci: nat, b: Block)
    requires ValidScan(sc, tables) && ci < |sc.comps| == |lastDc|
    ensures var x := ReadUnit(sc, tables, lastDc, s, ci, b);
            x.Done? ==> ReadUnit(sc, tables, lastDc, s + more, ci, b) == Done(x.rest + more, x.v)
  {
    hide ReadDcDiff, ReadAcs, Reads, StoredDc;
    DiffWithMore(tables[sc.comps[ci].dcTbl], s, more);
    var d := ReadDcDiff(tables[sc.comps[ci].dcTbl], s);
    if d.Done? && sc.se > 0 {
      AcsWithMore(tables[sc.comps[ci].acTbl], d.rest, more, b[0 := StoredDc(sc, d.v + lastDc[ci])], sc.se, 1);
    }
  }

  lemma {:induction false} AcsWithMore(t: HuffTable, s: seq<bool>, more: seq<bool>, z: Block, se: nat, k: nat)
    requires Reads(t) && se <= 63
    ensures var x := ReadAcs(t, s, z, se, k); x.Done? ==> ReadAcs(t, s + more, z, se, k) == Done(x.rest + more, x.v)
    decreases se + 1 - k
  {
    hide ReadSymbol, ReadValue, Reads;
    if k <= se {
      SymbolWithMore(t, s, more);
      var x := ReadSymbol(t, s);
      if x.Done? {
        var r, n := x.v / 16, x.v % 16;
        if n != 0 {
          ValueWithMore(n, x.rest, more);
          var y := ReadValue(n, x.rest);
          if y.Done? { AcsWithMore(t, y.rest, more, z[Place(k + r) := y.v], se, k + r + 1); }
        } else if r == 15 {
          AcsWithMore(t, x.rest, more, z, se, k + 16);
        }
      }
    }
  }

  /** Whatever bits arrive later: the blocks `now` are decoded like the blocks `bs`. */
  ghost predicate SameUnits(sc: SeqScan, tables: seq<HuffTable>, lastDc: seq<int>, s: seq<bool>, cis: seq<nat>, bs: seq<Block>, now: seq<Block>)
    requires ValidScan(sc, tables) && |lastDc| == |sc.comps| && |bs| == |now| == |cis| && Known(sc, cis)
  {
    forall more :: ReadUnits(sc, tables, lastDc, s + more, cis, now) == ReadUnits(sc, tables, lastDc, s + more, cis, bs)
  }

  /** The attempt was stopped in one of the blocks. */
  lemma StoppedIn(sc: SeqScan, tables: seq<HuffTable>, lastDc0: seq<int>, s0: seq<bool>, cis: seq<nat>, bs: seq<Block>,
                  now: seq<Block>, s: seq<bool>, lastDc: seq<int>, i: nat)
    requires ValidScan(sc, tables) && |lastDc0| == |lastDc| == |sc.comps| && |bs| == |now| == |cis| && Known(sc, cis) && i < |cis|
    requires Known(sc, cis[..i]) && Through(sc, tables, lastDc0, s0, cis[..i], bs[..i], now[..i], s, lastDc)
    requires SameUnit(sc, tables, lastDc, s, cis[i], bs[i], now[i]) && now[i + 1..] == bs[i + 1..]
    ensures SameUnits(sc, tables, lastDc0, s0, cis, bs, now)
  {
    hide ReadUnit, ReadUnits, ValidScan;
    var last := cis[i + 1..];
    assert cis == cis[..i] + ([cis[i]] + last) && bs == bs[..i] + ([bs[i]] + bs[i + 1..]) && now == now[..i] + ([now[i]] + bs[i + 1..]);
    forall more
      ensures ReadUnits(sc, tables, lastDc0, s0 + more, cis, now) == ReadUnits(sc, tables, lastDc0, s0 + more, cis, bs)
    {
      UnitsConcat(sc, tables, lastDc0, s0 + more, cis[..i], bs[..i], [cis[i]] + last, [bs[i]] + bs[i + 1..]);
      UnitsConcat(sc, tables, lastDc0, s0 + more, cis[..i], now[..i], [cis[i]] + last, [now[i]] + bs[i + 1..]);
      UnitsConcat(sc, tables, lastDc, s + more, [cis[i]], [bs[i]], last, bs[i + 1..]);
      UnitsConcat(sc, tables, lastDc, s + more, [cis[i]], [now[i]], last, bs[i + 1..]);
      OneUnit(sc, tables, lastDc, s + more, cis[i], bs[i]);
      OneUnit(sc, tables, lastDc, s + more, cis[i], now[i]);
    }
  }

  /** Bits are missing in one of the blocks. */
  lemma ShortIn(sc: SeqScan, tables: seq<HuffTable>, lastDc0: seq<int>, s0: seq<bool>, cis: seq<nat>, bs: seq<Block>,
                now: seq<Block>, s: seq<bool>, lastDc: seq<int>, i: nat)
    requires ValidScan(sc, tables) && |lastDc0| == |lastDc| == |sc.comps| && |bs| == |cis| && |now| == i < |cis| && Known(sc, cis)
    requires Known(sc, cis[..i]) && Through(sc, tables, lastDc0, s0, cis[..i], bs[..i], now, s, lastDc)
    requires ReadUnit(sc, tables, lastDc, s, cis[i], bs[i]).Suspend?
    ensures ReadUnits(sc, tables, lastDc0, s0, cis, bs).Suspend?
  {
    hide ReadUnit, ReadUnits, ValidScan;
    var last := cis[i + 1..];
    assert cis == cis[..i] + ([cis[i]] + last) && bs == bs[..i] + ([bs[i]] + bs[i + 1..]);
    assert s0 + [] == s0 && s + [] == s;
    UnitsConcat(sc, tables, lastDc0, s0, cis[..i], bs[..i], [cis[i]] + last, [bs[i]] + bs[i + 1..]);
    UnitsConcat(sc, tables, lastDc, s, [cis[i]], [bs[i]], last, bs[i + 1..]);
    OneUnit(sc, tables, lastDc, s, cis[i], bs[i]);
  }

  // ---------------------------------------------------------------- the routines

  class HuffmanMcuDecoder {
    const reader: BitReader
    const sc: SeqScan
    const derived: seq<DerivedTable>
    const restartInterval: nat
    var lastDc: seq<int>
    var restartsToGo: nat
    var nextRestartNum: nat

    ghost function Tables(): seq<HuffTable> {
      seq(|derived|, i requires 0 <= i < |derived| => derived[i].pub)
    }

    ghost predicate Set() {
      && ValidScan(sc, Tables())
      && (forall i :: 0 <= i < |derived| ==> IsDerived(derived[i]))
      && forall ci :: 0 <= ci < |sc.comps| ==> DecoderAccepts(derived[sc.comps[ci].dcTbl].pub, true)
    }

    ghost predicate Ready()
      reads this, reader
    {
      Set() && |lastDc| == |sc.comps| && reader.Valid() && reader.Flagged()
    }

    constructor (reader: BitReader, sc: SeqScan, derived: seq<DerivedTable>, restartInterval: nat)
      requires reader.Valid() && reader.Flagged()
      requires var tables := seq(|derived|, i requires 0 <= i < |derived| => derived[i].pub);
               && ValidScan(sc, tables) && (forall i :: 0 <= i < |derived| ==> IsDerived(derived[i]))
               && forall ci :: 0 <= ci < |sc.comps| ==> DecoderAccepts(derived[sc.comps[ci].dcTbl].pub, true)
      ensures Ready() && this.reader == reader && this.sc == sc && this.derived == derived
      ensures this.restartInterval == restartInterval == restartsToGo && nextRestartNum == 0 && lastDc == ResetDc(sc)
    {
      this.reader, this.sc, this.derived, this.restartInterval := reader, sc, derived, restartInterval;
      lastDc, restartsToGo, nextRestartNum := ResetDc(sc), restartInterval, 0;
    }

    /** The AC coefficients of a block. */
    method DecodeAcs(block: array<int>, d: DerivedTable, se: nat) returns (ok: bool)
      requires reader.Valid() && reader.Flagged() && IsDerived(d) && se <= 63 && block.Length == 64
      modifies reader, block
      ensures reader.Orderly(ok) && Reads(d.pub) && block[0] == old(block[0])
      ensures ok && !reader.insufficientData ==>
                ReadAcs(d.pub, old(reader.Stream()), old(block[..]), se, 1) == Done(reader.Stream(), block[..])
      ensures !old(reader.insufficientData) && reader.insufficientData ==>
                ReadAcs(d.pub, old(reader.Stream()), old(block[..]), se, 1).Suspend?
      ensures !reader.insufficientData ==> SameAcs(d.pub, se, old(reader.Stream()), old(block[..]), block[..])
    {
      hide BitReader.Stream, BitReader.Closed, BitReader.MarkerAhead, BitReader.Valid, IsDerived, ReadSymbol, ReadValue, Reads, Reached,
           SameAcs, ReadAcs;
      DerivedReads(d);
      ghost var t, s0, b0 := d.pub, reader.Stream(), block[..];
      var k := 1;
      ReachedFirst(t, se, s0, b0, 1);
      while k <= se
        invariant reader.Orderly(true) && 1 <= k && block[0] == old(block[0])
        invariant !reader.insufficientData ==> Reached(t, se, s0, b0, 1, reader.Stream(), block[..], k)
        invariant !old(reader.insufficientData) && reader.insufficientData ==> ReadAcs(t, s0, b0, se, 1).Suspend?
        decreases se + 1 - k
      {
        ghost var s, b, short := reader.Stream(), block[..], reader.insufficientData;
        if !short { ReachedIsSame(t, se, s0, b0, s, b, k); }
        var sym: nat;
        ok, sym := reader.NextSymbol(d);
        if !short && reader.insufficientData { ReachedShort(t, se, s0, b0, 1, s, b, k); }
        if !ok { return; }
        ghost var s1 := reader.Stream();
        var r, n := sym / 16, sym % 16;
        if n != 0 {
          k := k + r;
          ghost var shortNow := reader.insufficientData;
          var v;
          ok, v := reader.Value(n);
          if !shortNow && reader.insufficientData { ReachedShort(t, se, s0, b0, 1, s, b, k - r); }
          if !ok { return; }
          if !reader.insufficientData { ReachedCoefficient(t, se, s0, b0, 1, s, b, k - r, s1, sym, reader.Stream(), v); }
          block[Place(k)] := v;
          assert block[..] == b[Place(k) := v];
          k := k + 1;
        } else {
          if r != 15 {
            if !reader.insufficientData { ReachedLast(t, se, s0, b0, 1, s, b, k, s1, sym); }
            return;
          }
          if !reader.insufficientData { ReachedZrl(t, se, s0, b0, 1, s, b, k, s1, sym); }
          k := k + 16;
        }
      }
      ok := true;
      if !reader.insufficientData {
        ReachedEnd(t, se, s0, b0, 1, reader.Stream(), block[..], k);
        ReachedIsSame(t, se, s0, b0, reader.Stream(), block[..], k);
      }
    }

    static lemma DerivedReads(d: DerivedTable)
      requires IsDerived(d)
      ensures Reads(d.pub)
    {
      hide DecoderTables;
    }

    /** One block: the DC difference, then the AC coefficients if the scan has any. */
    method DecodeBlock(block: array<int>, ci: nat, dcs: seq<int>) returns (ok: bool, dcs': seq<int>)
      requires Set() && reader.Valid() && reader.Flagged() && ci < |sc.comps| == |dcs| && block.Length == 64
      modifies reader, block
      ensures reader.Orderly(ok) && |dcs'| == |dcs|
      ensures ok && !reader.insufficientData ==>
                ReadUnit(sc, Tables(), dcs, old(reader.Stream()), ci, old(block[..])) == Done(reader.Stream(), (dcs', block[..]))
      ensures !old(reader.insufficientData) && reader.insufficientData ==>
                ReadUnit(sc, Tables(), dcs, old(reader.Stream()), ci, old(block[..])).Suspend?
      ensures !reader.insufficientData ==> SameUnit(sc, Tables(), dcs, old(reader.Stream()), ci, old(block[..]), block[..])
    {
      hide BitReader.Stream, BitReader.Closed, BitReader.MarkerAhead, BitReader.Valid, IsDerived, ReadSymbol, ReadValue, Reads,
           SameAcPart, SameUnit, ReadAcPart, ReadUnit, Short;
      ghost var s0, b0, tables := reader.Stream(), block[..], Tables();
      var dcTbl := derived[sc.comps[ci].dcTbl];
      dcs' := dcs;
      UnitIs(sc, tables, dcs, s0, ci, b0);
      NothingStored(sc, tables, dcs, s0, ci, b0);
      var n: nat;
      ok, n := reader.NextSymbol(dcTbl);
      if !ok { return; }
      var diff: int;
      ok, diff := reader.Value(n);
      if !ok { return; }
      var dc := diff + dcs[ci];
      dcs' := dcs[ci := dc];
      ghost var s1, short := reader.Stream(), reader.insufficientData;
      assert !old(reader.insufficientData) && short ==> ReadDcDiff(tables[sc.comps[ci].dcTbl], s0).Suspend?;
      assert !short ==> ReadDcDiff(tables[sc.comps[ci].dcTbl], s0) == Done(s1, diff);
      block[0] := Short(dc * Pow2(sc.al));
      assert block[..] == b0[0 := StoredDc(sc, dc)];
      ok := DecodeAcPart(block, ci);
      if !reader.insufficientData { AfterDc(sc, tables, dcs, s0, ci, b0, s1, diff, block[..]); }
    }

    method DecodeAcPart(block: array<int>, ci: nat) returns (ok: bool)
      requires Set() && reader.Valid() && reader.Flagged() && ci < |sc.comps| && block.Length == 64
      modifies reader, block
      ensures ValidScan(sc, Tables())
      ensures reader.Orderly(ok) && block[0] == old(block[0])
      ensures ok && !reader.insufficientData ==>
                ReadAcPart(sc, Tables(), old(reader.Stream()), ci, old(block[..])) == Done(reader.Stream(), block[..])
      ensures !old(reader.insufficientData) && reader.insufficientData ==>
                ReadAcPart(sc, Tables(), old(reader.Stream()), ci, old(block[..])).Suspend?
      ensures !reader.insufficientData ==> SameAcPart(sc, Tables(), old(reader.Stream()), ci, old(block[..]), block[..])
    {
      hide BitReader.Stream, BitReader.Closed, BitReader.MarkerAhead, BitReader.Valid, IsDerived, Reads, ReadAcs;
      ok := true;
      if sc.se > 0 { ok := DecodeAcs(block, derived[sc.comps[ci].acTbl], sc.se); }
    }

    /** What the blocks of an MCU hold. */
    function Contents(blocks: seq<array<int>>): (bs: seq<Block>)
      requires forall i :: 0 <= i < |blocks| ==> blocks[i].Length == 64
      reads blocks
      ensures |bs| == |blocks|
    {
      seq(|blocks|, i requires 0 <= i < |blocks| reads blocks => blocks[i][..])
    }

    static predicate Separate(blocks: seq<array<int>>) {
      && (forall i :: 0 <= i < |blocks| ==> blocks[i].Length == 64)
      && (forall i, j :: 0 <= i < j < |blocks| ==> blocks[i] != blocks[j])
    }

    /** The blocks of an MCU, when no restart marker is due: all of them are decoded and the state moves on, or nothing
        permanent happens and the blocks can be decoded again. */
    method DecodeBlocks(cis: seq<nat>, blocks: seq<array<int>>) returns (ok: bool)
      requires Ready() && !reader.insufficientData && |blocks| == |cis| && Known(sc, cis) && Separate(blocks)
      modifies this`lastDc, reader, blocks
      ensures Ready() && reader.MarkerAhead() == old(reader.MarkerAhead()) && reader.Closed() == old(reader.Closed())
      ensures ok && !reader.insufficientData ==>
                (ReadUnits(sc, Tables(), old(lastDc), old(reader.Stream()), cis, old(Contents(blocks)))
                 == Done(reader.Stream(), (lastDc, Contents(blocks))))
      ensures reader.insufficientData ==>
                ok && ReadUnits(sc, Tables(), old(lastDc), old(reader.Stream()), cis, old(Contents(blocks))).Suspend?
      ensures !ok ==>
                && reader.Stream() == old(reader.Stream()) && lastDc == old(lastDc) && reader.input == old(reader.input)
                && SameUnits(sc, Tables(), lastDc, reader.Stream(), cis, old(Contents(blocks)), Contents(blocks))
    {
      hide BitReader.Stream, BitReader.Closed, BitReader.MarkerAhead, BitReader.Valid, IsDerived, ReadUnit, ReadUnits, SameUnit, Through,
           SameUnits, Set, ValidScan;
      assert ValidScan(sc, Tables()) by { SetFacts(); }
      var buffer, left, input := reader.getBuffer, reader.bitsLeft, reader.input;
      ghost var s0, dcs0, bs0, tables := reader.Stream(), lastDc, Contents(blocks), Tables();
      var dcs := lastDc;
      ok := true;
      var blkn := 0;
      NothingDone(sc, tables, dcs0, s0);
      assert cis[..0] == [] && bs0[..0] == [];
      while ok && blkn < |cis|
        invariant 0 <= blkn <= |cis| && reader.Orderly(ok) && |dcs| == |sc.comps| && lastDc == dcs0
        invariant Known(sc, cis[..blkn]) && (ok ==> Contents(blocks)[blkn..] == bs0[blkn..])
        invariant ok && !reader.insufficientData ==>
                    Through(sc, tables, dcs0, s0, cis[..blkn], bs0[..blkn], Contents(blocks)[..blkn], reader.Stream(), dcs)
        invariant reader.insufficientData ==> ReadUnits(sc, tables, dcs0, s0, cis, bs0).Suspend?
        invariant !ok ==> SameUnits(sc, tables, dcs0, s0, cis, bs0, Contents(blocks))
        decreases ok, |cis| - blkn
      {
        ok, dcs := OneBlock(cis, blocks, blkn, dcs, s0, dcs0, bs0);
        if ok { blkn := blkn + 1; }
      }
      if ok {
        lastDc := dcs;
        assert cis[..|cis|] == cis && bs0[..|bs0|] == bs0 && Contents(blocks)[..|cis|] == Contents(blocks);
        if !reader.insufficientData { AllThrough(sc, tables, dcs0, s0, cis, bs0, Contents(blocks), reader.Stream(), dcs); }
      } else {
        reader.NoMarkerYet();
        reader.getBuffer, reader.bitsLeft, reader.input := buffer, left, input;
        reader.RestoredState();
      }
    }

    /** Block `blkn` of the MCU, after the ones before it have been decoded. */
    method OneBlock(cis: seq<nat>, blocks: seq<array<int>>, blkn: nat, dcs: seq<int>, ghost s0: seq<bool>, ghost dcs0: seq<int>,
                    ghost bs0: seq<Block>)
      returns (ok: bool, dcs': seq<int>)
      requires Set() && reader.Valid() && reader.Flagged() && |blocks| == |bs0| == |cis| && Known(sc, cis) && Separate(blocks) && blkn < |cis|
      requires |dcs| == |dcs0| == |sc.comps| && Known(sc, cis[..blkn]) && Contents(blocks)[blkn..] == bs0[blkn..]
      requires !reader.insufficientData ==>
                 Through(sc, Tables(), dcs0, s0, cis[..blkn], bs0[..blkn], Contents(blocks)[..blkn], reader.Stream(), dcs)
      requires reader.insufficientData ==> ReadUnits(sc, Tables(), dcs0, s0, cis, bs0).Suspend?
      modifies reader, blocks
      ensures reader.Orderly(ok) && |dcs'| == |sc.comps|
      ensures ok ==> Known(sc, cis[..blkn + 1]) && Contents(blocks)[blkn + 1..] == bs0[blkn + 1..]
      ensures ok && !reader.insufficientData ==>
                Through(sc, Tables(), dcs0, s0, cis[..blkn + 1], bs0[..blkn + 1], Contents(blocks)[..blkn + 1], reader.Stream(), dcs')
      ensures reader.insufficientData ==> ReadUnits(sc, Tables(), dcs0, s0, cis, bs0).Suspend?
      ensures !ok ==> SameUnits(sc, Tables(), dcs0, s0, cis, bs0, Contents(blocks))
    {
      hide BitReader.Stream, BitReader.Closed, BitReader.MarkerAhead, BitReader.Valid, IsDerived, ReadUnit, ReadUnits, SameUnit, Through,
           SameUnits, Set, ValidScan;
      assert ValidScan(sc, Tables()) by { SetFacts(); }
      ghost var s, now, tables, short := reader.Stream(), Contents(blocks), Tables(), reader.insufficientData;
      assert now[blkn] == now[blkn..][0] == bs0[blkn];
      assert blocks[blkn][..] == bs0[blkn];
      ok, dcs' := DecodeBlock(blocks[blkn], cis[blkn], dcs);
      ghost var now' := Contents(blocks);
      assert now'[..blkn] == now[..blkn] && now'[blkn + 1..] == now[blkn + 1..] == bs0[blkn + 1..];
      assert now'[blkn] == blocks[blkn][..];
      assert cis[..blkn + 1] == cis[..blkn] + [cis[blkn]] && bs0[..blkn + 1] == bs0[..blkn] + [bs0[blkn]];
      assert now'[..blkn + 1] == now'[..blkn] + [now'[blkn]];
      if !short && reader.insufficientData {
        ShortIn(sc, tables, dcs0, s0, cis, bs0, now[..blkn], s, dcs, blkn);
      } else if !short && ok {
        ThroughOneMore(sc, tables, dcs0, s0, cis[..blkn], bs0[..blkn], now[..blkn], s, dcs, cis[blkn], bs0[blkn], now'[blkn],
                       reader.Stream(), dcs');
      } else if !ok {
        StoppedIn(sc, tables, dcs0, s0, cis, bs0, now', s, dcs, blkn);
      }
    }

    // -------------------------------------------------------------- restarts

    predicate RestartDue()
      reads this
    {
      restartInterval != 0 && restartsToGo == 0
    }

    /** Where the next MCU starts: the bits and the DC predictions. None: the restart marker that is due is not there. */
    ghost function Begin(): (x: Option<(seq<bool>, seq<int>)>)
      reads this, reader
    {
      if RestartDue() then
        var m := reader.MarkerAhead();
        if m.Some? && m.value.0 == RST0 + nextRestartNum then Some((AheadBits(m.value.1), ResetDc(sc))) else None
      else Some((reader.Stream(), lastDc))
    }

    /** process_restart: what is left of the segment is thrown away, and everything starts anew behind the marker. */
    method ProcessRestart() returns (status: Status)
      requires Ready() && nextRestartNum < 8 && RestartDue()
      modifies this`lastDc, this`restartsToGo, this`nextRestartNum, reader
      ensures status != LostSync ==> Ready() && nextRestartNum < 8
      ensures status == Fine <==> old(Begin()).Some?
      ensures status == Fine ==>
                && !RestartDue() && restartsToGo == restartInterval && nextRestartNum == (old(nextRestartNum) + 1) % 8
                && !reader.insufficientData && Begin() == old(Begin())
                && reader.MarkerAhead() == NextMarker(old(reader.MarkerAhead()).value.1)
      ensures status == Suspended ==>
                && RestartDue() && nextRestartNum == old(nextRestartNum) && !reader.Closed()
                && reader.unreadMarker == 0 && SameMarker(old(reader.input), reader.input)
    {
      hide Set, NextMarker, AheadBits, Ends, SameMarker, ValidScan, BitReader.Stream, BitReader.Closed;
      var found, lost := reader.Restart(nextRestartNum);
      if lost { return LostSync; }
      if !found { return Suspended; }
      nextRestartNum := (nextRestartNum + 1) % 8;
      lastDc := ResetDc(sc);
      restartsToGo := restartInterval;
      status := Fine;
    }

    /** decode_mcu. */
    method DecodeMcu(cis: seq<nat>, blocks: seq<array<int>>) returns (status: Status)
      requires Ready() && nextRestartNum < 8 && |blocks| == |cis| && Known(sc, cis) && Separate(blocks)
      modifies this`lastDc, this`restartsToGo, this`nextRestartNum, reader, blocks
      ensures status != LostSync ==> Ready() && nextRestartNum < 8
      ensures old(Begin()).None? ==> status != Fine && Contents(blocks) == old(Contents(blocks))
      ensures old(reader.insufficientData) && !old(RestartDue()) ==> status == Fine && Contents(blocks) == old(Contents(blocks))
      ensures status == Fine && restartInterval != 0 ==>
                restartsToGo == (if old(RestartDue()) then restartInterval else old(restartsToGo)) - 1
      ensures status == Fine && (!old(reader.insufficientData) || old(RestartDue())) && !reader.insufficientData ==>
                && old(Begin()).Some? && |old(Begin()).value.1| == |sc.comps| && ValidScan(sc, Tables())
                && (ReadUnits(sc, Tables(), old(Begin()).value.1, old(Begin()).value.0, cis, old(Contents(blocks)))
                    == Done(reader.Stream(), (lastDc, Contents(blocks))))
      ensures status == Suspended && old(Begin()).Some? ==>
                && Begin() == old(Begin()) && !RestartDue()
                && |lastDc| == |sc.comps| && ValidScan(sc, Tables())
                && SameUnits(sc, Tables(), lastDc, reader.Stream(), cis, old(Contents(blocks)), Contents(blocks))
    {
      hide Set, NextMarker, AheadBits, Ends, SameMarker, BitReader.Stream, BitReader.Closed, BitReader.Valid, ReadUnits, SameUnits,
           ValidScan;
      SetFacts();
      if restartInterval != 0 {
        if restartsToGo == 0 {
          status := ProcessRestart();
          if status != Fine { return; }
        }
      }
      ghost var begin, bs := Begin(), Contents(blocks);
      if !reader.insufficientData {
        var ok := DecodeBlocks(cis, blocks);
        if !ok { return Suspended; }
      }
      if restartInterval != 0 { restartsToGo := restartsToGo - 1; }
      status := Fine;
    }

    lemma SetFacts()
      requires Set()
      ensures ValidScan(sc, Tables())
    {
    }
  }

  lemma NothingDone(sc: SeqScan, tables: seq<HuffTable>, lastDc: seq<int>, s: seq<bool>)
    requires ValidScan(sc, tables) && |lastDc| == |sc.comps|
    ensures Through(sc, tables, lastDc, s, [], [], [], s, lastDc)
  {
  }

  lemma AllThrough(sc: SeqScan, tables: seq<HuffTable>, lastDc0: seq<int>, s0: seq<bool>, cis: seq<nat>, bs: seq<Block>,
                   now: seq<Block>, s: seq<bool>, lastDc: seq<int>)
    requires ValidScan(sc, tables) && |lastDc0| == |sc.comps| && |bs| == |now| == |cis| && Known(sc, cis)
    requires Through(sc, tables, lastDc0, s0, cis, bs, now, s, lastDc)
    ensures ReadUnits(sc, tables, lastDc0, s0, cis, bs) == Done(s, (lastDc, now))
  {
    hide ReadUnits;
    assert s0 + [] == s0 && s + [] == s;
  }
}
