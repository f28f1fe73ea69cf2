/** Scans with DC coefficients in the Huffman encoder: sequential ones (encode_one_block, encode_mcu_huff, htest_one_block
    and encode_mcu_gather in jchuff.c), where the output routine and the gathering routine are separate and must agree,
    and the first DC scan of a progressive image (encode_mcu_DC_first). */
module HuffmanSequentialEncoderObject {
  import opened Arithmetic
  import opened PointTransform
  import opened HuffmanCode
  import opened HuffmanTables
  import opened HuffmanItems
  import opened HuffmanSequential
  import opened HuffmanEncoderObject
  import opened EstimationTable
  import opened Bytes
  import opened Markers
  import opened BitWriting
  import opened HuffmanSegments
  import opened RestartIntervals
  import opened Seqs

  /** The blocks of an MCU belong to components of the scan. */
  predicate IsMcu(sc: SeqScan, us: seq<Unit>) {
    forall i :: 0 <= i < |us| ==> us[i].ci < |sc.comps| && IsShortBlock(us[i].z)
  }

  class HuffmanSequentialEncoder {
    const coder: HuffmanEncoder
    const sc: SeqScan
    const progressive: bool
    const restartInterval: nat
    var lastDc: seq<int>
    var restartsToGo: nat
    var nextRestartNum: nat

    /** The MCUs that have been coded. */
    ghost var mcus: seq<seq<Unit>>

    ghost predicate Ready()
      reads coder, coder.counts, coder.writer
    {
      && coder.Valid() && ValidShape(sc) && (if progressive then sc.se == 0 else sc.al == 0)
      && forall ci :: 0 <= ci < |sc.comps| ==>
           sc.comps[ci].dcTbl < |coder.derived| && (sc.se > 0 ==> sc.comps[ci].acTbl < |coder.derived|)
    }

    /** The state between MCUs: complete intervals are complete segments, and the predictions and the counter are those
        of the current interval. */
    ghost predicate Valid()
      reads this, coder, coder.counts, coder.writer
    {
      && Ready() && |lastDc| == |sc.comps| && nextRestartNum < 8
      && (restartInterval > 0 ==> restartsToGo == ToGo(|mcus|, restartInterval))
      && (!coder.gatherStatistics ==> nextRestartNum == NextRestart(0, |coder.segments|))
      && IsLogOf(Intervals(mcus, restartInterval))
    }

    ghost predicate IsLogOf(parts: seq<seq<Unit>>)
      reads this, coder
    {
      && parts != [] && CodableParts(sc, parts)
      && coder.segments + [coder.items] == SegmentItems(sc, parts)
      && lastDc == LastDcs(sc, ResetDc(sc), parts[|parts| - 1])
    }

    constructor (coder: HuffmanEncoder, sc: SeqScan, progressive: bool, restartInterval: nat)
      requires coder.Valid() && coder.segments == [] && coder.items == []
      requires ValidShape(sc) && (if progressive then sc.se == 0 else sc.al == 0)
      requires forall ci :: 0 <= ci < |sc.comps| ==>
                 sc.comps[ci].dcTbl < |coder.derived| && (sc.se > 0 ==> sc.comps[ci].acTbl < |coder.derived|)
      ensures this.coder == coder && this.sc == sc && this.progressive == progressive && this.restartInterval == restartInterval
      ensures Valid() && mcus == []
    {
      this.coder, this.sc, this.progressive, this.restartInterval := coder, sc, progressive, restartInterval;
      lastDc := seq(|sc.comps|, _ => 0);
      restartsToGo, nextRestartNum, mcus := restartInterval, 0, [];
      new;
      assert SegmentItems(sc, [[]]) == [[]];
    }

    ghost predicate CannotSend(items: seq<Item>) {
      !coder.gatherStatistics && !Sendable(coder.Tables(), items)
    }

    lemma PartCannotBeSent(before: seq<Item>, part: seq<Item>, after: seq<Item>)
      requires CannotSend(part)
      ensures CannotSend(before + (part + after))
    {
      SendableConcat(coder.Tables(), before, part + after);
      SendableConcat(coder.Tables(), part, after);
    }

    method EmitSymbol(tbl: nat, sym: nat) returns (ok: bool)
      requires coder.Valid() && tbl < |coder.derived| && sym < 256
      modifies coder, coder.counts, coder.writer
      ensures coder.Valid() && coder.Kept()
      ensures ok ==> coder.items == old(coder.items) + [Sym(tbl, sym)]
      ensures !ok ==> CannotSend([Sym(tbl, sym)])
    {
      hide Sends;
      ok := coder.EmitSymbol(tbl, sym);
      if !ok {
        assert !ItemSendable(coder.Tables(), [Sym(tbl, sym)][0]);
      }
    }

    /** A symbol in front of what is still to come. */
    method SendSymbol(tbl: nat, sym: nat, ghost target: seq<Item>, ghost rest: seq<Item>) returns (ok: bool)
      requires coder.Valid() && tbl < |coder.derived| && sym < 256
      requires coder.items + ([Sym(tbl, sym)] + rest) == target
      modifies coder, coder.counts, coder.writer
      ensures coder.Valid() && coder.Kept()
      ensures ok ==> coder.items + rest == target
      ensures !ok ==> CannotSend(target)
    {
      hide HuffmanEncoder.Valid, CannotSend;
      ghost var before := coder.items;
      ok := EmitSymbol(tbl, sym);
      if !ok { PartCannotBeSent(before, [Sym(tbl, sym)], rest); }
      Assoc(before, [Sym(tbl, sym)], rest);
    }

    /** The bits of a nonzero value; a gathering routine leaves them out. */
    method SendValue(v: int, nbits: nat, ghost target: seq<Item>, ghost rest: seq<Item>)
      requires coder.Valid() && v != 0 && nbits == NumBits(Abs(v)) <= 16 && !coder.gatherStatistics
      requires coder.items + ([ValueItem(v)] + rest) == target
      modifies coder, coder.writer
      ensures coder.Valid() && coder.Kept() && coder.items + rest == target
    {
      hide HuffmanEncoder.Valid, NumBits, ValueBits;
      Assoc(coder.items, [ValueItem(v)], rest);
      ValueBitsOf(v, nbits);
      coder.EmitRaw(ValueBits(v, nbits), nbits);
    }

    ghost method SkipValue(v: int, target: seq<Item>, rest: seq<Item>)
      requires coder.Valid() && v != 0 && coder.gatherStatistics && coder.items + ([ValueItem(v)] + rest) == target
      modifies coder
      ensures coder.Valid() && coder.Kept() && coder.items + rest == target
    {
      hide HuffmanEncoder.Valid, NumBits, ValueBits;
      Assoc(coder.items, [ValueItem(v)], rest);
      coder.SkipRaw(ValueItem(v).code, ValueItem(v).size);
    }

    lemma ValueBitsOf(v: int, nbits: nat)
      requires v != 0 && nbits == NumBits(Abs(v))
      ensures 1 <= nbits && Abs(v) < Pow2(nbits) && ValueItem(v) == Raw(ValueBits(v, nbits), nbits)
    {
      NumBitsFacts(Abs(v));
    }

    /** One block. False: a coefficient out of range, or a symbol without a code. */
    method EncodeOneBlock(block: Block, ci: nat) returns (ok: bool)
      requires Ready() && ci < |sc.comps| == |lastDc| && !coder.gatherStatistics && !progressive
      modifies coder, coder.counts, coder.writer
      ensures Ready() && coder.Kept()
      ensures var items := UnitItems(sc, lastDc, Unit(ci, block));
              && (ok ==> InRange(block, ci) && coder.items == old(coder.items) + items)
              && (!ok ==> !InRange(block, ci) || CannotSend(old(coder.items) + items))
    {
      hide HuffmanEncoder.Valid, NumBits, CannotSend, AcItems, DcItems, CodableAc;
      var t, diff := sc.comps[ci], block[0] - lastDc[ci];
      assert DcPoint(sc, block) == block[0] by { ApproxAtZero(block[0]); }
      ghost var ac := AcItems(t.acTbl, block, sc.se, 1, 0);
      ghost var target := coder.items + (DcItems(t.dcTbl, diff) + ac);
      var nbits := coder.CountBits(Abs(diff));
      if nbits > MAX_COEF_BITS + 1 { return false; }
      DcInOrder(t.dcTbl, diff, coder.items, ac);
      ok := SendSymbol(t.dcTbl, nbits, target, (if nbits > 0 then [ValueItem(diff)] else []) + ac);
      if !ok { return; }
      if nbits != 0 {
        SendValue(diff, nbits, target, ac);
      } else {
        assert [] + ac == ac;
      }
      ok := EncodeAc(block, t.acTbl, target);
    }

    ghost predicate InRange(block: Block, ci: nat)
      reads this
      requires ci < |sc.comps| == |lastDc| && sc.se <= 63
    {
      CodableDc(DcPoint(sc, block) - lastDc[ci]) && CodableAc(block, sc.se)
    }

    lemma DcInOrder(tbl: nat, diff: int, before: seq<Item>, rest: seq<Item>)
      ensures before + (DcItems(tbl, diff) + rest)
           == before + ([Sym(tbl, NumBits(Abs(diff)))] + ((if NumBits(Abs(diff)) > 0 then [ValueItem(diff)] else []) + rest))
    {
      hide ValueItem;
      if diff != 0 {
        Assoc([Sym(tbl, NumBits(Abs(diff)))], [ValueItem(diff)], rest);
      } else {
        assert [] + rest == rest;
      }
    }

    method EncodeAc(block: Block, tbl: nat, ghost target: seq<Item>) returns (ok: bool)
      requires Ready() && (sc.se > 0 ==> tbl < |coder.derived|) && !coder.gatherStatistics
      requires coder.items + AcItems(tbl, block, sc.se, 1, 0) == target
      modifies coder, coder.counts, coder.writer
      ensures Ready() && coder.Kept()
      ensures ok ==> CodableAc(block, sc.se) && coder.items == target
      ensures !ok ==> !CodableAc(block, sc.se) || CannotSend(target)
    {
      hide HuffmanEncoder.Valid, NumBits, CannotSend, ValueItem, AcItems;
      var r: nat := 0;
      for k := 1 to sc.se + 1
        invariant Ready() && coder.Kept()
        invariant r < k && forall j :: 1 <= j < k ==> NumBits(Abs(block[j])) <= MAX_COEF_BITS
        invariant coder.items + AcItems(tbl, block, sc.se, k, r) == target
      {
        var temp := block[k];
        AcStep(tbl, block, k, r);
        if temp == 0 {
          NoBits();
          r := r + 1;
        } else {
          while r > 15
            invariant Ready() && coder.Kept()
            invariant r < k && coder.items + AcItems(tbl, block, sc.se, k, r) == target
          {
            AcStep(tbl, block, k, r);
            ok := SendSymbol(tbl, ZRL, target, AcItems(tbl, block, sc.se, k, r - 16));
            if !ok { return; }
            r := r - 16;
          }
          var nbits := coder.CountBits(Abs(temp));
          if nbits > MAX_COEF_BITS { return false; }
          AcStep(tbl, block, k, r);
          ghost var rest := AcItems(tbl, block, sc.se, k + 1, 0);
          ok := SendSymbol(tbl, 16 * r + nbits, target, [ValueItem(temp)] + rest);
          if !ok { return; }
          SendValue(temp, nbits, target, rest);
          r := 0;
        }
      }
      ok := true;
      AcEnd(tbl, block, r);
      if r > 0 {
        assert [Sym(tbl, 0)] + [] == [Sym(tbl, 0)];
        ok := SendSymbol(tbl, 0, target, []);
      }
      assert coder.items + [] == coder.items;
    }

    /** What the items are from position `k` on, after `r` zeros. */
    lemma AcStep(tbl: nat, block: Block, k: nat, r: nat)
      requires k <= sc.se <= 63
      ensures var items := AcItems(tbl, block, sc.se, k, r);
              && (block[k] == 0 ==> items == AcItems(tbl, block, sc.se, k + 1, r + 1))
              && (block[k] != 0 && r > 15 ==> items == [Sym(tbl, ZRL)] + AcItems(tbl, block, sc.se, k, r - 16))
              && (block[k] != 0 && r <= 15 ==>
                    items == [Sym(tbl, 16 * r + NumBits(Abs(block[k])))] + ([ValueItem(block[k])] + AcItems(tbl, block, sc.se, k + 1, 0)))
    {
      hide NumBits, ValueItem;
    }

    lemma AcEnd(tbl: nat, block: Block, r: nat)
      requires sc.se <= 63
      ensures AcItems(tbl, block, sc.se, sc.se + 1, r) == if r > 0 then [Sym(tbl, 0)] else []
    {
    }

    lemma NoBits()
      ensures NumBits(0) == 0
    {
    }

    /** The same walk over a block, only counting. */
    method HTestOneBlock(block: Block, ci: nat) returns (ok: bool)
      requires Ready() && ci < |sc.comps| == |lastDc| && coder.gatherStatistics && !progressive
      modifies coder, coder.counts, coder.writer
      ensures Ready() && coder.Kept()
      ensures ok <==> InRange(block, ci)
      ensures ok ==> coder.items == old(coder.items) + UnitItems(sc, lastDc, Unit(ci, block))
    {
      hide HuffmanEncoder.Valid, NumBits, AcItems, DcItems, CodableAc;
      var t, diff := sc.comps[ci], block[0] - lastDc[ci];
      assert DcPoint(sc, block) == block[0] by { ApproxAtZero(block[0]); }
      ghost var ac := AcItems(t.acTbl, block, sc.se, 1, 0);
      ghost var target := coder.items + (DcItems(t.dcTbl, diff) + ac);
      var nbits := coder.CountBits(Abs(diff));
      if nbits > MAX_COEF_BITS + 1 { return false; }
      DcInOrder(t.dcTbl, diff, coder.items, ac);
      ok := SendSymbol(t.dcTbl, nbits, target, (if nbits > 0 then [ValueItem(diff)] else []) + ac);
      if nbits != 0 {
        SkipValue(diff, target, ac);
      } else {
        assert [] + ac == ac;
      }
      ok := HTestAc(block, t.acTbl, target);
    }

    method HTestAc(block: Block, tbl: nat, ghost target: seq<Item>) returns (ok: bool)
      requires Ready() && (sc.se > 0 ==> tbl < |coder.derived|) && coder.gatherStatistics
      requires coder.items + AcItems(tbl, block, sc.se, 1, 0) == target
      modifies coder, coder.counts, coder.writer
      ensures Ready() && coder.Kept()
      ensures ok <==> CodableAc(block, sc.se)
      ensures ok ==> coder.items == target
    {
      hide HuffmanEncoder.Valid, NumBits, ValueItem, AcItems;
      var r: nat := 0;
      for k := 1 to sc.se + 1
        invariant Ready() && coder.Kept()
        invariant r < k && forall j :: 1 <= j < k ==> NumBits(Abs(block[j])) <= MAX_COEF_BITS
        invariant coder.items + AcItems(tbl, block, sc.se, k, r) == target
      {
        var temp := block[k];
        AcStep(tbl, block, k, r);
        if temp == 0 {
          NoBits();
          r := r + 1;
        } else {
          while r > 15
            invariant Ready() && coder.Kept()
            invariant r < k && coder.items + AcItems(tbl, block, sc.se, k, r) == target
          {
            AcStep(tbl, block, k, r);
            ok := SendSymbol(tbl, ZRL, target, AcItems(tbl, block, sc.se, k, r - 16));
            r := r - 16;
          }
          var nbits := coder.CountBits(Abs(temp));
          if nbits > MAX_COEF_BITS { return false; }
          AcStep(tbl, block, k, r);
          ghost var rest := AcItems(tbl, block, sc.se, k + 1, 0);
          ok := SendSymbol(tbl, 16 * r + nbits, target, [ValueItem(temp)] + rest);
          SkipValue(temp, target, rest);
          r := 0;
        }
      }
      ok := true;
      AcEnd(tbl, block, r);
      if r > 0 {
        assert [Sym(tbl, 0)] + [] == [Sym(tbl, 0)];
        ok := SendSymbol(tbl, 0, target, []);
      }
      assert coder.items + [] == coder.items;
    }

    // -------------------------------------------------------------- MCUs

    /** One block of the first DC scan, in either mode. */
    method EncodeDcFirst(block: Block, ci: nat) returns (ok: bool)
      requires Ready() && ci < |sc.comps| == |lastDc| && progressive
      modifies coder, coder.counts, coder.writer
      ensures Ready() && coder.Kept()
      ensures var items := UnitItems(sc, lastDc, Unit(ci, block));
              && (ok ==> InRange(block, ci) && coder.items == old(coder.items) + items)
              && (!ok ==> !InRange(block, ci) || CannotSend(old(coder.items) + items))
    {
      hide HuffmanEncoder.Valid, NumBits, CannotSend, DcItems, ValueBits;
      var t, diff := sc.comps[ci], DcPoint(sc, block) - lastDc[ci];
      ghost var target := coder.items + (DcItems(t.dcTbl, diff) + []);
      assert AcItems(t.acTbl, block, 0, 1, 0) == [];
      var nbits := coder.CountBits(Abs(diff));
      if nbits > MAX_COEF_BITS + 1 { return false; }
      DcInOrder(t.dcTbl, diff, coder.items, []);
      ok := SendSymbol(t.dcTbl, nbits, target, (if nbits > 0 then [ValueItem(diff)] else []) + []);
      if !ok { return; }
      if nbits != 0 {
        Assoc(coder.items, [ValueItem(diff)], []);
        ValueBitsOf(diff, nbits);
        coder.EmitRaw(ValueBits(diff, nbits), nbits);
      }
      assert coder.items + [] == coder.items;
    }

    /** The blocks of one MCU, in the mode of the coder. False: a coefficient out of range, or a symbol without a code,
        which ends the compression. */
    method EncodeBlocks(us: seq<Unit>) returns (ok: bool)
      requires Ready() && |lastDc| == |sc.comps| && IsMcu(sc, us)
      modifies this`lastDc, coder, coder.counts, coder.writer
      ensures Ready() && |lastDc| == |sc.comps| && coder.Kept()
      ensures ok ==> CodableUnits(sc, old(lastDc), us)
                     && coder.items == old(coder.items) + UnitsItems(sc, old(lastDc), us)
                     && lastDc == LastDcs(sc, old(lastDc), us)
      ensures !ok ==> !CodableUnits(sc, old(lastDc), us) || CannotSend(old(coder.items) + UnitsItems(sc, old(lastDc), us))
    {
      hide HuffmanEncoder.Valid, UnitItems, CodableDc, CodableAc, CannotSend;
      ghost var items, start := coder.items, lastDc;
      assert us[..0] == [];
      assert items + [] == items;
      for i := 0 to |us|
        invariant Ready() && |lastDc| == |sc.comps| && coder.Kept()
        invariant CodableUnits(sc, start, us[..i]) && lastDc == LastDcs(sc, start, us[..i])
        invariant coder.items == items + UnitsItems(sc, start, us[..i])
      {
        var u := us[i];
        ghost var before := coder.items;
        if progressive {
          ok := EncodeDcFirst(u.z, u.ci);
        } else if coder.gatherStatistics {
          ok := HTestOneBlock(u.z, u.ci);
        } else {
          ok := EncodeOneBlock(u.z, u.ci);
        }
        if !ok {
          NotAllCoded(items, start, us, i);
          return;
        }
        UnitsSnoc(sc, start, us[..i], u);
        assert us[..i + 1] == us[..i] + [u];
        Assoc(items, UnitsItems(sc, start, us[..i]), UnitItems(sc, lastDc, u));
        lastDc := lastDc[u.ci := DcPoint(sc, u.z)];
      }
      assert us[..|us|] == us;
      ok := true;
    }

    /** A block that cannot be coded or sent stops the MCU. */
    lemma NotAllCoded(items: seq<Item>, start: seq<int>, us: seq<Unit>, i: nat)
      requires i < |us| && CodableUnits(sc, start, us[..i]) && IsMcu(sc, us) && |start| == |sc.comps| && ValidShape(sc)
      requires var dcs := LastDcs(sc, start, us[..i]);
               var u := us[i];
               CodableUnit(sc, dcs, u) ==>
                 u.ci < |sc.comps| == |dcs| && CannotSend((items + UnitsItems(sc, start, us[..i])) + UnitItems(sc, dcs, u))
      ensures !CodableUnits(sc, start, us) || CannotSend(items + UnitsItems(sc, start, us))
    {
      hide UnitItems, CodableUnit, Sendable;
      if CodableUnits(sc, start, us) {
        assert us == us[..i] + us[i..];
        UnitsJoin(sc, start, us[..i], us[i..]);
        var dcs := LastDcs(sc, start, us[..i]);
        var a, b := UnitsItems(sc, start, us[..i]), UnitItems(sc, dcs, us[i]);
        var c := UnitsItems(sc, dcs[us[i].ci := DcPoint(sc, us[i].z)], us[i..][1..]);
        assert UnitsItems(sc, dcs, us[i..]) == b + c;
        SendableConcat(coder.Tables(), (items + a) + b, c);
        assert items + UnitsItems(sc, start, us) == ((items + a) + b) + c;
      }
    }

    // -------------------------------------------------------------- MCUs and restarts

    /** What stops the compression: with this sequence of MCUs a coefficient is out of range, or there is a symbol without
        a code. */
    ghost predicate Stops(all: seq<seq<Unit>>) {
      var parts := Intervals(all, restartInterval);
      !CodableParts(sc, parts) || (!coder.gatherStatistics && !AllSendable(coder.Tables(), SegmentItems(sc, parts)))
    }

    /** encode_mcu_huff, encode_mcu_gather or encode_mcu_DC_first. Of these, encode_mcu_gather counts the MCU before it
        codes it. */
    method EncodeMcu(us: seq<Unit>) returns (ok: bool)
      requires Valid() && IsMcu(sc, us)
      modifies this, coder, coder.counts, coder.writer
      ensures ok ==> Valid() && mcus == old(mcus) + [us]
      ensures !ok ==> Stops(old(mcus) + [us])
    {
      hide HuffmanEncoder.Valid, CannotSend, CodableUnits, UnitsItems, LastDcs, ToGo, NextRestart, SegmentItems, CodableParts, Intervals;
      ghost var parts, due := Intervals(mcus, restartInterval), RestartBefore(|mcus|, restartInterval);
      OneMcuMore(mcus, us, restartInterval);
      LogParts(parts);
      var early := coder.gatherStatistics && !progressive;
      if restartInterval != 0 {
        CounterStep(|mcus|, restartInterval);
        if restartsToGo == 0 {
          Restart();
          if early { restartsToGo := restartInterval; }
        }
        if early { restartsToGo := restartsToGo - 1; }
      }
      ghost var segments, items, dcs := coder.segments, coder.items, lastDc;
      MarkerStep(|old(coder.segments)|);
      ok := EncodeBlocks(us);
      if !ok {
        PartStops(parts, us, due, items, dcs);
        return;
      }
      if restartInterval != 0 && !early {
        if restartsToGo == 0 {
          restartsToGo := restartInterval;
          nextRestartNum := (nextRestartNum + 1) % 8;
        }
        restartsToGo := restartsToGo - 1;
      }
      PartIsLogged(parts, us, due, segments, items, dcs);
      mcus := mcus + [us];
    }

    static lemma CounterStep(k: nat, interval: nat)
      requires interval > 0
      ensures ToGo(k + 1, interval) == (if ToGo(k, interval) == 0 then interval else ToGo(k, interval)) - 1
    {
    }

    static lemma MarkerStep(n: nat)
      ensures NextRestart(0, n + 1) == (NextRestart(0, n) + 1) % 8
    {
    }

    /** What the current segment is, before and after a restart. */
    lemma LogParts(parts: seq<seq<Unit>>)
      requires IsLogOf(parts)
      ensures var last := |parts| - 1;
              && CodableUnits(sc, ResetDc(sc), parts[last]) && coder.items == UnitsItems(sc, ResetDc(sc), parts[last])
              && lastDc == LastDcs(sc, ResetDc(sc), parts[last])
              && coder.segments == SegmentItems(sc, parts)[..last] && |coder.segments| == last
    {
      var all := coder.segments + [coder.items];
      assert all[|parts| - 1] == coder.items && all[..|parts| - 1] == coder.segments;
    }

    /** emit_restart_s, emit_restart_e, and what encode_mcu_gather does instead. */
    method Restart()
      requires Ready() && |lastDc| == |sc.comps| && nextRestartNum < 8
      requires !coder.gatherStatistics ==> nextRestartNum == NextRestart(0, |coder.segments|)
      modifies this`lastDc, coder, coder.writer
      ensures Ready() && lastDc == ResetDc(sc)
      ensures coder.segments == old(coder.segments) + [old(coder.items)] && coder.items == []
    {
      hide HuffmanEncoder.Valid;
      coder.EmitRestart(nextRestartNum);
      lastDc := seq(|sc.comps|, _ => 0);
    }

    /** The current interval, to which the MCU belongs. */
    ghost predicate Continues(parts: seq<seq<Unit>>, due: bool, items: seq<Item>, dcs: seq<int>) {
      && parts != [] && CodableParts(sc, parts) && |dcs| == |sc.comps|
      && if due then items == [] && dcs == ResetDc(sc)
         else var part := parts[|parts| - 1];
              CodableUnits(sc, ResetDc(sc), part) && items == UnitsItems(sc, ResetDc(sc), part) && dcs == LastDcs(sc, ResetDc(sc), part)
    }

    ghost function Grown(parts: seq<seq<Unit>>, us: seq<Unit>, due: bool): seq<seq<Unit>>
      requires parts != []
    {
      var last := |parts| - 1;
      if due then parts + [us] else parts[..last] + [parts[last] + us]
    }

    lemma JoinedPart(parts: seq<seq<Unit>>, us: seq<Unit>, due: bool, items: seq<Item>, dcs: seq<int>)
      requires Continues(parts, due, items, dcs)
      ensures var grown := Grown(parts, us, due); var part := grown[|grown| - 1];
              && (CodableUnits(sc, ResetDc(sc), part) <==> CodableUnits(sc, dcs, us))
              && (CodableUnits(sc, dcs, us) ==>
                    && UnitsItems(sc, ResetDc(sc), part) == items + UnitsItems(sc, dcs, us)
                    && LastDcs(sc, ResetDc(sc), part) == LastDcs(sc, dcs, us))
      ensures CodableParts(sc, Grown(parts, us, due)) <==> CodableUnits(sc, dcs, us)
    {
      hide CodableUnits, UnitsItems, LastDcs;
      var grown := Grown(parts, us, due);
      var last := |grown| - 1;
      if due {
        if CodableUnits(sc, dcs, us) { assert [] + UnitsItems(sc, dcs, us) == UnitsItems(sc, dcs, us); }
      } else {
        UnitsJoin(sc, ResetDc(sc), parts[|parts| - 1], us);
      }
      assert forall i :: 0 <= i < last ==> grown[i] == parts[i];
    }

    lemma PartStops(parts: seq<seq<Unit>>, us: seq<Unit>, due: bool, items: seq<Item>, dcs: seq<int>)
      requires Continues(parts, due, items, dcs)
      requires !CodableUnits(sc, dcs, us) || CannotSend(items + UnitsItems(sc, dcs, us))
      ensures var grown := Grown(parts, us, due);
              !CodableParts(sc, grown) || (!coder.gatherStatistics && !AllSendable(coder.Tables(), SegmentItems(sc, grown)))
    {
      hide CodableUnits, UnitsItems, LastDcs, Sendable;
      var grown := Grown(parts, us, due);
      var last := |grown| - 1;
      JoinedPart(parts, us, due, items, dcs);
      if CodableParts(sc, grown) {
        assert SegmentItems(sc, grown)[last] == items + UnitsItems(sc, dcs, us);
      }
    }

    lemma PartIsLogged(parts: seq<seq<Unit>>, us: seq<Unit>, due: bool, segments: seq<seq<Item>>, items: seq<Item>, dcs: seq<int>)
      requires Continues(parts, due, items, dcs) && CodableUnits(sc, dcs, us)
      requires segments == (if due then SegmentItems(sc, parts) else SegmentItems(sc, parts)[..|parts| - 1])
      requires coder.segments == segments && coder.items == items + UnitsItems(sc, dcs, us) && lastDc == LastDcs(sc, dcs, us)
      ensures IsLogOf(Grown(parts, us, due))
    {
      hide CodableUnits, UnitsItems, LastDcs;
      var grown := Grown(parts, us, due);
      JoinedPart(parts, us, due, items, dcs);
      var log, all := coder.segments + [coder.items], SegmentItems(sc, grown);
      assert |log| == |all|;
      forall i | 0 <= i < |all| ensures log[i] == all[i] {
        if i < |all| - 1 { assert grown[i] == parts[i] && log[i] == SegmentItems(sc, parts)[i]; }
      }
    }

    // -------------------------------------------------------------- whole passes

    /** The MCUs of a whole scan. */
    method EncodeAll(all: seq<seq<Unit>>) returns (ok: bool)
      requires Valid() && mcus == [] && forall i :: 0 <= i < |all| ==> IsMcu(sc, all[i])
      modifies this, coder, coder.counts, coder.writer
      ensures ok ==> Valid() && mcus == all
      ensures !ok ==> Stops(all)
    {
      hide HuffmanEncoder.Valid, IsLogOf, Stops, Intervals, ToGo, NextRestart;
      assert all[..0] == [];
      for i := 0 to |all|
        invariant Valid() && mcus == all[..i]
      {
        assert all[..i + 1] == all[..i] + [all[i]];
        ok := EncodeMcu(all[i]);
        if !ok {
          StopsForGood(all, i + 1);
          return;
        }
      }
      assert all[..|all|] == all;
      ok := true;
    }

    lemma {:induction false} StopsForGood(all: seq<seq<Unit>>, n: nat)
      requires n <= |all| && Stops(all[..n])
      ensures Stops(all)
      decreases |all| - n
    {
      hide Stops;
      if n < |all| {
        assert all[..n + 1] == all[..n] + [all[n]];
        StopsStill(all[..n], all[n]);
        StopsForGood(all, n + 1);
      } else {
        assert all[..n] == all;
      }
    }

    lemma StopsStill(before: seq<seq<Unit>>, us: seq<Unit>)
      requires Stops(before)
      ensures Stops(before + [us])
    {
      hide CodableUnits, UnitsItems, LastDcs, Sendable, Intervals, ToGo;
      var parts, due := Intervals(before, restartInterval), RestartBefore(|before|, restartInterval);
      OneMcuMore(before, us, restartInterval);
      var grown := Grown(parts, us, due);
      assert grown == Intervals(before + [us], restartInterval);
      if CodableParts(sc, grown) {
        forall i | 0 <= i < |parts| ensures CodableUnits(sc, ResetDc(sc), parts[i]) { PartOfGrown(parts, us, due, i); }
        if !coder.gatherStatistics && AllSendable(coder.Tables(), SegmentItems(sc, grown)) {
          forall i | 0 <= i < |parts| ensures Sendable(coder.Tables(), SegmentItems(sc, parts)[i]) {
            PartOfGrown(parts, us, due, i);
            assert Sendable(coder.Tables(), SegmentItems(sc, grown)[i]);
          }
        }
      }
    }

    lemma PartOfGrown(parts: seq<seq<Unit>>, us: seq<Unit>, due: bool, i: nat)
      requires i < |parts| && CodableUnits(sc, ResetDc(sc), Grown(parts, us, due)[i])
      ensures CodableUnits(sc, ResetDc(sc), parts[i])
      ensures Sendable(coder.Tables(), UnitsItems(sc, ResetDc(sc), Grown(parts, us, due)[i])) ==>
                Sendable(coder.Tables(), UnitsItems(sc, ResetDc(sc), parts[i]))
    {
      hide CodableUnits, UnitsItems, LastDcs, Sendable;
      if !due && i == |parts| - 1 {
        UnitsJoin(sc, ResetDc(sc), parts[i], us);
        var dcs := LastDcs(sc, ResetDc(sc), parts[i]);
        SendableConcat(coder.Tables(), UnitsItems(sc, ResetDc(sc), parts[i]), UnitsItems(sc, dcs, us));
      }
    }

    /** At the end of a pass everything has been sent or counted. */
    lemma AllLogged()
      requires Valid()
      ensures var parts := Intervals(mcus, restartInterval);
              coder.Valid() && CodableParts(sc, parts) && coder.Log() == Flat(SegmentItems(sc, parts))
    {
      hide HuffmanEncoder.Valid, CodableUnits, UnitsItems, LastDcs, Intervals;
      FlatSnoc(coder.segments, coder.items);
    }

    /** finish_pass_huff: the bytes of the scan are complete. */
    method FinishPass()
      requires Valid() && !coder.gatherStatistics
      modifies coder, coder.writer
      ensures var parts := Intervals(mcus, restartInterval);
              && CodableParts(sc, parts) && AllSendable(coder.Tables(), SegmentItems(sc, parts))
              && coder.writer.output == coder.start + ScanBytes(AllBits(coder.Tables(), SegmentItems(sc, parts)), 0)
    {
      hide HuffmanEncoder.Valid, CodableUnits, UnitsItems, LastDcs, Sendable, Bits, ScanBytes, Intervals;
      coder.FinishScan();
    }
  }
}
