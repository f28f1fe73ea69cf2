/** Progressive AC scans in the Huffman encoder (encode_mcu_AC_first, encode_mcu_AC_refine, emit_eobrun,
    emit_buffered_bits in jchuff.c): the end-of-band run and the buffer of correction bits are kept in place. */
module HuffmanAcEncoderObject {
  import opened Arithmetic
  import opened PointTransform
  import opened HuffmanCode
  import opened HuffmanItems
  import opened HuffmanEobRuns
  import opened HuffmanEncoderObject
  import opened Seqs
  import opened HuffmanSegments
  import opened HuffmanAcScans
  import opened RestartIntervals
  import First = HuffmanFirst

  class HuffmanAcEncoder {
    const coder: HuffmanEncoder
    const p: Band
    const first: bool
    const restartInterval: nat
    var eobrun: nat
    var be: nat
    const bitBuffer: array<bool>
    var restartsToGo: nat
    var nextRestartNum: nat

    /** The MCUs that have been coded, of one block each. */
    ghost var mcus: seq<seq<Block>>

    ghost predicate Buffered()
      reads this
    {
      ValidBand(p) && p.tbl < |coder.derived| && bitBuffer.Length == MAX_CORR_BITS && be <= MAX_CORR_BITS
    }

    ghost function Waiting(): Pending
      reads this, bitBuffer
      requires Buffered()
    {
      Pending(eobrun, bitBuffer[..be])
    }

    ghost predicate Refining()
      reads this, coder, coder.counts, coder.writer, bitBuffer
    {
      Buffered() && coder.Valid() && ValidPending(Waiting())
    }

    constructor (coder: HuffmanEncoder, a: AcScan, restartInterval: nat)
      requires coder.Valid() && coder.segments == [] && coder.items == [] && ValidAcScan(a) && a.p.tbl < |coder.derived|
      ensures this.coder == coder && Scan() == a && this.restartInterval == restartInterval
      ensures Valid() && mcus == [] && fresh(bitBuffer)
    {
      hide HuffmanEncoder.Valid, Intervals, ToGo, NextRestart, LogItems, CodableParts, SentBy, ValidBetween;
      this.coder, this.p, this.first, this.restartInterval := coder, a.p, a.first, restartInterval;
      eobrun, be, restartsToGo, nextRestartNum, mcus := 0, 0, restartInterval, 0, [];
      bitBuffer := new bool[MAX_CORR_BITS](_ => false);
      new;
      NothingLogged(a, restartInterval);
      assert bitBuffer[..0] == [];
    }

    static lemma NothingLogged(a: AcScan, interval: nat)
      requires ValidAcScan(a)
      ensures Intervals<Block>([], interval) == [[]] && NextRestart(0, 0) == 0 && ValidBetween(a, NONE)
      ensures interval > 0 ==> ToGo(0, interval) == interval
      ensures CodableParts(a, [[]]) && LogItems(a, [[]]) == [[]] && SentBy(a, []) == Sent([], NONE)
    {
    }

    ghost function Scan(): AcScan { AcScan(p, first) }

    ghost predicate Ready()
      reads this, coder, coder.counts, coder.writer, bitBuffer
    {
      Buffered() && coder.Valid() && ValidBetween(Scan(), Waiting())
    }

    /** The state between MCUs: complete intervals are complete segments, and what is pending is of the current one. */
    ghost predicate Valid()
      reads this, coder, coder.counts, coder.writer, bitBuffer
    {
      && Ready() && nextRestartNum < 8
      && (restartInterval > 0 ==> restartsToGo == ToGo(|mcus|, restartInterval))
      && (!coder.gatherStatistics ==> nextRestartNum == NextRestart(0, |coder.segments|))
      && IsLogOf(Intervals(mcus, restartInterval))
    }

    ghost predicate IsLogOf(parts: seq<seq<Block>>)
      reads this, coder, bitBuffer
      requires Buffered()
    {
      && parts != [] && CodableParts(Scan(), parts)
      && coder.segments + [coder.items] == LogItems(Scan(), parts)
      && Waiting() == SentBy(Scan(), parts[|parts| - 1]).pending
    }

    /** In output mode the items cannot all be sent: the error exit for a missing code. */
    ghost predicate CannotSend(items: seq<Item>) {
      !coder.gatherStatistics && !Sendable(coder.Tables(), items)
    }

    lemma PartCannotBeSent(before: seq<Item>, part: seq<Item>, after: seq<Item>)
      requires CannotSend(part)
      ensures CannotSend(before + (part + after)) && CannotSend(before + part)
    {
      SendableConcat(coder.Tables(), before, part + after);
      SendableConcat(coder.Tables(), part, after);
      SendableConcat(coder.Tables(), before, part);
    }

    method EmitSymbol(sym: nat) returns (ok: bool)
      requires coder.Valid() && p.tbl < |coder.derived| && sym < 256
      modifies coder, coder.counts, coder.writer
      ensures coder.Valid() && coder.Kept()
      ensures ok ==> coder.items == old(coder.items) + [Sym(p.tbl, sym)]
      ensures !ok ==> CannotSend([Sym(p.tbl, sym)])
    {
      hide Sends;
      ok := coder.EmitSymbol(p.tbl, sym);
      if !ok {
        assert !ItemSendable(coder.Tables(), [Sym(p.tbl, sym)][0]);
      }
    }

    /** Emit bits from the correction bit buffer. */
    method EmitBufferedBits(start: nat, nbits: nat)
      requires coder.Valid() && start + nbits <= bitBuffer.Length
      modifies coder, coder.writer
      ensures coder.Valid() && coder.Kept()
      ensures coder.items == old(coder.items) + BitItems(bitBuffer[start..start + nbits])
    {
      hide HuffmanEncoder.Valid;
      var i := 0;
      while i < nbits
        invariant i <= nbits && coder.Valid() && coder.Kept()
        invariant coder.items == old(coder.items) + BitItems(bitBuffer[start..start + i])
      {
        coder.EmitRaw(if bitBuffer[start + i] then 1 else 0, 1);
        assert BitItems(bitBuffer[start..start + i + 1]) == BitItems(bitBuffer[start..start + i]) + [BitItem(bitBuffer[start + i])];
        i := i + 1;
      }
    }

    /** Emit any pending end-of-band run, and the correction bits that wait with it. */
    method EmitEobrun() returns (ok: bool)
      requires Buffered() && coder.Valid() && eobrun < 0x8000 && (be > 0 ==> eobrun > 0)
      modifies this`eobrun, this`be, coder, coder.counts, coder.writer
      ensures coder.Valid() && coder.Kept() && Buffered()
      ensures ok ==> coder.items == old(coder.items) + FlushItems(p.tbl, old(Waiting())) && Waiting() == NONE
      ensures !ok ==> CannotSend(FlushItems(p.tbl, old(Waiting())))
    {
      hide HuffmanEncoder.Valid, FlushItems, RunItems, BitItems, NumBits, CannotSend;
      ghost var before, e := coder.items, Waiting();
      if eobrun == 0 {
        assert e == NONE;
        NothingToFlush(p.tbl, before);
        return true;
      }
      var nbits := RunBits(eobrun);
      ok := EmitSymbol(16 * nbits);
      if !ok {
        PartCannotBeSent([], [Sym(p.tbl, 16 * nbits)], (if nbits > 0 then [Raw(eobrun, nbits)] else []) + BitItems(e.bits));
        FlushParts(p.tbl, e, nbits);
        return;
      }
      if nbits != 0 {
        coder.EmitRaw(eobrun, nbits);
      }
      eobrun := 0;
      EmitBufferedBits(0, be);
      FlushParts(p.tbl, e, nbits);
      assert bitBuffer[0..be] == e.bits;
      be := 0;
      SumOfParts(before, [Sym(p.tbl, 16 * nbits)], if nbits > 0 then [Raw(e.run, nbits)] else [], BitItems(e.bits));
    }

    static lemma NothingToFlush(tbl: nat, before: seq<Item>)
      ensures before + FlushItems(tbl, NONE) == before
    {
    }

    static lemma SumOfParts(before: seq<Item>, a: seq<Item>, b: seq<Item>, c: seq<Item>)
      ensures before + a + b + c == before + (a + (b + c))
      ensures [] + (a + (b + c)) == a + (b + c)
      ensures b == [] ==> before + a + c == before + (a + (b + c))
    {
    }

    static lemma FlushParts(tbl: nat, e: Pending, nbits: nat)
      requires e.run > 0 && nbits == NumBits(e.run) - 1
      ensures FlushItems(tbl, e) == [Sym(tbl, 16 * nbits)] + ((if nbits > 0 then [Raw(e.run, nbits)] else []) + BitItems(e.bits))
      ensures FlushItems(tbl, e) == [] + ([Sym(tbl, 16 * nbits)] + ((if nbits > 0 then [Raw(e.run, nbits)] else []) + BitItems(e.bits)))
    {
    }

    /** How many bits of the run come after its highest. */
    method RunBits(run: nat) returns (nbits: nat)
      requires 1 <= run < 0x8000
      ensures nbits == NumBits(run) - 1 && nbits <= 14
    {
      Pow2Of15();
      NumBitsBound(run, 15);
      nbits := 0;
      var temp := run;
      while temp / 2 != 0
        invariant 1 <= temp && nbits + NumBits(temp) == NumBits(run)
        decreases temp
      {
        temp := temp / 2;
        nbits := nbits + 1;
      }
    }

    // -------------------------------------------------------------- refinement

    /** What has been sent and is pending, with what the rest of the block will add. */
    ghost predicate HeadsFor(target: Sent, rest: Sent)
      reads coder
    {
      Before(coder.items, rest) == target
    }

    /** The pre-pass: the transformed magnitudes, and the position of the last new coefficient. */
    method Prepare(z: Block) returns (absvalues: array<nat>, eob: nat)
      requires ValidBand(p)
      ensures fresh(absvalues) && absvalues.Length == 64
      ensures forall k :: p.ss <= k <= p.se ==> absvalues[k] == Mag(z, p, k)
      ensures eob == LastNew(z, p, p.se)
    {
      hide Mag;
      absvalues := new nat[64](_ => 0);
      eob := 0;
      NoneNewBefore(z);
      for k := p.ss to p.se + 1
        invariant forall j :: p.ss <= j < k ==> absvalues[j] == Mag(z, p, j)
        invariant eob == LastNew(z, p, k - 1)
      {
        absvalues[k] := Mag(z, p, k);
        if absvalues[k] == 1 {
          eob := k;
        }
      }
    }

    lemma NoneNewBefore(z: Block)
      requires ValidBand(p)
      ensures LastNew(z, p, p.ss - 1) == 0
    {
    }

    /** One block of the refinement scan. */
    method EncodeMcuRefine(z: Block) returns (ok: bool)
      requires Refining()
      modifies this`eobrun, this`be, coder, coder.counts, coder.writer, bitBuffer
      ensures coder.Valid() && coder.Kept()
      ensures var s := RefineItems(p, z, p.ss, 0, [], old(Waiting()));
              && (ok ==> Refining() && coder.items == old(coder.items) + s.items && Waiting() == s.pending)
              && (!ok ==> !coder.gatherStatistics && !Sendable(coder.Tables(), old(coder.items) + s.items))
    {
      hide HuffmanEncoder.Valid, Mag, LastNew, RefineItems, EndOfBand, FlushItems, CannotSend;
      PendingStaysValid(p, z, p.ss, 0, [], Waiting());
      ghost var target := Before(coder.items, RefineItems(p, z, p.ss, 0, [], Waiting()));
      var absvalues, eob := Prepare(z);
      ghost var mags := absvalues[..];
      var r: nat, br: nat, start: nat := 0, 0, be;
      assert bitBuffer[start..start] == [];
      for k := p.ss to p.se + 1
        invariant Going(z, k, r, br, start) && absvalues[..] == mags
        invariant coder.Kept()
        invariant HeadsFor(target, RefineItems(p, z, k, r, bitBuffer[start..start + br], Waiting()))
      {
        var temp := absvalues[k];
        assert temp == mags[k] == Mag(z, p, k);
        ok, r, br, start := RefineAt(z, k, r, br, start, eob, temp, target);
        if !ok {
          CannotMeans(target.items);
          return;
        }
      }
      ok := FinishBand(z, r, br, start, target);
      if !ok { CannotMeans(target.items); }
    }

    lemma CannotMeans(items: seq<Item>)
      requires CannotSend(items)
      ensures !coder.gatherStatistics && !Sendable(coder.Tables(), items)
    {
    }

    /** One coefficient. */
    method RefineAt(z: Block, k: nat, r0: nat, br0: nat, start0: nat, eob: nat, temp: nat, ghost target: Sent)
      returns (ok: bool, r: nat, br: nat, start: nat)
      requires Going(z, k, r0, br0, start0) && k <= p.se && temp == Mag(z, p, k) && eob == LastNew(z, p, p.se)
      requires HeadsFor(target, RefineItems(p, z, k, r0, bitBuffer[start0..start0 + br0], Waiting()))
      modifies this`eobrun, this`be, coder, coder.counts, coder.writer, bitBuffer
      ensures coder.Valid() && coder.Kept()
      ensures ok ==> Going(z, k + 1, r, br, start)
      ensures ok ==> HeadsFor(target, RefineItems(p, z, k + 1, r, bitBuffer[start..start + br], Waiting()))
      ensures !ok ==> CannotSend(target.items)
    {
      hide HuffmanEncoder.Valid, Mag, LastNew, RefineItems, EndOfBand, FlushItems, CannotSend;
      ok, r, br, start := true, r0, br0, start0;
      if temp == 0 {
        ZeroNext(z, k, r, bitBuffer[start..start + br], Waiting());
        r := r + 1;
        return;
      }
      ok, r, br, start := EmitZrls(z, k, r, br, start, eob, target);
      if !ok { return; }
      if temp > 1 {
        AppendBit(z, k, r, br, start, temp, target);
        br := br + 1;
        return;
      }
      ok := EmitNew(z, k, r, br, start, target);
      br, start, r := 0, 0, 0;
    }

    /** Where the loop stands: the bits of this block lie behind those that wait. */
    ghost predicate Going(z: Block, k: nat, r: nat, br: nat, start: nat)
      reads this, coder, coder.counts, coder.writer, bitBuffer
    {
      && Refining() && p.ss <= k <= p.se + 1 && start == be && br <= k - p.ss
    }

    lemma ZeroNext(z: Block, k: nat, r: nat, br: seq<bool>, e: Pending)
      requires ValidBand(p) && p.ss <= k <= p.se && Mag(z, p, k) == 0
      ensures RefineItems(p, z, k, r, br, e) == RefineItems(p, z, k + 1, r + 1, br, e)
    {
    }

    /** Any required ZRLs, unless they can be folded into the end of the band. */
    method EmitZrls(z: Block, k: nat, r0: nat, br0: nat, start0: nat, eob: nat, ghost target: Sent)
      returns (ok: bool, r: nat, br: nat, start: nat)
      requires Going(z, k, r0, br0, start0) && k <= p.se && Mag(z, p, k) != 0 && eob == LastNew(z, p, p.se)
      requires HeadsFor(target, RefineItems(p, z, k, r0, bitBuffer[start0..start0 + br0], Waiting()))
      modifies this`eobrun, this`be, coder, coder.counts, coder.writer
      ensures coder.Valid() && coder.Kept()
      ensures ok ==> Going(z, k, r, br, start) && !(r > 15 && k <= eob)
      ensures ok ==> HeadsFor(target, RefineItems(p, z, k, r, bitBuffer[start..start + br], Waiting()))
      ensures !ok ==> CannotSend(target.items)
    {
      hide HuffmanEncoder.Valid, Mag, LastNew, RefineItems;
      r, br, start := r0, br0, start0;
      while r > 15 && k <= eob
        invariant Going(z, k, r, br, start) && coder.Kept()
        invariant HeadsFor(target, RefineItems(p, z, k, r, bitBuffer[start..start + br], Waiting()))
        decreases r
      {
        ok := EmitZrl(z, k, r, br, start, target);
        if !ok { return; }
        r := r - 16;
        br, start := 0, 0;
      }
      ok := true;
    }

    method EmitZrl(z: Block, k: nat, r: nat, br: nat, start: nat, ghost target: Sent) returns (ok: bool)
      requires Going(z, k, r, br, start) && k <= p.se && Mag(z, p, k) != 0 && r > 15 && k <= LastNew(z, p, p.se)
      requires HeadsFor(target, RefineItems(p, z, k, r, bitBuffer[start..start + br], Waiting()))
      modifies this`eobrun, this`be, coder, coder.counts, coder.writer
      ensures coder.Valid() && coder.Kept()
      ensures ok ==> Going(z, k, r - 16, 0, 0) && HeadsFor(target, RefineItems(p, z, k, r - 16, bitBuffer[0..0], Waiting()))
      ensures !ok ==> CannotSend(target.items)
    {
      hide HuffmanEncoder.Valid, Mag, LastNew, RefineItems, FlushItems;
      ghost var before, e, bits := coder.items, Waiting(), bitBuffer[start..start + br];
      ghost var rest := RefineItems(p, z, k, r - 16, [], NONE);
      ZrlNext(z, k, r, bits, e);
      ok := FlushThen(ZRL, [], start, br, target, rest);
    }

    /** Flush what is pending, send a symbol and perhaps a sign, and then the bits of this block that go with it. */
    method FlushThen(sym: nat, sign: seq<bool>, start: nat, br: nat, ghost target: Sent, ghost rest: Sent)
      returns (ok: bool)
      requires Buffered() && coder.Valid() && ValidPending(Waiting()) && sym < 256 && |sign| <= 1
      requires start + br <= bitBuffer.Length
      requires HeadsFor(target,
                        Before(FlushItems(p.tbl, Waiting())
                               + ([Sym(p.tbl, sym)] + (BitItems(sign) + BitItems(bitBuffer[start..start + br]))), rest))
      modifies this`eobrun, this`be, coder, coder.counts, coder.writer
      ensures coder.Valid() && coder.Kept() && Buffered()
      ensures ok ==> Waiting() == NONE && HeadsFor(target, rest)
      ensures !ok ==> CannotSend(target.items)
    {
      hide HuffmanEncoder.Valid, FlushItems, CannotSend, ValidPending;
      ghost var before, flush := coder.items, FlushItems(p.tbl, Waiting());
      ghost var bits := BitItems(bitBuffer[start..start + br]);
      ghost var tail := [Sym(p.tbl, sym)] + (BitItems(sign) + bits);
      PendingMeans();
      ok := EmitEobrun();
      if !ok {
        PartCannotBeSent(before, flush, tail + rest.items);
        AllParts(before, flush, tail, rest.items);
        return;
      }
      ok := EmitSymbol(sym);
      if !ok {
        PartCannotBeSent(before + flush, [Sym(p.tbl, sym)], (BitItems(sign) + bits) + rest.items);
        AllParts(before, flush, tail, rest.items);
        SymbolParts(before + flush, [Sym(p.tbl, sym)], BitItems(sign) + bits, rest.items);
        return;
      }
      if |sign| > 0 {
        coder.EmitRaw(if sign[0] then 1 else 0, 1);
        assert BitItems(sign) == [BitItem(sign[0])];
      }
      EmitBufferedBits(start, br);
      SentInOrder(before, flush, [Sym(p.tbl, sym)], BitItems(sign), bits, rest.items);
    }

    lemma PendingMeans()
      requires Buffered() && ValidPending(Waiting())
      ensures eobrun < 0x7FFF && (be > 0 ==> eobrun > 0)
    {
      assert |Waiting().bits| == be;
    }

    static lemma AllParts(a: seq<Item>, b: seq<Item>, c: seq<Item>, d: seq<Item>)
      ensures a + ((b + c) + d) == a + (b + (c + d)) == (a + b) + (c + d)
    {
    }

    static lemma SymbolParts(a: seq<Item>, b: seq<Item>, c: seq<Item>, d: seq<Item>)
      ensures a + ((b + c) + d) == a + (b + (c + d))
    {
    }

    static lemma SentInOrder(a: seq<Item>, b: seq<Item>, c: seq<Item>, d: seq<Item>, e: seq<Item>, rest: seq<Item>)
      ensures (a + b + c + d + e) + rest == a + ((b + (c + (d + e))) + rest)
      ensures d == [] ==> (a + b + c + e) + rest == a + ((b + (c + (d + e))) + rest)
    {
    }

    lemma ZrlNext(z: Block, k: nat, r: nat, br: seq<bool>, e: Pending)
      requires ValidBand(p) && p.ss <= k <= p.se && Mag(z, p, k) != 0 && r > 15 && k <= LastNew(z, p, p.se)
      ensures RefineItems(p, z, k, r, br, e)
           == Before(FlushItems(p.tbl, e) + ([Sym(p.tbl, ZRL)] + (BitItems([]) + BitItems(br))),
                     RefineItems(p, z, k, r - 16, [], NONE))
    {
      assert BitItems([]) + BitItems(br) == BitItems(br);
    }

    lemma NewNext(z: Block, k: nat, r: nat, br: seq<bool>, e: Pending)
      requires ValidBand(p) && p.ss <= k <= p.se && Mag(z, p, k) == 1 && !(r > 15 && k <= LastNew(z, p, p.se))
      ensures r <= 15
      ensures RefineItems(p, z, k, r, br, e)
           == Before(FlushItems(p.tbl, e) + ([Sym(p.tbl, 16 * r + 1)] + (BitItems([z[k] >= 0]) + BitItems(br))),
                     RefineItems(p, z, k + 1, 0, [], NONE))
    {
      assert BitItems([z[k] >= 0]) == [BitItem(z[k] >= 0)];
    }

    /** The next bit of a coefficient that was nonzero before. */
    method AppendBit(z: Block, k: nat, r: nat, br: nat, start: nat, temp: nat, ghost target: Sent)
      requires Going(z, k, r, br, start) && k <= p.se && temp == Mag(z, p, k) > 1 && !(r > 15 && k <= LastNew(z, p, p.se))
      requires HeadsFor(target, RefineItems(p, z, k, r, bitBuffer[start..start + br], Waiting()))
      modifies bitBuffer
      ensures Going(z, k + 1, r, br + 1, start)
      ensures HeadsFor(target, RefineItems(p, z, k + 1, r, bitBuffer[start..start + br + 1], Waiting()))
    {
      hide HuffmanEncoder.Valid, Mag, LastNew;
      PendingStaysValid(p, z, k, r, bitBuffer[start..start + br], Waiting());
      ghost var bits, e := bitBuffer[start..start + br], Waiting();
      assert RefineItems(p, z, k, r, bits, e) == RefineItems(p, z, k + 1, r, bits + [temp % 2 == 1], e);
      assert start + br < bitBuffer.Length;
      bitBuffer[start + br] := temp % 2 == 1;
      assert bitBuffer[start..start + br + 1] == bits + [temp % 2 == 1];
      assert bitBuffer[..be] == e.bits;
    }

    method EmitNew(z: Block, k: nat, r: nat, br: nat, start: nat, ghost target: Sent) returns (ok: bool)
      requires Going(z, k, r, br, start) && k <= p.se && Mag(z, p, k) == 1 && !(r > 15 && k <= LastNew(z, p, p.se))
      requires HeadsFor(target, RefineItems(p, z, k, r, bitBuffer[start..start + br], Waiting()))
      modifies this`eobrun, this`be, coder, coder.counts, coder.writer
      ensures coder.Valid() && coder.Kept()
      ensures ok ==> Going(z, k + 1, 0, 0, 0) && HeadsFor(target, RefineItems(p, z, k + 1, 0, bitBuffer[0..0], Waiting()))
      ensures !ok ==> CannotSend(target.items)
    {
      hide HuffmanEncoder.Valid, Mag, LastNew, RefineItems, FlushItems;
      ghost var rest := RefineItems(p, z, k + 1, 0, [], NONE);
      NewNext(z, k, r, bitBuffer[start..start + br], Waiting());
      ok := FlushThen(16 * r + 1, [z[k] >= 0], start, br, target, rest);
    }

    /** Count an end of band, and force the run out if the counter or the buffer could overflow. */
    method FinishBand(z: Block, r: nat, br: nat, start: nat, ghost target: Sent) returns (ok: bool)
      requires Going(z, p.se + 1, r, br, start)
      requires HeadsFor(target, RefineItems(p, z, p.se + 1, r, bitBuffer[start..start + br], Waiting()))
      modifies this`eobrun, this`be, coder, coder.counts, coder.writer
      ensures coder.Valid() && coder.Kept()
      ensures ok ==> Refining() && coder.items == target.items && Waiting() == target.pending
      ensures !ok ==> CannotSend(target.items)
    {
      hide HuffmanEncoder.Valid, FlushItems;
      PendingStaysValid(p, z, p.se + 1, r, bitBuffer[start..start + br], Waiting());
      ghost var before, e, bits := coder.items, Waiting(), bitBuffer[start..start + br];
      assert RefineItems(p, z, p.se + 1, r, bits, e) == EndOfBand(p, r, bits, e);
      assert before + [] == before;
      ok := true;
      if r > 0 || br > 0 {
        eobrun := eobrun + 1;
        be := be + br;
        assert Waiting() == Pending(e.run + 1, e.bits + bits);
        if eobrun == 0x7FFF || be > MAX_CORR_BITS - 64 + 1 {
          ok := EmitEobrun();
          if !ok { PartCannotBeSent(before, FlushItems(p.tbl, Pending(e.run + 1, e.bits + bits)), []); }
        }
      }
    }

    // -------------------------------------------------------------- first scan

    ghost predicate Running()
      reads this, coder, coder.counts, coder.writer, bitBuffer
    {
      Buffered() && coder.Valid() && First.ValidRun(Waiting())
    }

    /** One block of the first scan of the band. False: a coefficient out of range, or a symbol without a code. */
    method EncodeMcuFirst(z: Block) returns (ok: bool)
      requires Running()
      modifies this`eobrun, this`be, coder, coder.counts, coder.writer
      ensures coder.Valid() && coder.Kept()
      ensures var s := First.FirstItems(p, z, p.ss, 0, old(Waiting()));
              && (ok ==> Running() && First.CodableBand(p, z)
                         && coder.items == old(coder.items) + s.items && Waiting() == s.pending)
              && (!ok ==> !First.CodableBand(p, z) || CannotSend(old(coder.items) + s.items))
    {
      hide HuffmanEncoder.Valid, Truncated, First.FirstItems, EndOfBand, FlushItems, NumBits;
      ghost var target := Before(coder.items, First.FirstItems(p, z, p.ss, 0, Waiting()));
      var r: nat := 0;
      for k := p.ss to p.se + 1
        invariant Running() && coder.Kept()
        invariant forall j :: p.ss <= j < k ==> NumBits(Mag(z, p, j)) <= MAX_COEF_BITS
        invariant HeadsFor(target, First.FirstItems(p, z, k, r, Waiting()))
      {
        var v := Truncated(z[k], p.al);
        if v == 0 {
          FirstZero(z, k, r, Waiting());
          r := r + 1;
          continue;
        }
        ok := EmitCoefficient(z, k, r, v, target);
        if !ok { return; }
        r := 0;
      }
      ok := FinishFirst(z, r, target);
    }

    lemma FirstZero(z: Block, k: nat, r: nat, e: Pending)
      requires ValidBand(p) && p.ss <= k <= p.se && Truncated(z[k], p.al) == 0
      ensures First.FirstItems(p, z, k, r, e) == First.FirstItems(p, z, k + 1, r + 1, e)
      ensures NumBits(Mag(z, p, k)) == 0
    {
    }

    method EmitCoefficient(z: Block, k: nat, r0: nat, v: int, ghost target: Sent) returns (ok: bool)
      requires Running() && p.ss <= k <= p.se && v == Truncated(z[k], p.al) != 0
      requires HeadsFor(target, First.FirstItems(p, z, k, r0, Waiting()))
      modifies this`eobrun, this`be, coder, coder.counts, coder.writer
      ensures coder.Valid() && coder.Kept()
      ensures ok ==> Running() && HeadsFor(target, First.FirstItems(p, z, k + 1, 0, Waiting()))
      ensures ok ==> NumBits(Mag(z, p, k)) <= MAX_COEF_BITS
      ensures !ok ==> NumBits(Mag(z, p, k)) > MAX_COEF_BITS || CannotSend(target.items)
    {
      hide HuffmanEncoder.Valid, Truncated, First.FirstItems, FlushItems, NumBits, CannotSend, ValueBits;
      var r: nat := r0;
      if eobrun > 0 {
        ok := FlushRun(z, k, r, target);
        if !ok { return; }
      }
      while r > 15
        invariant Running() && eobrun == 0 && coder.Kept()
        invariant HeadsFor(target, First.FirstItems(p, z, k, r, Waiting()))
      {
        RunOfSixteen(z, k, r, Waiting());
        ok := SendSymbol(ZRL, target, First.FirstItems(p, z, k, r - 16, NONE));
        if !ok { return; }
        r := r - 16;
      }
      var nbits := coder.CountBits(Abs(v));
      if nbits > MAX_COEF_BITS { return false; }
      CoefficientNext(z, k, r, Waiting());
      ghost var rest := First.FirstItems(p, z, k + 1, 0, NONE);
      ok := SendSymbol(16 * r + nbits, target, Before([ValueItem(v)], rest));
      if !ok { return; }
      ValueSizes(v, nbits);
      coder.EmitRaw(ValueBits(v, nbits), nbits);
      ItemThenRest(coder.items, ValueItem(v), rest.items);
    }

    lemma ValueSizes(v: int, nbits: nat)
      requires v != 0 && nbits == NumBits(Abs(v)) <= MAX_COEF_BITS
      ensures 1 <= nbits <= 16 && Abs(v) < Pow2(nbits) && ValueItem(v) == Raw(ValueBits(v, nbits), nbits)
    {
      NumBitsFacts(Abs(v));
    }

    static lemma ItemThenRest(before: seq<Item>, item: Item, rest: seq<Item>)
      requires before != [] && before[|before| - 1] == item
      ensures before[..|before| - 1] + ([item] + rest) == before + rest
      ensures before[..|before| - 1] + [item] == before
    {
    }

    method FlushRun(z: Block, k: nat, r: nat, ghost target: Sent) returns (ok: bool)
      requires Running() && p.ss <= k <= p.se && Truncated(z[k], p.al) != 0 && eobrun > 0
      requires HeadsFor(target, First.FirstItems(p, z, k, r, Waiting()))
      modifies this`eobrun, this`be, coder, coder.counts, coder.writer
      ensures coder.Valid() && coder.Kept()
      ensures ok ==> Running() && eobrun == 0 && HeadsFor(target, First.FirstItems(p, z, k, r, Waiting()))
      ensures !ok ==> CannotSend(target.items)
    {
      hide HuffmanEncoder.Valid, Truncated, FlushItems, NumBits, CannotSend;
      ghost var before, e := coder.items, Waiting();
      assert |e.bits| == be;
      ghost var rest := First.FirstItems(p, z, k, r, NONE);
      assert First.FirstItems(p, z, k, r, e) == Before(FlushItems(p.tbl, e), rest);
      hide First.FirstItems;
      ok := EmitEobrun();
      if !ok { PartCannotBeSent(before, FlushItems(p.tbl, e), rest.items); }
      Assoc(before, FlushItems(p.tbl, e), rest.items);
    }

    /** A symbol in front of what is still to come. */
    method SendSymbol(sym: nat, ghost target: Sent, ghost rest: Sent) returns (ok: bool)
      requires Running() && sym < 256 && HeadsFor(target, Before([Sym(p.tbl, sym)], rest))
      modifies coder, coder.counts, coder.writer
      ensures coder.Valid() && coder.Kept()
      ensures ok ==> Running() && HeadsFor(target, rest)
      ensures !ok ==> CannotSend(target.items)
    {
      hide HuffmanEncoder.Valid, CannotSend;
      ghost var before := coder.items;
      ok := EmitSymbol(sym);
      if !ok { PartCannotBeSent(before, [Sym(p.tbl, sym)], rest.items); }
      Assoc(before, [Sym(p.tbl, sym)], rest.items);
    }

    lemma RunOfSixteen(z: Block, k: nat, r: nat, e: Pending)
      requires ValidBand(p) && p.ss <= k <= p.se && Truncated(z[k], p.al) != 0 && e == NONE && r > 15
      ensures First.FirstItems(p, z, k, r, e) == Before([Sym(p.tbl, ZRL)], First.FirstItems(p, z, k, r - 16, NONE))
    {
    }

    lemma CoefficientNext(z: Block, k: nat, r: nat, e: Pending)
      requires ValidBand(p) && p.ss <= k <= p.se && Truncated(z[k], p.al) != 0 && e == NONE && r <= 15
      ensures var v := Truncated(z[k], p.al);
              First.FirstItems(p, z, k, r, e)
              == Before([Sym(p.tbl, 16 * r + NumBits(Abs(v)))], Before([ValueItem(v)], First.FirstItems(p, z, k + 1, 0, NONE)))
    {
      var v := Truncated(z[k], p.al);
      Assoc([Sym(p.tbl, 16 * r + NumBits(Abs(v)))], [ValueItem(v)], First.FirstItems(p, z, k + 1, 0, NONE).items);
    }

    method FinishFirst(z: Block, r: nat, ghost target: Sent) returns (ok: bool)
      requires Running() && HeadsFor(target, First.FirstItems(p, z, p.se + 1, r, Waiting()))
      modifies this`eobrun, this`be, coder, coder.counts, coder.writer
      ensures coder.Valid() && coder.Kept()
      ensures ok ==> Running() && coder.items == target.items && Waiting() == target.pending
      ensures !ok ==> CannotSend(target.items)
    {
      hide HuffmanEncoder.Valid, FlushItems, CannotSend;
      ghost var before, e := coder.items, Waiting();
      assert |e.bits| == be;
      assert First.FirstItems(p, z, p.se + 1, r, e) == EndOfBand(p, r, [], e);
      hide First.FirstItems;
      assert before + [] == before && e.bits + [] == e.bits;
      ok := true;
      if r > 0 {
        eobrun := eobrun + 1;
        if eobrun == 0x7FFF {
          assert Waiting() == Pending(e.run + 1, e.bits);
          ok := EmitEobrun();
          if !ok { PartCannotBeSent(before, FlushItems(p.tbl, Pending(e.run + 1, e.bits)), []); }
        }
      }
    }

    // -------------------------------------------------------------- MCUs and restarts

    /** What stops the compression: with these MCUs a coefficient is out of range, or there is a symbol without a code. */
    ghost predicate Stops(all: seq<seq<Block>>)
      requires ValidAcScan(Scan())
    {
      var parts := Intervals(all, restartInterval);
      !CodableParts(Scan(), parts) || (!coder.gatherStatistics && !AllSendable(coder.Tables(), LogItems(Scan(), parts)))
    }

    /** The block is coded in the way of the scan. */
    method EncodeBlock(z: Block) returns (ok: bool)
      requires Ready()
      modifies this`eobrun, this`be, coder, coder.counts, coder.writer, bitBuffer
      ensures coder.Valid() && coder.Kept()
      ensures var s := BlockSent(Scan(), z, old(Waiting()));
              && (ok ==> Ready() && CodableBlock(Scan(), z) && coder.items == old(coder.items) + s.items && Waiting() == s.pending)
              && (!ok ==> !CodableBlock(Scan(), z) || CannotSend(old(coder.items) + s.items))
    {
      hide HuffmanEncoder.Valid, RefineItems, First.FirstItems, First.CodableBand;
      if first {
        ok := EncodeMcuFirst(z);
      } else {
        ok := EncodeMcuRefine(z);
      }
    }

    /** encode_mcu_AC_first, encode_mcu_AC_refine. */
    method EncodeMcu(z: Block) returns (ok: bool)
      requires Valid()
      modifies this, coder, coder.counts, coder.writer, bitBuffer
      ensures ok ==> Valid() && mcus == old(mcus) + [[z]]
      ensures !ok ==> Stops(old(mcus) + [[z]])
    {
      hide HuffmanEncoder.Valid, CannotSend, SentBy, BlockSent, ToGo, NextRestart, Intervals, CodableBlock, CodableParts, FlushItems,
           SegmentItems;
      ghost var parts, due := Intervals(mcus, restartInterval), RestartBefore(|mcus|, restartInterval);
      OneMcuMore(mcus, [z], restartInterval);
      ok := StartMcu(parts, due);
      if !ok {
        IntervalStops(parts, [z]);
        return;
      }
      ghost var segments, items, e := coder.segments, coder.items, Waiting();
      ok := EncodeBlock(z);
      if !ok {
        PartStops(parts, z, due, items, e);
        return;
      }
      if restartInterval != 0 {
        CounterStep(|mcus|, restartInterval);
        if restartsToGo == 0 {
          restartsToGo := restartInterval;
          nextRestartNum := (nextRestartNum + 1) % 8;
        }
        restartsToGo := restartsToGo - 1;
      }
      PartIsLogged(parts, z, due, segments, items, e);
      mcus := mcus + [[z]];
    }

    /** Emit a restart marker if one is due. */
    method StartMcu(ghost parts: seq<seq<Block>>, ghost due: bool) returns (ok: bool)
      requires Valid() && parts == Intervals(mcus, restartInterval) && due == RestartBefore(|mcus|, restartInterval)
      modifies this`eobrun, this`be, coder, coder.counts, coder.writer
      ensures ok ==> Ready() && Continues(parts, due, coder.items, Waiting())
      ensures ok ==> coder.segments == SegmentItems(Scan(), if due then parts else parts[..|parts| - 1])
      ensures ok && !coder.gatherStatistics ==>
                NextRestart(0, |coder.segments|) == if due then (nextRestartNum + 1) % 8 else nextRestartNum
      ensures !ok ==> due && ValidAcScan(Scan()) && parts != [] && CannotSend(IntervalItems(Scan(), parts[|parts| - 1]))
    {
      hide HuffmanEncoder.Valid, CannotSend, SentBy, ToGo, NextRestart, Intervals, CodableBlock, FlushItems;
      LogParts(parts);
      ok := true;
      if restartInterval != 0 && restartsToGo == 0 {
        MarkerStep(|coder.segments|);
        ok := Restart();
        assert ok ==> SegmentItems(Scan(), parts) == SegmentItems(Scan(), parts[..|parts| - 1]) + [IntervalItems(Scan(), parts[|parts| - 1])];
      }
    }

    static lemma CounterStep(k: nat, interval: nat)
      requires interval > 0
      ensures ToGo(k + 1, interval) == (if ToGo(k, interval) == 0 then interval else ToGo(k, interval)) - 1
    {
    }

    static lemma MarkerStep(n: nat)
      ensures NextRestart(0, n + 1) == (NextRestart(0, n) + 1) % 8
    {
    }

    /** What the current segment is. */
    lemma LogParts(parts: seq<seq<Block>>)
      requires Buffered() && IsLogOf(parts)
      ensures var last := |parts| - 1;
              && coder.items == SentBy(Scan(), parts[last]).items && Waiting() == SentBy(Scan(), parts[last]).pending
              && coder.segments == SegmentItems(Scan(), parts[..last]) && |coder.segments| == last
    {
      hide SentBy, IntervalItems, CodableBlock;
      var last := |parts| - 1;
      var log, all := coder.segments + [coder.items], LogItems(Scan(), parts);
      assert log[..last] == coder.segments && all[..last] == SegmentItems(Scan(), parts[..last]);
    }

    /** emit_restart_e. What is pending goes out with the interval that ends. */
    method Restart() returns (ok: bool)
      requires Ready() && nextRestartNum < 8
      requires !coder.gatherStatistics ==> nextRestartNum == NextRestart(0, |coder.segments|)
      modifies this`eobrun, this`be, coder, coder.counts, coder.writer
      ensures ok ==> Ready() && Waiting() == NONE && coder.items == []
      ensures ok ==> coder.segments == old(coder.segments) + [old(coder.items) + FlushItems(p.tbl, old(Waiting()))]
      ensures !ok ==> CannotSend(old(coder.items) + FlushItems(p.tbl, old(Waiting())))
    {
      hide HuffmanEncoder.Valid, FlushItems, CannotSend;
      ok := Flush();
      if !ok { return; }
      coder.EmitRestart(nextRestartNum);
      eobrun, be := 0, 0;
      assert bitBuffer[..0] == [];
    }

    /** What is pending goes out. */
    method Flush() returns (ok: bool)
      requires Ready()
      modifies this`eobrun, this`be, coder, coder.counts, coder.writer
      ensures coder.Valid() && coder.Kept()
      ensures ok ==> Ready() && Waiting() == NONE && coder.items == old(coder.items) + FlushItems(p.tbl, old(Waiting()))
      ensures !ok ==> CannotSend(old(coder.items) + FlushItems(p.tbl, old(Waiting())))
    {
      hide HuffmanEncoder.Valid, FlushItems, CannotSend;
      PendingMeans();
      ghost var before, e := coder.items, Waiting();
      ok := EmitEobrun();
      if !ok { PartCannotBeSent(before, FlushItems(p.tbl, e), []); }
    }

    /** The current interval, to which the block belongs. */
    ghost predicate Continues(parts: seq<seq<Block>>, due: bool, items: seq<Item>, e: Pending)
      requires ValidAcScan(Scan())
    {
      && parts != [] && CodableParts(Scan(), parts)
      && Sent(items, e) == if due then Sent([], NONE) else SentBy(Scan(), parts[|parts| - 1])
    }

    ghost function Grown(parts: seq<seq<Block>>, z: Block, due: bool): seq<seq<Block>>
      requires parts != []
    {
      var last := |parts| - 1;
      if due then parts + [[z]] else parts[..last] + [parts[last] + [z]]
    }

    lemma JoinedPart(parts: seq<seq<Block>>, z: Block, due: bool, items: seq<Item>, e: Pending)
      requires ValidAcScan(Scan()) && Continues(parts, due, items, e)
      ensures var grown := Grown(parts, z, due);
              var last := |grown| - 1;
              && SentBy(Scan(), grown[last]) == Before(items, BlockSent(Scan(), z, e))
              && grown[..last] == (if due then parts else parts[..last])
      ensures CodableParts(Scan(), Grown(parts, z, due)) <==> CodableBlock(Scan(), z)
    {
      hide SentBy, BlockSent, CodableBlock;
      var grown := Grown(parts, z, due);
      var last := |grown| - 1;
      var part := if due then [] else parts[last];
      assert grown[last] == part + [z];
      SentByMore(Scan(), part, z);
      NothingYet();
      assert forall i :: 0 <= i < last ==> grown[i] == parts[i];
      assert forall i :: 0 <= i < |part| ==> grown[last][i] == part[i];
      assert grown[last][|part|] == z;
    }

    lemma NothingYet()
      requires ValidAcScan(Scan())
      ensures SentBy(Scan(), []) == Sent([], NONE)
    {
    }

    lemma PartStops(parts: seq<seq<Block>>, z: Block, due: bool, items: seq<Item>, e: Pending)
      requires ValidAcScan(Scan()) && Continues(parts, due, items, e)
      requires !CodableBlock(Scan(), z) || CannotSend(items + BlockSent(Scan(), z, e).items)
      ensures var grown := Grown(parts, z, due);
              !CodableParts(Scan(), grown)
              || (!coder.gatherStatistics && !AllSendable(coder.Tables(), LogItems(Scan(), grown)))
    {
      hide SentBy, BlockSent, CodableBlock, Sendable, CodableParts;
      JoinedPart(parts, z, due, items, e);
      var grown := Grown(parts, z, due);
      assert LogItems(Scan(), grown)[|grown| - 1] == items + BlockSent(Scan(), z, e).items;
    }

    /** The end of the interval could not be sent. */
    lemma IntervalStops(parts: seq<seq<Block>>, mcu: seq<Block>)
      requires ValidAcScan(Scan()) && parts != [] && CannotSend(IntervalItems(Scan(), parts[|parts| - 1]))
      ensures !coder.gatherStatistics && !AllSendable(coder.Tables(), LogItems(Scan(), parts + [mcu]))
    {
      hide SentBy, Sendable, IntervalItems;
      assert LogItems(Scan(), parts + [mcu])[|parts| - 1] == IntervalItems(Scan(), parts[|parts| - 1]);
    }

    lemma PartIsLogged(parts: seq<seq<Block>>, z: Block, due: bool, segments: seq<seq<Item>>, items: seq<Item>, e: Pending)
      requires Buffered() && Continues(parts, due, items, e) && CodableBlock(Scan(), z)
      requires segments == SegmentItems(Scan(), if due then parts else parts[..|parts| - 1])
      requires var s := BlockSent(Scan(), z, e);
               coder.segments == segments && coder.items == items + s.items && Waiting() == s.pending
      ensures IsLogOf(Grown(parts, z, due))
    {
      hide SentBy, BlockSent, CodableBlock, CodableParts, SegmentItems;
      JoinedPart(parts, z, due, items, e);
    }

    // -------------------------------------------------------------- whole passes

    /** The blocks of a whole scan. */
    method EncodeAll(zs: seq<Block>) returns (ok: bool)
      requires Valid() && mcus == []
      modifies this, coder, coder.counts, coder.writer, bitBuffer
      ensures ok ==> Valid() && mcus == OneBlockMcus(zs)
      ensures !ok ==> Stops(OneBlockMcus(zs))
    {
      hide HuffmanEncoder.Valid, IsLogOf, Stops, Intervals, ToGo, NextRestart;
      assert OneBlockMcus(zs)[..0] == [];
      for i := 0 to |zs|
        invariant Valid() && mcus == OneBlockMcus(zs)[..i]
      {
        assert OneBlockMcus(zs)[..i + 1] == OneBlockMcus(zs)[..i] + [[zs[i]]];
        ok := EncodeMcu(zs[i]);
        if !ok {
          StopsForGood(zs, i + 1);
          return;
        }
      }
      assert OneBlockMcus(zs)[..|zs|] == OneBlockMcus(zs);
      ok := true;
    }

    lemma {:induction false} StopsForGood(zs: seq<Block>, n: nat)
      requires ValidAcScan(Scan()) && n <= |zs| && Stops(OneBlockMcus(zs)[..n])
      ensures Stops(OneBlockMcus(zs))
      decreases |zs| - n
    {
      hide Stops;
      if n < |zs| {
        assert OneBlockMcus(zs)[..n + 1] == OneBlockMcus(zs)[..n] + [[zs[n]]];
        StopsStill(OneBlockMcus(zs)[..n], zs[n]);
        StopsForGood(zs, n + 1);
      } else {
        assert OneBlockMcus(zs)[..n] == OneBlockMcus(zs);
      }
    }

    lemma StopsStill(before: seq<seq<Block>>, z: Block)
      requires ValidAcScan(Scan()) && Stops(before)
      ensures Stops(before + [[z]])
    {
      hide SentBy, CodableParts, AllSendable, LogItems, Intervals, ToGo;
      var parts, due := Intervals(before, restartInterval), RestartBefore(|before|, restartInterval);
      OneMcuMore(before, [z], restartInterval);
      assert Grown(parts, z, due) == Intervals(before + [[z]], restartInterval);
      CodableBefore(parts, z, due);
      SendableBefore(parts, z, due);
    }

    lemma CodableBefore(parts: seq<seq<Block>>, z: Block, due: bool)
      requires ValidAcScan(Scan()) && parts != []
      ensures CodableParts(Scan(), Grown(parts, z, due)) ==> CodableParts(Scan(), parts)
    {
      hide CodableBlock;
      var grown := Grown(parts, z, due);
      if CodableParts(Scan(), grown) {
        forall i, j | 0 <= i < |parts| && 0 <= j < |parts[i]| ensures CodableBlock(Scan(), parts[i][j]) {
          assert grown[i][j] == parts[i][j];
        }
      }
    }

    lemma SendableBefore(parts: seq<seq<Block>>, z: Block, due: bool)
      requires ValidAcScan(Scan()) && parts != []
      ensures AllSendable(coder.Tables(), LogItems(Scan(), Grown(parts, z, due))) ==> AllSendable(coder.Tables(), LogItems(Scan(), parts))
    {
      hide SentBy, Sendable, IntervalItems, HuffmanEncoder.Tables;
      var grown, last := Grown(parts, z, due), |parts| - 1;
      if AllSendable(coder.Tables(), LogItems(Scan(), grown)) {
        forall i | 0 <= i < |parts| ensures Sendable(coder.Tables(), LogItems(Scan(), parts)[i]) {
          assert Sendable(coder.Tables(), LogItems(Scan(), grown)[i]);
          if i == last {
            LastIsSendable(parts[last], z, due);
          } else {
            assert grown[i] == parts[i];
          }
        }
      }
    }

    lemma LastIsSendable(part: seq<Block>, z: Block, due: bool)
      requires ValidAcScan(Scan())
      requires Sendable(coder.Tables(), if due then IntervalItems(Scan(), part) else SentBy(Scan(), part + [z]).items)
      ensures Sendable(coder.Tables(), SentBy(Scan(), part).items)
    {
      hide SentBy, BlockSent, FlushItems, Sendable, HuffmanEncoder.Tables;
      var s := SentBy(Scan(), part);
      SentByMore(Scan(), part, z);
      SendableConcat(coder.Tables(), s.items, if due then FlushItems(p.tbl, s.pending) else BlockSent(Scan(), z, s.pending).items);
    }

    /** The end of the pass. In output mode (finish_pass_huff) the bytes of the scan are complete; in gathering mode
        (finish_pass_gather) all that matters is that the last run has been counted. */
    method FinishPass() returns (ok: bool)
      requires Valid()
      modifies this, coder, coder.counts, coder.writer
      ensures var parts := Intervals(mcus, restartInterval);
              && mcus == old(mcus) && CodableParts(Scan(), parts)
              && (!ok ==> !coder.gatherStatistics && !AllSendable(coder.Tables(), SegmentItems(Scan(), parts)))
              && (ok ==> coder.Log() == Flat(SegmentItems(Scan(), parts)))
              && (ok && coder.gatherStatistics ==> coder.Valid())
              && (ok && !coder.gatherStatistics ==>
                    && AllSendable(coder.Tables(), SegmentItems(Scan(), parts))
                    && coder.writer.output == coder.start + ScanBytes(AllBits(coder.Tables(), SegmentItems(Scan(), parts)), 0))
    {
      hide HuffmanEncoder.Valid, SentBy, FlushItems, Sendable, Bits, ScanBytes, Intervals, CodableBlock, CannotSend;
      ghost var parts := Intervals(mcus, restartInterval);
      LogParts(parts);
      ghost var segments := coder.segments;
      ok := Flush();
      LastInterval(parts);
      if !ok { return; }
      assert coder.segments + [coder.items] == SegmentItems(Scan(), parts);
      FlatSnoc(coder.segments, coder.items);
      if !coder.gatherStatistics {
        coder.FinishScan();
      }
    }

    lemma LastInterval(parts: seq<seq<Block>>)
      requires ValidAcScan(Scan()) && parts != []
      ensures var last := |parts| - 1;
              && SegmentItems(Scan(), parts) == SegmentItems(Scan(), parts[..last]) + [IntervalItems(Scan(), parts[last])]
              && (CannotSend(IntervalItems(Scan(), parts[last])) ==>
                    !coder.gatherStatistics && !AllSendable(coder.Tables(), SegmentItems(Scan(), parts)))
    {
      hide IntervalItems, Sendable;
      assert SegmentItems(Scan(), parts)[|parts| - 1] == IntervalItems(Scan(), parts[|parts| - 1]);
    }
  }
}
