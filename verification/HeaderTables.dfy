/** Which tables go into the headers (emit_dqt, emit_dht, emit_dac, write_frame_header and write_scan_header in jcmarker.c):
    those that the components need and that have not been sent, each of them once. */
module HeaderTables {
  import opened Limits
  import opened Wrappers
  import opened EstimationTable
  import opened HeaderFormat
  import opened HeaderSegments
  import opened HeaderProtocol
  import opened HeaderRoundTrip
  import opened StandardHeaders

  // ---------------------------------------------------------------- quantisation tables

  predicate UsesQuant(cs: seq<FrameComp>, i: nat) { exists k :: 0 <= k < |cs| && cs[k].tq == i }

  predicate HasAllQuants(w: Writer, cs: seq<FrameComp>) {
    forall k :: 0 <= k < |cs| ==> cs[k].tq < 4 && cs[k].tq < |w.quant| && w.quant[cs[k].tq].Some?
  }

  /** The tables of all components are there, or nothing is written; afterwards exactly they are marked as sent, besides
      those that were marked before. */
  lemma {:induction false} QuantsSent(im: Image, w: Writer, cs: seq<FrameComp>)
    requires im.Valid() && w.Valid()
    ensures var x := EmitDqts(im, w, cs);
            && (x.Wrote? <==> HasAllQuants(w, cs))
            && (x.Wrote? ==>
                  && x.w == w.(quantSent := x.w.quantSent)
                  && (forall i :: 0 <= i < 4 ==> (x.w.quantSent[i] <==> w.quantSent[i] || UsesQuant(cs, i)))
                  && ((forall k :: 0 <= k < |cs| ==> w.quantSent[cs[k].tq]) ==> x.bytes == []))
    decreases |cs|
  {
    hide DqtBytes, Zigzag, SixteenBits, Sendable;
    if cs != [] {
      var first := EmitDqt(im, w, cs[0].tq);
      assert first.Wrote? <==> cs[0].tq < 4 && w.quant[cs[0].tq].Some?;
      if first.Wrote? {
        QuantsSent(im, first.w, cs[1..]);
        assert HasAllQuants(w, cs) <==> HasAllQuants(first.w, cs[1..]) by { QuantsFront(w, first.w, cs); }
        forall i | 0 <= i < 4 ensures UsesQuant(cs, i) <==> cs[0].tq == i || UsesQuant(cs[1..], i) { UsesFront(cs, i); }
      }
    }
  }

  lemma QuantsFront(w: Writer, w1: Writer, cs: seq<FrameComp>)
    requires cs != [] && w1.quant == w.quant && |w.quant| == 4 && cs[0].tq < 4 && w.quant[cs[0].tq].Some?
    ensures HasAllQuants(w, cs) <==> HasAllQuants(w1, cs[1..])
  {
    if HasAllQuants(w1, cs[1..]) {
      forall k | 0 <= k < |cs| ensures cs[k].tq < 4 && w.quant[cs[k].tq].Some? {
        if k > 0 { assert cs[k] == cs[1..][k - 1]; }
      }
    }
  }

  lemma UsesFront(cs: seq<FrameComp>, i: nat)
    requires cs != []
    ensures UsesQuant(cs, i) <==> cs[0].tq == i || UsesQuant(cs[1..], i)
  {
    if k :| 0 <= k < |cs| && cs[k].tq == i {
      if k > 0 { assert cs[1..][k - 1].tq == i; }
    }
    if k :| 0 <= k < |cs| - 1 && cs[1..][k].tq == i { assert cs[k + 1].tq == i; }
  }

  // ---------------------------------------------------------------- Huffman tables

  /** A DC table is needed where DC differences are coded, an AC table where the band goes beyond DC. */
  predicate DcInUse(sc: ScanSetup, cs: seq<CompInScan>, i: nat) {
    sc.ss == 0 && sc.ah == 0 && exists k :: 0 <= k < |cs| && cs[k].dcTbl == i
  }

  predicate AcInUse(sc: ScanSetup, cs: seq<CompInScan>, i: nat) {
    sc.se > 0 && exists k :: 0 <= k < |cs| && cs[k].acTbl == i
  }

  lemma InUseFront(sc: ScanSetup, cs: seq<CompInScan>, i: nat)
    requires cs != []
    ensures DcInUse(sc, cs, i) <==> (sc.ss == 0 && sc.ah == 0 && cs[0].dcTbl == i) || DcInUse(sc, cs[1..], i)
    ensures AcInUse(sc, cs, i) <==> (sc.se > 0 && cs[0].acTbl == i) || AcInUse(sc, cs[1..], i)
  {
    if k :| 0 <= k < |cs| - 1 && cs[1..][k].dcTbl == i { assert cs[k + 1].dcTbl == i; }
    if k :| 0 <= k < |cs| - 1 && cs[1..][k].acTbl == i { assert cs[k + 1].acTbl == i; }
    if k :| 1 <= k < |cs| && cs[k].dcTbl == i { assert cs[1..][k - 1].dcTbl == i; }
    if k :| 1 <= k < |cs| && cs[k].acTbl == i { assert cs[1..][k - 1].acTbl == i; }
  }

  /** Nothing but the marks changes. */
  predicate OnlyMarks(w: Writer, w1: Writer) {
    w1 == w.(dcSent := w1.dcSent, acSent := w1.acSent) && |w1.dcSent| == |w.dcSent| && |w1.acSent| == |w.acSent|
  }

  /** The tables of one component. */
  lemma TablesOfOne(w: Writer, sc: ScanSetup, c: CompInScan)
    requires w.Valid()
    ensures var x := EmitTables(w, sc, c);
            && (x.Wrote? <==> && (sc.ss == 0 && sc.ah == 0 ==> c.dcTbl < 4 && w.dcHuff[c.dcTbl].Some?)
                              && (sc.se > 0 ==> c.acTbl < 4 && w.acHuff[c.acTbl].Some?))
            && (x.Wrote? ==>
                  && OnlyMarks(w, x.w)
                  && (forall i :: 0 <= i < 4 ==>
                        (x.w.dcSent[i] <==> w.dcSent[i] || (sc.ss == 0 && sc.ah == 0 && c.dcTbl == i)))
                  && (forall i :: 0 <= i < 4 ==> (x.w.acSent[i] <==> w.acSent[i] || (sc.se > 0 && c.acTbl == i))))
  {
    hide DhtBytes, Sendable, SixteenBits;
  }

  /** After the tables of a scan, exactly those in use are marked as sent, besides those that were before. */
  lemma {:induction false} MarksAfterTables(w: Writer, sc: ScanSetup, cs: seq<CompInScan>)
    requires w.Valid()
    ensures var x := EmitAllTables(w, sc, cs);
            x.Wrote? ==>
              && OnlyMarks(w, x.w)
              && (forall i :: 0 <= i < 4 ==> (x.w.dcSent[i] <==> w.dcSent[i] || DcInUse(sc, cs, i)))
              && (forall i :: 0 <= i < 4 ==> (x.w.acSent[i] <==> w.acSent[i] || AcInUse(sc, cs, i)))
    decreases |cs|
  {
    hide EmitTables, Sendable, SixteenBits, DcInUse, AcInUse;
    assert |w.dcSent| == |w.acSent| == 4;
    if cs != [] {
      TablesOfOne(w, sc, cs[0]);
      forall i: nat | i < 4 { InUseFront(sc, cs, i); }
      var x := EmitTables(w, sc, cs[0]);
      if x.Wrote? { MarksAfterTables(x.w, sc, cs[1..]); }
    } else {
      forall i: nat | i < 4 ensures !DcInUse(sc, [], i) && !AcInUse(sc, [], i) { NothingInUse(sc, i); }
    }
  }

  lemma NothingInUse(sc: ScanSetup, i: nat)
    ensures !DcInUse(sc, [], i) && !AcInUse(sc, [], i)
  {
  }

  // ---------------------------------------------------------------- conditioning

  /** The conditioning of exactly the tables in use is sent, with the writer's values. */
  lemma {:induction false} CondsSent(w: Writer, sc: ScanSetup, n: nat, d: DacDef)
    requires w.Valid() && n <= 16
    ensures d in Conds(w, sc, n) <==>
              && d.index < n
              && if d.DcCond? then DcInUse(sc, sc.comps, d.index) && d.l == w.dcL[d.index] && d.u == w.dcU[d.index]
                 else AcInUse(sc, sc.comps, d.index) && d.k == w.acK[d.index]
  {
    hide SixteenBits, Sendable;
    if n > 0 {
      CondsSent(w, sc, n - 1, d);
      assert UsesDc(sc, n - 1) <==> DcInUse(sc, sc.comps, n - 1);
      assert UsesAc(sc, n - 1) <==> AcInUse(sc, sc.comps, n - 1);
      hide UsesDc, UsesAc, DcInUse, AcInUse;
    }
  }

  // ---------------------------------------------------------------- the frame

  /** Behind the frame header of a progressive image with blocks of another size than eight comes a scan header without
      components, whose last position is that of the last coefficient of a block. */
  lemma PseudoHeader(im: Image, w: Writer)
    requires im.Valid() && w.Valid() && WriteFrameHeader(im, w).Wrote?
    ensures var x, tables := WriteFrameHeader(im, w), EmitDqts(im, w, im.frame.comps);
            && tables.Wrote? && x.w == tables.w && 1 <= im.blockSize * im.blockSize <= 256
            && x.bytes == tables.bytes + ([0xFF, SofCode(im.kind)] + SofBytes(im.frame))
                          + if im.kind.progressive && im.blockSize != 8
                            then [0xFF, 0xDA, 0, 6, 0, 0, im.blockSize * im.blockSize - 1, 0] else []
  {
    BlockSizeFits(im.blockSize);
    var h := PseudoHead(im.blockSize);
    assert SosBytes(h) == [0, 6] + ([0] + ([] + [0, im.blockSize * im.blockSize - 1, 0]));
    hide SofBytes, EmitDqts, SosBytes;
  }
}
