/** Frame and scan headers that have been written are read back: whatever the reader needs for a scan agrees with what the
    writer had, although tables are sent only once (write_frame_header and write_scan_header in jcmarker.c). */
module HeaderRoundTrip {
  import opened Limits
  import opened Wrappers
  import opened EstimationTable
  import opened HeaderFormat
  import opened HeaderSegments
  import opened HeaderProtocol

  // ---------------------------------------------------------------- the writer

  datatype Writer = Writer(quant: seq<Option<QuantTable>>, quantSent: seq<bool>,
                           dcHuff: seq<Option<HuffSpec>>, dcSent: seq<bool>,
                           acHuff: seq<Option<HuffSpec>>, acSent: seq<bool>,
                           dcL: seq<nat>, dcU: seq<nat>, acK: seq<nat>, lastRestart: nat)
  {
    predicate Valid() {
      && |quant| == |quantSent| == NUM_QUANT_TBLS
      && |dcHuff| == |dcSent| == |acHuff| == |acSent| == NUM_HUFF_TBLS
      && |dcL| == |dcU| == |acK| == NUM_ARITH_TBLS
      && (forall i :: 0 <= i < NUM_QUANT_TBLS ==> quant[i].Some? ==> SixteenBits(quant[i].value))
      && (forall i :: 0 <= i < NUM_HUFF_TBLS ==> dcHuff[i].Some? ==> Sendable(dcHuff[i].value))
      && (forall i :: 0 <= i < NUM_HUFF_TBLS ==> acHuff[i].Some? ==> Sendable(acHuff[i].value))
      && forall i :: 0 <= i < NUM_ARITH_TBLS ==> dcL[i] < 16 && dcU[i] < 16 && acK[i] < 256
    }
  }

  /** What is the same for the whole image. */
  datatype Image = Image(os: Orders, blockSize: nat, kind: Kind, frame: FrameHead) {
    predicate Valid() {
      && os.Valid() && 1 <= blockSize <= 16 && SendableFrame(frame)
      && frame.height >= 1 && frame.width >= 1 && |frame.comps| >= 1
      && (kind.baseline ==> !kind.arith && !kind.progressive)
    }
  }

  /** `ci`: which component of the frame. */
  datatype CompInScan = CompInScan(ci: nat, dcTbl: nat, acTbl: nat)

  datatype ScanSetup = ScanSetup(comps: seq<CompInScan>, ss: nat, se: nat, ah: nat, al: nat, restartInterval: nat) {
    /** DC needs no table for a refinement scan. */
    predicate NeedsDc() { ss == 0 && ah == 0 }

    /** AC needs no table when not present. */
    predicate NeedsAc() { se != 0 }

    predicate Valid(im: Image) {
      && 1 <= |comps| <= MAX_COMPS_IN_SCAN && ss < 256 && se < 256 && ah < 16 && al < 16 && restartInterval < 0x10000
      && (forall i :: 0 <= i < |comps| ==>
           comps[i].ci < |im.frame.comps| && comps[i].dcTbl < 16 && comps[i].acTbl < 16)
      && forall i, j :: 0 <= i < j < |comps| ==> comps[i].ci != comps[j].ci
    }
  }

  /** Bytes and what the writer knows to have sent after them; or a table is missing. */
  datatype Written = Missing | Wrote(bytes: seq<byte>, w: Writer)

  function EmitDqt(im: Image, w: Writer, index: nat): (x: Written)
    requires im.Valid() && w.Valid()
    ensures x.Wrote? ==> x.w.Valid()
  {
    if index >= NUM_QUANT_TBLS || w.quant[index].None? then Missing
    else if w.quantSent[index] then Wrote([], w)
    else
      var vals := Zigzag(im.os, w.quant[index].value, im.blockSize);
      OrdersAgree(im.os, im.blockSize);
      Wrote([0xFF, DQT] + DqtBytes(index, vals), w.(quantSent := w.quantSent[index := true]))
  }

  function EmitDht(w: Writer, ac: bool, index: nat): (x: Written)
    requires w.Valid()
    ensures x.Wrote? ==> x.w.Valid()
  {
    if index >= NUM_HUFF_TBLS then Missing
    else if ac then
      if w.acHuff[index].None? then Missing
      else if w.acSent[index] then Wrote([], w)
      else Wrote([0xFF, DHT] + DhtBytes(true, index, w.acHuff[index].value), w.(acSent := w.acSent[index := true]))
    else if w.dcHuff[index].None? then Missing
    else if w.dcSent[index] then Wrote([], w)
    else Wrote([0xFF, DHT] + DhtBytes(false, index, w.dcHuff[index].value), w.(dcSent := w.dcSent[index := true]))
  }

  function EmitDqts(im: Image, w: Writer, cs: seq<FrameComp>): (x: Written)
    requires im.Valid() && w.Valid()
    ensures x.Wrote? ==> x.w.Valid()
    decreases |cs|
  {
    if cs == [] then Wrote([], w)
    else
      match EmitDqt(im, w, cs[0].tq)
      case Missing => Missing
      case Wrote(a, w1) =>
        match EmitDqts(im, w1, cs[1..])
        case Missing => Missing
        case Wrote(b, w2) => Wrote(a + b, w2)
  }

  /** The tables of one component. */
  function EmitTables(w: Writer, sc: ScanSetup, c: CompInScan): (x: Written)
    requires w.Valid()
    ensures x.Wrote? ==> x.w.Valid()
  {
    match (if sc.NeedsDc() then EmitDht(w, false, c.dcTbl) else Wrote([], w))
    case Missing => Missing
    case Wrote(a, w1) =>
      match (if sc.NeedsAc() then EmitDht(w1, true, c.acTbl) else Wrote([], w1))
      case Missing => Missing
      case Wrote(b, w2) => Wrote(a + b, w2)
  }

  function EmitAllTables(w: Writer, sc: ScanSetup, cs: seq<CompInScan>): (x: Written)
    requires w.Valid()
    ensures x.Wrote? ==> x.w.Valid()
    decreases |cs|
  {
    if cs == [] then Wrote([], w)
    else
      match EmitTables(w, sc, cs[0])
      case Missing => Missing
      case Wrote(a, w1) =>
        match EmitAllTables(w1, sc, cs[1..])
        case Missing => Missing
        case Wrote(b, w2) => Wrote(a + b, w2)
  }

  predicate UsesDc(sc: ScanSetup, i: nat) { sc.NeedsDc() && exists k :: 0 <= k < |sc.comps| && sc.comps[k].dcTbl == i }

  predicate UsesAc(sc: ScanSetup, i: nat) { sc.NeedsAc() && exists k :: 0 <= k < |sc.comps| && sc.comps[k].acTbl == i }

  /** The conditioning of the first `n` tables, as far as the scan uses them. */
  function Conds(w: Writer, sc: ScanSetup, n: nat): (ds: seq<DacDef>)
    requires w.Valid() && n <= NUM_ARITH_TBLS
    ensures |ds| <= 2 * n && forall k :: 0 <= k < |ds| ==> Fits(ds[k])
  {
    if n == 0 then []
    else
      var i := n - 1;
      Conds(w, sc, i) + ((if UsesDc(sc, i) then [DcCond(i, w.dcL[i], w.dcU[i])] else [])
                         + if UsesAc(sc, i) then [AcCond(i, w.acK[i])] else [])
  }

  function Head(im: Image, sc: ScanSetup): (h: ScanHead)
    requires im.Valid() && sc.Valid(im)
    ensures SendableScan(h)
  {
    var h := ScanHead(seq(|sc.comps|, k requires 0 <= k < |sc.comps| => HeadComp(im, sc, sc.comps[k])), sc.ss, sc.se, sc.ah, sc.al);
    h
  }

  function HeadComp(im: Image, sc: ScanSetup, c: CompInScan): (h: ScanComp)
    requires im.Valid() && c.ci < |im.frame.comps| && c.dcTbl < 16 && c.acTbl < 16
    ensures SendableScanComp(h)
  {
    assert SendableFrameComp(im.frame.comps[c.ci]);
    ScanComp(im.frame.comps[c.ci].id, if sc.NeedsDc() then c.dcTbl else 0, if sc.NeedsAc() then c.acTbl else 0)
  }

  function DriAndSos(im: Image, w: Writer, sc: ScanSetup): seq<byte>
    requires im.Valid() && sc.Valid(im)
  {
    (if sc.restartInterval != w.lastRestart then [0xFF, DRI] + DriBytes(sc.restartInterval) else [])
      + ([0xFF, SOS] + SosBytes(Head(im, sc)))
  }

  /** write_scan_header. */
  function WriteScanHeader(im: Image, w: Writer, sc: ScanSetup): (x: Written)
    requires im.Valid() && w.Valid() && sc.Valid(im)
    ensures x.Wrote? ==> x.w.Valid()
  {
    var tables := if im.kind.arith then Wrote([0xFF, DAC] + DacBytes(Conds(w, sc, NUM_ARITH_TBLS)), w)
                  else EmitAllTables(w, sc, sc.comps);
    match tables
    case Missing => Missing
    case Wrote(a, w1) => Wrote(a + DriAndSos(im, w1, sc), w1.(lastRestart := sc.restartInterval))
  }

  function SofCode(k: Kind): byte {
    if k.arith then (if k.progressive then SOF10 else SOF9)
    else if k.progressive then SOF2 else if k.baseline then SOF0 else SOF1
  }

  /** The pseudo scan header that tells the reader the block size. */
  function PseudoHead(blockSize: nat): ScanHead
    requires 1 <= blockSize <= 16
  {
    ScanHead([], 0, blockSize * blockSize - 1, 0, 0)
  }

  function PseudoScan(blockSize: nat): Scanned
    requires 1 <= blockSize <= 16
  {
    BlockSizeFits(blockSize);
    Scanned([], 0, blockSize * blockSize - 1, 0, 0)
  }

  predicate NeedsPseudo(im: Image) { im.kind.progressive && im.blockSize != 8 }

  /** write_frame_header. */
  function WriteFrameHeader(im: Image, w: Writer): (x: Written)
    requires im.Valid() && w.Valid()
    ensures x.Wrote? ==> x.w.Valid()
  {
    match EmitDqts(im, w, im.frame.comps)
    case Missing => Missing
    case Wrote(a, w1) =>
      BlockSizeFits(im.blockSize);
      Wrote(a + ([0xFF, SofCode(im.kind)] + SofBytes(im.frame))
              + (if NeedsPseudo(im) then [0xFF, SOS] + SosBytes(PseudoHead(im.blockSize)) else []), w1)
  }

  lemma BlockSizeFits(b: nat)
    requires 1 <= b <= 16
    ensures 0 <= b * b - 1 < 256 && SendableScan(PseudoHead(b))
  {
    assert b == 1 || b == 2 || b == 3 || b == 4 || b == 5 || b == 6 || b == 7 || b == 8 || b == 9 || b == 10 || b == 11
        || b == 12 || b == 13 || b == 14 || b == 15 || b == 16;
  }

  // ---------------------------------------------------------------- agreement

  /** Every table that the writer holds to have been sent is what the reader has. */
  ghost predicate Agree(im: Image, w: Writer, r: Reader)
    requires im.Valid() && w.Valid() && r.Valid()
  {
    && (forall i :: 0 <= i < NUM_QUANT_TBLS ==> w.quantSent[i] ==> HasQuant(im, w, r, i))
    && (forall i :: 0 <= i < NUM_HUFF_TBLS ==> w.dcSent[i] ==> w.dcHuff[i].Some? && r.dcHuff[i] == w.dcHuff[i])
    && (forall i :: 0 <= i < NUM_HUFF_TBLS ==> w.acSent[i] ==> w.acHuff[i].Some? && r.acHuff[i] == w.acHuff[i])
    && r.restartInterval == w.lastRestart
  }

  ghost predicate HasQuant(im: Image, w: Writer, r: Reader, i: nat)
    requires im.Valid() && w.Valid() && r.Valid() && i < NUM_QUANT_TBLS
  {
    w.quant[i].Some? && r.quant[i] == Some(Defined(im.os, Zigzag(im.os, w.quant[i].value, im.blockSize)))
  }

  /** Apart from tables, the reader is where it was. */
  ghost predicate SameFrame(r: Reader, r1: Reader) {
    && r1.sawSof == r.sawSof && r1.kind == r.kind && r1.frame == r.frame && r1.scan == r.scan
    && r1.restartInterval == r.restartInterval && r1.compTables == r.compTables
  }

  lemma ZigzagFits(im: Image, q: QuantTable)
    requires im.Valid() && SixteenBits(q)
    ensures SixteenBits(Zigzag(im.os, q, im.blockSize))
  {
    OrdersAgree(im.os, im.blockSize);
  }

  lemma DqtIsRead(im: Image, w: Writer, r: Reader, index: nat) returns (r1: Reader)
    requires im.Valid() && w.Valid() && r.Valid() && Agree(im, w, r) && EmitDqt(im, w, index).Wrote?
    ensures r1.Valid() && SameFrame(r, r1)
    ensures var x := EmitDqt(im, w, index);
            Passes(im.os, x.bytes, r, r1) && Agree(im, x.w, r1) && x.w == w.(quantSent := w.quantSent[index := true])
  {
    hide ReadMarkers, Zigzag, Defined, DqtBytes, ParseDqt, Orders.Valid, SendableFrame;
    OrdersAgree(im.os, im.blockSize);
    if w.quantSent[index] {
      r1 := r;
      NothingPasses(im.os, r);
      assert w.quantSent[index := true] == w.quantSent;
    } else {
      var vals := Zigzag(im.os, w.quant[index].value, im.blockSize);
      ZigzagFits(im, w.quant[index].value);
      r1 := r.(quant := r.quant[index := Some(Defined(im.os, vals))]);
      forall rest ensures Segment(im.os, DQT, DqtBytes(index, vals) + rest, r) == Ok(rest, r1) {
        DqtReads(index, vals, rest);
        var ds := [QuantDef(index, vals)];
        assert ds[1..] == [];
        assert DefineQuants(im.os, r.quant, ds) == r1.quant;
      }
      MarkerPasses(im.os, DQT, DqtBytes(index, vals), r, r1);
    }
  }

  lemma DhtIsRead(im: Image, w: Writer, r: Reader, ac: bool, index: nat) returns (r1: Reader)
    requires im.Valid() && w.Valid() && r.Valid() && Agree(im, w, r) && EmitDht(w, ac, index).Wrote?
    ensures r1.Valid() && SameFrame(r, r1) && r1.quant == r.quant
    ensures var x := EmitDht(w, ac, index);
            && Passes(im.os, x.bytes, r, r1) && Agree(im, x.w, r1)
            && x.w == if ac then w.(acSent := w.acSent[index := true]) else w.(dcSent := w.dcSent[index := true])
  {
    hide ReadMarkers, DhtBytes, ParseDht, Sendable, Orders.Valid, SendableFrame, Zigzag, Defined;
    var h := if ac then w.acHuff[index] else w.dcHuff[index];
    if if ac then w.acSent[index] else w.dcSent[index] {
      r1 := r;
      NothingPasses(im.os, r);
      assert w.acSent[index := w.acSent[index]] == w.acSent && w.dcSent[index := w.dcSent[index]] == w.dcSent;
    } else {
      var d := HuffDef(ac, index, h.value);
      r1 := DefineHuff(r, d);
      forall rest ensures Segment(im.os, DHT, DhtBytes(ac, index, h.value) + rest, r) == Ok(rest, r1) {
        DhtReads(ac, index, h.value, rest);
        assert [d][1..] == [];
        assert DefineHuffs(r, [d]) == r1;
      }
      MarkerPasses(im.os, DHT, DhtBytes(ac, index, h.value), r, r1);
    }
  }

  /** What has been sent stays sent, and nothing that the writer has changes. */
  ghost predicate SentMore(w: Writer, w1: Writer)
    requires w.Valid() && w1.Valid()
  {
    && w1.quant == w.quant && w1.dcHuff == w.dcHuff && w1.acHuff == w.acHuff
    && w1.dcL == w.dcL && w1.dcU == w.dcU && w1.acK == w.acK && w1.lastRestart == w.lastRestart
    && (forall i :: 0 <= i < NUM_QUANT_TBLS ==> w.quantSent[i] ==> w1.quantSent[i])
    && (forall i :: 0 <= i < NUM_HUFF_TBLS ==> (w.dcSent[i] ==> w1.dcSent[i]) && (w.acSent[i] ==> w1.acSent[i]))
  }

  lemma {:induction false} DqtsAreRead(im: Image, w: Writer, r: Reader, cs: seq<FrameComp>) returns (r1: Reader)
    requires im.Valid() && w.Valid() && r.Valid() && Agree(im, w, r) && EmitDqts(im, w, cs).Wrote?
    ensures r1.Valid() && SameFrame(r, r1)
    ensures var x := EmitDqts(im, w, cs);
            && Passes(im.os, x.bytes, r, r1) && Agree(im, x.w, r1) && SentMore(w, x.w)
            && forall k :: 0 <= k < |cs| ==> cs[k].tq < NUM_QUANT_TBLS && x.w.quantSent[cs[k].tq]
    decreases |cs|
  {
    hide EmitDqt, Passes, Agree, SendableFrame, Orders.Valid, SixteenBits, Sendable;
    if cs == [] {
      r1 := r;
      NothingPasses(im.os, r);
    } else {
      var x := EmitDqt(im, w, cs[0].tq);
      var r0 := DqtIsRead(im, w, r, cs[0].tq);
      IndexInRange(im, w, cs[0].tq);
      r1 := DqtsAreRead(im, x.w, r0, cs[1..]);
      var y := EmitDqts(im, x.w, cs[1..]);
      PassesThrough(im.os, x.bytes, y.bytes, r, r0, r1);
      forall k | 0 <= k < |cs| ensures cs[k].tq < NUM_QUANT_TBLS && y.w.quantSent[cs[k].tq] {
        if k > 0 { assert cs[k] == cs[1..][k - 1]; }
      }
    }
  }

  lemma IndexInRange(im: Image, w: Writer, index: nat)
    requires im.Valid() && w.Valid() && EmitDqt(im, w, index).Wrote?
    ensures index < NUM_QUANT_TBLS == |w.quantSent| && |w.quant| == NUM_QUANT_TBLS
    ensures |w.dcSent| == |w.acSent| == NUM_HUFF_TBLS
  {
  }

  /** The tables of a component are where the scan needs them. */
  predicate TablesSent(w: Writer, sc: ScanSetup, c: CompInScan)
    requires w.Valid()
  {
    && (sc.NeedsDc() ==> c.dcTbl < NUM_HUFF_TBLS && w.dcSent[c.dcTbl])
    && (sc.NeedsAc() ==> c.acTbl < NUM_HUFF_TBLS && w.acSent[c.acTbl])
  }

  lemma TablesAreRead(im: Image, w: Writer, r: Reader, sc: ScanSetup, c: CompInScan) returns (r1: Reader)
    requires im.Valid() && w.Valid() && r.Valid() && Agree(im, w, r) && EmitTables(w, sc, c).Wrote?
    ensures r1.Valid() && SameFrame(r, r1) && r1.quant == r.quant
    ensures var x := EmitTables(w, sc, c);
            Passes(im.os, x.bytes, r, r1) && Agree(im, x.w, r1) && SentMore(w, x.w) && TablesSent(x.w, sc, c)
  {
    hide Passes, Agree, SendableFrame, Orders.Valid, SixteenBits, DhtBytes, Sendable;
    var a := if sc.NeedsDc() then EmitDht(w, false, c.dcTbl) else Wrote([], w);
    var r0 := r;
    if sc.NeedsDc() { r0 := DhtIsRead(im, w, r, false, c.dcTbl); } else { NothingPasses(im.os, r); }
    var b := if sc.NeedsAc() then EmitDht(a.w, true, c.acTbl) else Wrote([], a.w);
    r1 := r0;
    if sc.NeedsAc() { r1 := DhtIsRead(im, a.w, r0, true, c.acTbl); } else { NothingPasses(im.os, r0); }
    PassesThrough(im.os, a.bytes, b.bytes, r, r0, r1);
  }

  lemma {:induction false} AllTablesAreRead(im: Image, w: Writer, r: Reader, sc: ScanSetup, cs: seq<CompInScan>) returns (r1: Reader)
    requires im.Valid() && w.Valid() && r.Valid() && Agree(im, w, r) && EmitAllTables(w, sc, cs).Wrote?
    ensures r1.Valid() && SameFrame(r, r1) && r1.quant == r.quant
    ensures var x := EmitAllTables(w, sc, cs);
            && Passes(im.os, x.bytes, r, r1) && Agree(im, x.w, r1) && SentMore(w, x.w)
            && forall k :: 0 <= k < |cs| ==> TablesSent(x.w, sc, cs[k])
    decreases |cs|
  {
    hide EmitTables, Passes, Agree, SendableFrame, Orders.Valid, SixteenBits, Sendable;
    if cs == [] {
      r1 := r;
      NothingPasses(im.os, r);
    } else {
      var x := EmitTables(w, sc, cs[0]);
      var r0 := TablesAreRead(im, w, r, sc, cs[0]);
      r1 := AllTablesAreRead(im, x.w, r0, sc, cs[1..]);
      var y := EmitAllTables(x.w, sc, cs[1..]);
      PassesThrough(im.os, x.bytes, y.bytes, r, r0, r1);
      forall k | 0 <= k < |cs| ensures TablesSent(y.w, sc, cs[k]) {
        if k > 0 { assert cs[k] == cs[1..][k - 1]; }
      }
    }
  }

  // ---------------------------------------------------------------- the frame header

  lemma SofPasses(im: Image, r: Reader) returns (r1: Reader)
    requires im.Valid() && r.Valid() && !r.sawSof
    ensures r1 == r.(sawSof := true, kind := im.kind, frame := im.frame, compTables := NoTables(|im.frame.comps|)) && r1.Valid()
    ensures Passes(im.os, [0xFF, SofCode(im.kind)] + SofBytes(im.frame), r, r1)
  {
    hide ReadMarkers, SofBytes, ParseSof, SendableFrame, Orders.Valid;
    r1 := r.(sawSof := true, kind := im.kind, frame := im.frame, compTables := NoTables(|im.frame.comps|));
    var code := SofCode(im.kind);
    assert SofKind(code) == Some(im.kind);
    forall rest ensures Segment(im.os, code, SofBytes(im.frame) + rest, r) == Ok(rest, r1) {
      SofReads(im.frame, false, rest);
    }
    MarkerPasses(im.os, code, SofBytes(im.frame), r, r1);
  }

  /** A scan header, after whatever passes in front of it. */
  lemma SosIsReached(os: Orders, before: seq<byte>, h: ScanHead, r: Reader, r1: Reader, rest: seq<byte>)
    requires os.Valid() && r.Valid() && r1.Valid() && r1.sawSof && Passes(os, before, r, r1) && SendableScan(h)
    requires h.comps == [] ==> r1.kind.progressive
    requires forall k :: 0 <= k < |h.comps| ==> h.comps[k].id in r1.Ids()
    ensures ReadMarkers(os, (before + ([0xFF, SOS] + SosBytes(h))) + rest, r) == ReachedSos(rest, SelectScan(r1, Resolved(h, r1.Ids())))
  {
    hide SosBytes, SendableScan, Orders.Valid, Reader.Valid, ReadMarkers, SelectScan, Resolved;
    var tail := [0xFF, SOS] + (SosBytes(h) + rest);
    assert (before + ([0xFF, SOS] + SosBytes(h))) + rest == before + tail;
    assert ReadMarkers(os, before + tail, r) == ReadMarkers(os, tail, r1);
    SosComesNext(os, h, r1, rest);
  }

  lemma SosComesNext(os: Orders, h: ScanHead, r: Reader, rest: seq<byte>)
    requires os.Valid() && r.Valid() && r.sawSof && SendableScan(h)
    requires h.comps == [] ==> r.kind.progressive
    requires forall k :: 0 <= k < |h.comps| ==> h.comps[k].id in r.Ids()
    ensures ReadMarkers(os, [0xFF, SOS] + (SosBytes(h) + rest), r) == ReachedSos(rest, SelectScan(r, Resolved(h, r.Ids())))
  {
    hide SosBytes, ParseSos, SendableScan, Orders.Valid, SelectScan, Resolved;
    SosReads(h, r.kind.progressive, r.Ids(), rest);
    MarkerFound(SOS, SosBytes(h) + rest);
    assert Segment(os, SOS, SosBytes(h) + rest, r) == Ok(rest, SelectScan(r, Resolved(h, r.Ids())));
    hide Segment;
  }

  /** What is written as a frame header is read back: the frame parameters, and every quantisation table that a component
      uses. With a progressive image of reduced block size the reader stops at the pseudo scan header. */
  lemma FrameHeaderIsRead(im: Image, w: Writer, r: Reader) returns (r1: Reader)
    requires im.Valid() && w.Valid() && r.Valid() && Agree(im, w, r) && !r.sawSof && WriteFrameHeader(im, w).Wrote?
    ensures r1.Valid() && r1.sawSof && r1.kind == im.kind && r1.frame == im.frame
    ensures var x := WriteFrameHeader(im, w);
            && Agree(im, x.w, r1)
            && (forall k :: 0 <= k < |im.frame.comps| ==>
                  im.frame.comps[k].tq < NUM_QUANT_TBLS && HasQuant(im, w, r1, im.frame.comps[k].tq))
            && (!NeedsPseudo(im) ==> Passes(im.os, x.bytes, r, r1))
            && (NeedsPseudo(im) ==>
                  forall rest :: ReadMarkers(im.os, x.bytes + rest, r) == ReachedSos(rest, r1.(scan := PseudoScan(im.blockSize))))
  {
    hide ReadMarkers, SofBytes, SosBytes, EmitDqts, SendableFrame, Orders.Valid, SixteenBits, Sendable, Zigzag, Defined;
    var a := EmitDqts(im, w, im.frame.comps);
    var r0 := DqtsAreRead(im, w, r, im.frame.comps);
    r1 := SofPasses(im, r0);
    BlockSizeFits(im.blockSize);
    var sof := [0xFF, SofCode(im.kind)] + SofBytes(im.frame);
    PassesThrough(im.os, a.bytes, sof, r, r0, r1);
    if NeedsPseudo(im) {
      var x := WriteFrameHeader(im, w);
      forall rest ensures ReadMarkers(im.os, x.bytes + rest, r) == ReachedSos(rest, r1.(scan := PseudoScan(im.blockSize))) {
        SosIsReached(im.os, a.bytes + sof, PseudoHead(im.blockSize), r, r1, rest);
        assert Resolved(PseudoHead(im.blockSize), r1.Ids()) == ReadHead([], 0, im.blockSize * im.blockSize - 1, 0, 0);
      }
    } else {
      assert (a.bytes + sof) + [] == a.bytes + sof;
    }
  }

  // ---------------------------------------------------------------- conditioning

  lemma {:induction false} CondsConcat(r: Reader, a: seq<DacDef>, b: seq<DacDef>)
    requires r.Valid() && forall i :: 0 <= i < |a + b| ==> IsDacDef((a + b)[i])
    requires (forall i :: 0 <= i < |a| ==> IsDacDef(a[i])) && forall i :: 0 <= i < |b| ==> IsDacDef(b[i])
    ensures DefineConds(r, a + b) == DefineConds(DefineConds(r, a), b)
    decreases |a|
  {
    if a == [] {
      assert a + b == b;
    } else {
      assert (a + b)[1..] == a[1..] + b;
      CondsConcat(DefineCond(r, a[0]), a[1..], b);
    }
  }

  /** The reader has the conditioning of the tables below `n` that the scan uses. */
  predicate HasConds(w: Writer, sc: ScanSetup, r: Reader, n: nat)
    requires w.Valid() && r.Valid() && n <= NUM_ARITH_TBLS
  {
    forall i :: 0 <= i < n ==>
      && (UsesDc(sc, i) ==> r.dcL[i] == w.dcL[i] && r.dcU[i] == w.dcU[i])
      && (UsesAc(sc, i) ==> r.acK[i] == w.acK[i])
  }

  lemma {:induction false} CondsDefined(w: Writer, sc: ScanSetup, r: Reader, n: nat)
    requires w.Valid() && r.Valid() && n <= NUM_ARITH_TBLS
    ensures forall k :: 0 <= k < |Conds(w, sc, n)| ==> IsDacDef(Conds(w, sc, n)[k])
    ensures HasConds(w, sc, DefineConds(r, Conds(w, sc, n)), n)
    ensures DefineConds(r, Conds(w, sc, n)) == r.(dcL := DefineConds(r, Conds(w, sc, n)).dcL,
                                                  dcU := DefineConds(r, Conds(w, sc, n)).dcU,
                                                  acK := DefineConds(r, Conds(w, sc, n)).acK)
    decreases n
  {
    hide UsesDc, UsesAc, SixteenBits, Sendable, DefineConds;
    if n == 0 {
      NoConds(r);
    } else {
      var i := n - 1;
      CondsDefined(w, sc, r, i);
      var a := Conds(w, sc, i);
      var b := if UsesDc(sc, i) then [DcCond(i, w.dcL[i], w.dcU[i])] else [];
      var c := if UsesAc(sc, i) then [AcCond(i, w.acK[i])] else [];
      CondsConcat(r, a, b + c);
      OneTable(w, sc, DefineConds(r, a), i);
    }
  }

  lemma NoConds(r: Reader)
    requires r.Valid()
    ensures DefineConds(r, []) == r
  {
  }

  lemma OneTable(w: Writer, sc: ScanSetup, r: Reader, i: nat)
    requires w.Valid() && r.Valid() && i < NUM_ARITH_TBLS && HasConds(w, sc, r, i)
    ensures var b := if UsesDc(sc, i) then [DcCond(i, w.dcL[i], w.dcU[i])] else [];
            var c := if UsesAc(sc, i) then [AcCond(i, w.acK[i])] else [];
            && (forall k :: 0 <= k < |b + c| ==> IsDacDef((b + c)[k]))
            && var r1 := DefineConds(r, b + c);
               HasConds(w, sc, r1, i + 1) && r1 == r.(dcL := r1.dcL, dcU := r1.dcU, acK := r1.acK)
  {
    hide UsesDc, UsesAc, SixteenBits, Sendable;
    var b := if UsesDc(sc, i) then [DcCond(i, w.dcL[i], w.dcU[i])] else [];
    var c := if UsesAc(sc, i) then [AcCond(i, w.acK[i])] else [];
    CondsConcat(r, b, c);
    assert b != [] ==> b[1..] == [];
    assert c != [] ==> c[1..] == [];
  }

  // ---------------------------------------------------------------- the scan header

  lemma DacIsRead(im: Image, w: Writer, r: Reader, sc: ScanSetup)
    requires im.Valid() && w.Valid() && r.Valid() && sc.Valid(im)
    ensures var ds, bytes := Conds(w, sc, NUM_ARITH_TBLS), [0xFF, DAC] + DacBytes(Conds(w, sc, NUM_ARITH_TBLS));
            && (forall k :: 0 <= k < |ds| ==> IsDacDef(ds[k]))
            && (AllAcceptable(ds) ==> Passes(im.os, bytes, r, DefineConds(r, ds)))
            && (!AllAcceptable(ds) ==> forall rest :: ReadMarkers(im.os, bytes + rest, r) == Failed)
  {
    hide ReadMarkers, DacBytes, ParseDac, Orders.Valid, SendableFrame, Conds, Writer.Valid, AllAcceptable;
    var ds := Conds(w, sc, NUM_ARITH_TBLS);
    var bytes := DacBytes(ds);
    CondsDefined(w, sc, r, NUM_ARITH_TBLS);
    if AllAcceptable(ds) {
      forall rest ensures Segment(im.os, DAC, bytes + rest, r) == Ok(rest, DefineConds(r, ds)) {
        DacReads(ds, rest);
      }
      MarkerPasses(im.os, DAC, bytes, r, DefineConds(r, ds));
    } else {
      forall rest ensures ReadMarkers(im.os, ([0xFF, DAC] + bytes) + rest, r) == Failed {
        DacReads(ds, rest);
        DacFails(im.os, bytes, r, rest);
      }
    }
  }

  lemma DacFails(os: Orders, bytes: seq<byte>, r: Reader, rest: seq<byte>)
    requires os.Valid() && r.Valid() && ParseDac(bytes + rest) == Bad
    ensures ReadMarkers(os, ([0xFF, DAC] + bytes) + rest, r) == Failed
  {
    hide ParseDac, Orders.Valid;
    assert ([0xFF, DAC] + bytes) + rest == [0xFF, DAC] + (bytes + rest);
    MarkerFound(DAC, bytes + rest);
  }

  lemma DriPasses(im: Image, w: Writer, r: Reader, sc: ScanSetup) returns (r1: Reader)
    requires im.Valid() && w.Valid() && r.Valid() && sc.Valid(im) && r.restartInterval == w.lastRestart
    ensures r1 == r.(restartInterval := sc.restartInterval) && r1.Valid()
    ensures Passes(im.os, if sc.restartInterval != w.lastRestart then [0xFF, DRI] + DriBytes(sc.restartInterval) else [], r, r1)
  {
    hide ReadMarkers, DriBytes, ParseDri, Orders.Valid, SendableFrame, Writer.Valid;
    r1 := r.(restartInterval := sc.restartInterval);
    if sc.restartInterval != w.lastRestart {
      forall rest ensures Segment(im.os, DRI, DriBytes(sc.restartInterval) + rest, r) == Ok(rest, r1) {
        DriReads(sc.restartInterval, rest);
      }
      MarkerPasses(im.os, DRI, DriBytes(sc.restartInterval), r, r1);
    } else {
      NothingPasses(im.os, r);
    }
  }

  /** The Huffman tables that a scan needs, as the reader has them, are the writer's. */
  predicate HasTables(w: Writer, sc: ScanSetup, r: Reader)
    requires w.Valid() && r.Valid()
  {
    forall k :: 0 <= k < |sc.comps| ==>
      var c := sc.comps[k];
      && (sc.NeedsDc() ==> c.dcTbl < NUM_HUFF_TBLS && w.dcHuff[c.dcTbl].Some? && r.dcHuff[c.dcTbl] == w.dcHuff[c.dcTbl])
      && (sc.NeedsAc() ==> c.acTbl < NUM_HUFF_TBLS && w.acHuff[c.acTbl].Some? && r.acHuff[c.acTbl] == w.acHuff[c.acTbl])
  }

  function Ids(im: Image): seq<nat> { seq(|im.frame.comps|, i requires 0 <= i < |im.frame.comps| => im.frame.comps[i].id) }

  /** Each component of the scan is the first of the frame that has its identifier. */
  predicate AllFirst(im: Image, sc: ScanSetup)
    requires im.Valid() && sc.Valid(im)
  {
    forall k :: 0 <= k < |sc.comps| ==> Ids(im)[sc.comps[k].ci] !in Ids(im)[..sc.comps[k].ci]
  }

  /** The reader knows the scan for what it is: its components, with their table numbers as far as they matter, and its
      coefficients and bits. */
  predicate KnowsScan(im: Image, sc: ScanSetup, r: Reader)
    requires im.Valid() && sc.Valid(im) && r.Valid() && r.frame == im.frame
  {
    && r.scan == Scanned(seq(|sc.comps|, k requires 0 <= k < |sc.comps| => sc.comps[k].ci), sc.ss, sc.se, sc.ah, sc.al)
    && forall k :: 0 <= k < |sc.comps| ==>
         r.compTables[sc.comps[k].ci] == (Head(im, sc).comps[k].td, Head(im, sc).comps[k].ta)
  }

  /** Everything that a scan needs is read back, be it sent now or with an earlier scan: the restart interval, and the
      tables or the conditioning. DC conditioning with a lower bound above the upper one is written without complaint, and
      then refused. */
  lemma ScanHeaderIsRead(im: Image, w: Writer, r: Reader, sc: ScanSetup) returns (r1: Reader)
    requires im.Valid() && w.Valid() && r.Valid() && sc.Valid(im) && Agree(im, w, r) && WriteScanHeader(im, w, sc).Wrote?
    requires r.sawSof && r.kind == im.kind && r.frame == im.frame
    ensures r1.Valid() && r1.sawSof && r1.kind == im.kind && r1.frame == im.frame
    ensures var x := WriteScanHeader(im, w, sc);
            if im.kind.arith && !AllAcceptable(Conds(w, sc, NUM_ARITH_TBLS)) then
              forall rest :: ReadMarkers(im.os, x.bytes + rest, r) == Failed
            else
              && (forall rest :: ReadMarkers(im.os, x.bytes + rest, r) == ReachedSos(rest, r1))
              && Agree(im, x.w, r1) && r1.restartInterval == sc.restartInterval
              && (KnowsScan(im, sc, r1) <==> AllFirst(im, sc))
              && (if im.kind.arith then HasConds(w, sc, r1, NUM_ARITH_TBLS) else HasTables(w, sc, r1))
  {
    hide ReadMarkers, SosBytes, DacBytes, DriBytes, EmitAllTables, Conds, SendableFrame, Orders.Valid, SixteenBits, Sendable,
         Passes, Zigzag, Defined, HasConds, AllAcceptable, Head, Resolved, KnowsScan, AllFirst, StoreTables;
    var x, ds := WriteScanHeader(im, w, sc), Conds(w, sc, NUM_ARITH_TBLS);
    var r0, a := r, [];
    if im.kind.arith {
      DacIsRead(im, w, r, sc);
      CondsDefined(w, sc, r, NUM_ARITH_TBLS);
      a := [0xFF, DAC] + DacBytes(ds);
      if !AllAcceptable(ds) {
        r1 := r;
        forall rest ensures ReadMarkers(im.os, x.bytes + rest, r) == Failed {
          assert x.bytes + rest == a + (DriAndSos(im, w, sc) + rest);
        }
        return;
      }
      r0 := DefineConds(r, ds);
    } else {
      a := EmitAllTables(w, sc, sc.comps).bytes;
      r0 := AllTablesAreRead(im, w, r, sc, sc.comps);
    }
    var w1 := if im.kind.arith then w else EmitAllTables(w, sc, sc.comps).w;
    var r2 := DriPasses(im, w1, r0, sc);
    var dri := if sc.restartInterval != w1.lastRestart then [0xFF, DRI] + DriBytes(sc.restartInterval) else [];
    PassesThrough(im.os, a, dri, r, r0, r2);
    HeadIds(im, sc, r2);
    r1 := SelectScan(r2, Resolved(Head(im, sc), r2.Ids()));
    var sos := [0xFF, SOS] + SosBytes(Head(im, sc));
    forall rest ensures ReadMarkers(im.os, x.bytes + rest, r) == ReachedSos(rest, r1) {
      SosIsReached(im.os, a + dri, Head(im, sc), r, r2, rest);
      assert x.bytes == (a + dri) + sos;
    }
    ScanIsKnown(im, sc, r2);
    if im.kind.arith { CondsKept(w, sc, r0, r1); } else { TablesKept(w, w1, sc, r0, r1, im); }
  }

  /** The identifiers lead back to the components just if each is the first with its identifier. */
  lemma ScanIsKnown(im: Image, sc: ScanSetup, r: Reader)
    requires im.Valid() && sc.Valid(im) && r.Valid() && r.frame == im.frame
    requires forall k :: 0 <= k < |Head(im, sc).comps| ==> Head(im, sc).comps[k].id in r.Ids()
    ensures KnowsScan(im, sc, SelectScan(r, Resolved(Head(im, sc), r.Ids()))) <==> AllFirst(im, sc)
  {
    hide SendableFrame, Orders.Valid, StoreTables, SendableScan;
    var h, ids := Head(im, sc), Ids(im);
    assert r.Ids() == ids;
    var refs := ResolvedComps(h.comps, ids);
    assert Resolved(h, ids) == ReadHead(refs, sc.ss, sc.se, sc.ah, sc.al);
    var r1 := SelectScan(r, Resolved(h, ids));
    forall k | 0 <= k < |sc.comps|
      ensures refs[k].ci == sc.comps[k].ci <==> ids[sc.comps[k].ci] !in ids[..sc.comps[k].ci]
    {
      FirstOrNot(ids, sc.comps[k].ci);
    }
    if AllFirst(im, sc) {
      assert Cis(refs) == seq(|sc.comps|, k requires 0 <= k < |sc.comps| => sc.comps[k].ci);
      forall k | 0 <= k < |sc.comps| ensures r1.compTables[sc.comps[k].ci] == (h.comps[k].td, h.comps[k].ta) {
        StoredAt(r.compTables, refs, k);
      }
    } else {
      var k :| 0 <= k < |sc.comps| && ids[sc.comps[k].ci] in ids[..sc.comps[k].ci];
      assert r1.scan.cis[k] == refs[k].ci != sc.comps[k].ci;
    }
  }

  lemma FirstOrNot(ids: seq<nat>, ci: nat)
    requires ci < |ids|
    ensures FirstWith(ids, ids[ci]) == ci <==> ids[ci] !in ids[..ci]
  {
    var first := FirstWith(ids, ids[ci]);
    if first < ci { assert ids[..ci][first] == ids[ci]; }
  }

  lemma {:induction false} StoredAt(ts: seq<(nat, nat)>, refs: seq<CompRef>, k: nat)
    requires forall i :: 0 <= i < |refs| ==> refs[i].ci < |ts|
    requires k < |refs| && forall i, j :: 0 <= i < j < |refs| ==> refs[i].ci != refs[j].ci
    ensures StoreTables(ts, refs)[refs[k].ci] == (refs[k].td, refs[k].ta)
    decreases |refs|
  {
    var ts1 := ts[refs[0].ci := (refs[0].td, refs[0].ta)];
    if k > 0 {
      StoredAt(ts1, refs[1..], k - 1);
    } else {
      NotStored(ts1, refs[1..], refs[0].ci);
    }
  }

  lemma {:induction false} NotStored(ts: seq<(nat, nat)>, refs: seq<CompRef>, ci: nat)
    requires (forall i :: 0 <= i < |refs| ==> refs[i].ci < |ts|) && ci < |ts|
    requires forall i :: 0 <= i < |refs| ==> refs[i].ci != ci
    ensures StoreTables(ts, refs)[ci] == ts[ci]
    decreases |refs|
  {
    if refs != [] { NotStored(ts[refs[0].ci := (refs[0].td, refs[0].ta)], refs[1..], ci); }
  }

  /** The scan header is understood. */
  ghost predicate Understood(im: Image, w: Writer, r: Reader, sc: ScanSetup)
    requires im.Valid() && w.Valid() && r.Valid() && sc.Valid(im) && WriteScanHeader(im, w, sc).Wrote?
  {
    exists r1: Reader :: r1.Valid() && r1.frame == im.frame && KnowsScan(im, sc, r1) && Leads(im, WriteScanHeader(im, w, sc).bytes, r, r1)
  }

  ghost predicate Leads(im: Image, bytes: seq<byte>, r: Reader, r1: Reader)
    requires im.Valid() && r.Valid() && r1.Valid()
  {
    forall rest :: ReadMarkers(im.os, bytes + rest, r) == ReachedSos(rest, r1)
  }

  /** Exactly when a written scan header is understood. Neither the writer nor the reader of the frame header asks for
      different identifiers, and the writer does not look at the conditioning bounds. */
  lemma UnderstoodExactly(im: Image, w: Writer, r: Reader, sc: ScanSetup)
    requires im.Valid() && w.Valid() && r.Valid() && sc.Valid(im) && Agree(im, w, r) && WriteScanHeader(im, w, sc).Wrote?
    requires r.sawSof && r.kind == im.kind && r.frame == im.frame
    ensures Understood(im, w, r, sc)
        <==> AllFirst(im, sc) && (im.kind.arith ==> AllAcceptable(Conds(w, sc, NUM_ARITH_TBLS)))
  {
    hide ReadMarkers, SendableFrame, Orders.Valid, WriteScanHeader, KnowsScan, AllFirst, AllAcceptable, Agree, Conds, HasConds,
         HasTables;
    var r1 := ScanHeaderIsRead(im, w, r, sc);
    var bytes := WriteScanHeader(im, w, sc).bytes;
    var first := ReadMarkers(im.os, bytes + [], r);
    if Understood(im, w, r, sc) {
      var r2: Reader :| r2.Valid() && r2.frame == im.frame && KnowsScan(im, sc, r2) && Leads(im, bytes, r, r2);
      assert first == ReachedSos([], r2);
    }
    if AllFirst(im, sc) && (im.kind.arith ==> AllAcceptable(Conds(w, sc, NUM_ARITH_TBLS))) {
      assert Leads(im, bytes, r, r1);
    }
  }

  /** A frame whose two components have one identifier: a scan of the second is read as a scan of the first. */
  lemma SecondIsTakenForFirst(os: Orders)
    requires os.Valid()
    ensures var im := Image(os, 8, Kind(false, false, false), FrameHead(8, 1, 1, [FrameComp(1, 1, 1, 0), FrameComp(1, 1, 1, 0)]));
            var sc := ScanSetup([CompInScan(1, 0, 0)], 0, 63, 0, 0, 0);
            && im.Valid() && sc.Valid(im) && !AllFirst(im, sc)
            && Head(im, sc).comps[0].id in Ids(im) && Resolved(Head(im, sc), Ids(im)).refs[0].ci == 0
  {
    hide Orders.Valid;
    var c := FrameComp(1, 1, 1, 0);
    var im := Image(os, 8, Kind(false, false, false), FrameHead(8, 1, 1, [c, c]));
    var sc := ScanSetup([CompInScan(1, 0, 0)], 0, 63, 0, 0, 0);
    assert SendableFrameComp(c) && Ids(im) == [1, 1];
    assert Ids(im)[1] == Ids(im)[..1][0] && sc.comps[0].ci == 1;
    assert Head(im, sc).comps[0].id == Ids(im)[0];
  }

  /** DC conditioning with the lower bound one and the upper bound zero is written, and refused. */
  lemma BoundsOutOfOrder(rest: seq<byte>)
    ensures Fits(DcCond(0, 1, 0)) && ParseDac(DacBytes([DcCond(0, 1, 0)]) + rest) == Bad
  {
    var d := DcCond(0, 1, 0);
    assert [d][0] == d && !Acceptable(d);
    DacReads([d], rest);
  }

  lemma HeadIds(im: Image, sc: ScanSetup, r: Reader)
    requires im.Valid() && sc.Valid(im) && r.frame == im.frame
    ensures |Head(im, sc).comps| >= 1 && forall k :: 0 <= k < |Head(im, sc).comps| ==> Head(im, sc).comps[k].id in r.Ids()
  {
    forall k | 0 <= k < |Head(im, sc).comps| ensures Head(im, sc).comps[k].id in r.Ids() {
      assert r.Ids()[sc.comps[k].ci] == im.frame.comps[sc.comps[k].ci].id;
    }
  }

  lemma CondsKept(w: Writer, sc: ScanSetup, r: Reader, r1: Reader)
    requires w.Valid() && r.Valid() && r1.Valid() && HasConds(w, sc, r, NUM_ARITH_TBLS)
    requires r1.dcL == r.dcL && r1.dcU == r.dcU && r1.acK == r.acK
    ensures HasConds(w, sc, r1, NUM_ARITH_TBLS)
  {
  }

  lemma TablesKept(w: Writer, w1: Writer, sc: ScanSetup, r: Reader, r1: Reader, im: Image)
    requires im.Valid() && w.Valid() && w1.Valid() && r.Valid() && r1.Valid() && Agree(im, w1, r) && SentMore(w, w1)
    requires r1.dcHuff == r.dcHuff && r1.acHuff == r.acHuff
    requires forall k :: 0 <= k < |sc.comps| ==> TablesSent(w1, sc, sc.comps[k])
    ensures HasTables(w, sc, r1)
  {
    forall k | 0 <= k < |sc.comps|
      ensures var c := sc.comps[k];
              && (sc.NeedsDc() ==> c.dcTbl < NUM_HUFF_TBLS && w.dcHuff[c.dcTbl].Some? && r1.dcHuff[c.dcTbl] == w.dcHuff[c.dcTbl])
              && (sc.NeedsAc() ==> c.acTbl < NUM_HUFF_TBLS && w.acHuff[c.acTbl].Some? && r1.acHuff[c.acTbl] == w.acHuff[c.acTbl])
    {
      assert TablesSent(w1, sc, sc.comps[k]);
    }
  }

  /** Between scans the writer may replace a table, as the optimisation of Huffman tables does; it then has to be sent
      again. */
  lemma ReplacedTable(im: Image, w: Writer, r: Reader, ac: bool, index: nat, h: HuffSpec)
    requires im.Valid() && w.Valid() && r.Valid() && Agree(im, w, r) && index < NUM_HUFF_TBLS && Sendable(h)
    ensures var w1 := if ac then w.(acHuff := w.acHuff[index := Some(h)], acSent := w.acSent[index := false])
                      else w.(dcHuff := w.dcHuff[index := Some(h)], dcSent := w.dcSent[index := false]);
            w1.Valid() && Agree(im, w1, r)
  {
    hide SendableFrame, Orders.Valid, SixteenBits, Sendable, Zigzag, Defined;
    var w1 := if ac then w.(acHuff := w.acHuff[index := Some(h)], acSent := w.acSent[index := false])
              else w.(dcHuff := w.dcHuff[index := Some(h)], dcSent := w.dcSent[index := false]);
    assert forall i :: 0 <= i < NUM_QUANT_TBLS ==> w1.quantSent[i] ==> HasQuant(im, w, r, i) && HasQuant(im, w1, r, i);
  }

  // ---------------------------------------------------------------- all scans of a file

  /** A Huffman table that the application or the optimisation puts in place. */
  datatype NewTable = NewTable(ac: bool, index: nat, spec: HuffSpec)

  predicate ValidTables(ts: seq<NewTable>) {
    forall i :: 0 <= i < |ts| ==> ts[i].index < NUM_HUFF_TBLS && Sendable(ts[i].spec)
  }

  function Replaced(w: Writer, ts: seq<NewTable>): (w1: Writer)
    requires w.Valid() && ValidTables(ts)
    ensures w1.Valid()
    decreases |ts|
  {
    if ts == [] then w
    else
      var t := ts[0];
      Replaced(if t.ac then w.(acHuff := w.acHuff[t.index := Some(t.spec)], acSent := w.acSent[t.index := false])
               else w.(dcHuff := w.dcHuff[t.index := Some(t.spec)], dcSent := w.dcSent[t.index := false]), ts[1..])
  }

  lemma {:induction false} ReplacedTables(im: Image, w: Writer, r: Reader, ts: seq<NewTable>)
    requires im.Valid() && w.Valid() && r.Valid() && Agree(im, w, r) && ValidTables(ts)
    ensures Agree(im, Replaced(w, ts), r)
    decreases |ts|
  {
    hide Agree, Sendable, Orders.Valid, SendableFrame;
    if ts != [] {
      var t := ts[0];
      ReplacedTable(im, w, r, t.ac, t.index, t.spec);
      var w1 := if t.ac then w.(acHuff := w.acHuff[t.index := Some(t.spec)], acSent := w.acSent[t.index := false])
                else w.(dcHuff := w.dcHuff[t.index := Some(t.spec)], dcSent := w.dcSent[t.index := false]);
      assert forall i :: 0 <= i < |ts[1..]| ==> ts[1..][i] == ts[i + 1];
      ReplacedTables(im, w1, r, ts[1..]);
    }
  }

  /** A scan, and the tables that are replaced before it. */
  datatype Step = Step(tables: seq<NewTable>, sc: ScanSetup)

  /** Every header is written, and none is one that the reader takes for something else or refuses. */
  ghost predicate AllWritten(im: Image, w: Writer, steps: seq<Step>)
    requires im.Valid() && w.Valid()
    decreases |steps|
  {
    steps == [] ||
      (&& ValidTables(steps[0].tables) && steps[0].sc.Valid(im) && AllFirst(im, steps[0].sc)
       && var w1 := Replaced(w, steps[0].tables);
          && WriteScanHeader(im, w1, steps[0].sc).Wrote?
          && (im.kind.arith ==> AllAcceptable(Conds(w1, steps[0].sc, NUM_ARITH_TBLS)))
          && AllWritten(im, WriteScanHeader(im, w1, steps[0].sc).w, steps[1..]))
  }

  /** Header after header, the reader knows the scan and has what it needs. */
  ghost predicate AllRead(im: Image, w: Writer, r: Reader, steps: seq<Step>)
    requires im.Valid() && w.Valid() && r.Valid() && AllWritten(im, w, steps)
    decreases |steps|
  {
    steps == [] ||
      (var sc, w1 := steps[0].sc, Replaced(w, steps[0].tables);
       var x := WriteScanHeader(im, w1, sc);
       exists r1: Reader ::
         && r1.Valid() && r1.frame == im.frame && Leads(im, x.bytes, r, r1) && KnowsScan(im, sc, r1)
         && r1.restartInterval == sc.restartInterval
         && (if im.kind.arith then HasConds(w1, sc, r1, NUM_ARITH_TBLS) else HasTables(w1, sc, r1))
         && AllRead(im, x.w, r1, steps[1..]))
  }

  /** All scans of a file: although tables are sent only once, and are replaced between scans, the reader has for every scan
      the tables or the conditioning that the writer has. */
  lemma {:induction false} AllScanHeadersAreRead(im: Image, w: Writer, r: Reader, steps: seq<Step>)
    requires im.Valid() && w.Valid() && r.Valid() && Agree(im, w, r) && AllWritten(im, w, steps)
    requires r.sawSof && r.kind == im.kind && r.frame == im.frame
    ensures AllRead(im, w, r, steps)
    decreases |steps|
  {
    hide Agree, ReadMarkers, SendableFrame, Orders.Valid, WriteScanHeader, KnowsScan, AllFirst, AllAcceptable, Conds, HasConds,
         HasTables, Replaced;
    if steps != [] {
      var sc, w1 := steps[0].sc, Replaced(w, steps[0].tables);
      ReplacedTables(im, w, r, steps[0].tables);
      var r1 := ScanHeaderIsRead(im, w1, r, sc);
      var x := WriteScanHeader(im, w1, sc);
      assert Leads(im, x.bytes, r, r1);
      AllScanHeadersAreRead(im, x.w, r1, steps[1..]);
    }
  }

  // ---------------------------------------------------------------- the block size

  /** How the reader derives the block size at the first scan (initial_setup in jdinput.c). */
  function BlockSizeSeen(r: Reader): Option<nat> {
    if r.kind.baseline || (r.kind.progressive && r.scan.cis != []) then Some(8)
    else if r.scan.se == 0 then Some(1) else if r.scan.se == 3 then Some(2) else if r.scan.se == 8 then Some(3)
    else if r.scan.se == 15 then Some(4) else if r.scan.se == 24 then Some(5) else if r.scan.se == 35 then Some(6)
    else if r.scan.se == 48 then Some(7) else if r.scan.se == 63 then Some(8) else if r.scan.se == 80 then Some(9)
    else if r.scan.se == 99 then Some(10) else if r.scan.se == 120 then Some(11) else if r.scan.se == 143 then Some(12)
    else if r.scan.se == 168 then Some(13) else if r.scan.se == 195 then Some(14) else if r.scan.se == 224 then Some(15)
    else if r.scan.se == 255 then Some(16) else None
  }

  /** The block size that the writer has used is what the reader derives: for a sequential image from the scan header,
      whose last coefficient number select_scan_parameters computes from the block size; for a progressive image of
      reduced block size from the pseudo scan header. */
  lemma BlockSizeIsSeen(im: Image, sc: ScanSetup, r: Reader)
    requires im.Valid() && sc.Valid(im) && r.kind == im.kind
    requires im.kind.baseline ==> im.blockSize == 8
    requires if NeedsPseudo(im) then r.scan == PseudoScan(im.blockSize) else |r.scan.cis| == |sc.comps| && r.scan.se == sc.se
    requires !im.kind.progressive ==> sc.se == im.blockSize * im.blockSize - 1
    ensures BlockSizeSeen(r) == Some(im.blockSize)
  {
    hide SendableFrame, Orders.Valid;
    BlockSizeFits(im.blockSize);
    var b := im.blockSize;
    assert b == 1 || b == 2 || b == 3 || b == 4 || b == 5 || b == 6 || b == 7 || b == 8 || b == 9 || b == 10 || b == 11
        || b == 12 || b == 13 || b == 14 || b == 15 || b == 16;
  }
}
