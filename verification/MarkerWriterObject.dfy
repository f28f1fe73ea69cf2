/** The marker writer as it runs (jcmarker.c): bytes are appended one by one, tables are marked as sent. */
module MarkerWriterObject {
  import opened Limits
  import opened Wrappers
  import opened EstimationTable
  import opened HeaderFormat
  import opened HeaderSegments
  import opened HeaderProtocol
  import opened HeaderRoundTrip
  import opened Seqs

  class MarkerWriter {
    const im: Image
    // dc_tbl_no and ac_tbl_no of the components of the frame.
    const tableNumbers: seq<(nat, nat)>
    var out: seq<byte>
    var quant: seq<Option<QuantTable>>
    var quantSent: seq<bool>
    var dcHuff: seq<Option<HuffSpec>>
    var dcSent: seq<bool>
    var acHuff: seq<Option<HuffSpec>>
    var acSent: seq<bool>
    var dcL: seq<nat>
    var dcU: seq<nat>
    var acK: seq<nat>
    var lastRestart: nat

    ghost function State(): Writer
      reads this
    {
      Writer(quant, quantSent, dcHuff, dcSent, acHuff, acSent, dcL, dcU, acK, lastRestart)
    }

    ghost predicate Ready()
      reads this
    {
      im.Valid() && State().Valid() && |tableNumbers| == |im.frame.comps|
    }

    constructor (im: Image, tableNumbers: seq<(nat, nat)>, w: Writer)
      requires im.Valid() && w.Valid() && |tableNumbers| == |im.frame.comps|
      ensures Ready() && this.im == im && this.tableNumbers == tableNumbers && State() == w && out == []
    {
      this.im, this.tableNumbers := im, tableNumbers;
      quant, quantSent, dcHuff, dcSent, acHuff, acSent := w.quant, w.quantSent, w.dcHuff, w.dcSent, w.acHuff, w.acSent;
      dcL, dcU, acK, lastRestart := w.dcL, w.dcU, w.acK, w.lastRestart;
      out := [];
    }

    method EmitByte(val: byte)
      modifies this`out
      ensures out == old(out) + [val]
    {
      out := out + [val];
    }

    method EmitMarker(mark: byte)
      modifies this`out
      ensures out == old(out) + [0xFF, mark]
    {
      EmitByte(0xFF);
      EmitByte(mark);
    }

    /** Most significant byte first. */
    method Emit2Bytes(value: nat)
      requires value < 0x10000
      modifies this`out
      ensures out == old(out) + TwoBytes(value)
    {
      EmitByte(value / 256);
      EmitByte(value % 256);
    }

    /** Values of one byte or of two. */
    method EmitValues(vals: seq<nat>, wide: bool)
      requires forall i :: 0 <= i < |vals| ==> vals[i] < if wide then 0x10000 else 256
      modifies this`out
      ensures out == old(out) + ValueBytes(vals, wide)
    {
      hide TwoBytes;
      assert vals[..0] == [];
      for i := 0 to |vals|
        invariant out == old(out) + ValueBytes(vals[..i], wide)
      {
        OneValueMore(vals, i, wide);
        Assoc(old(out), ValueBytes(vals[..i], wide), if wide then TwoBytes(vals[i]) else [vals[i]]);
        if wide { Emit2Bytes(vals[i]); } else { EmitByte(vals[i]); }
      }
      assert vals[..|vals|] == vals;
    }

    static lemma {:induction false} OneValueMore(vals: seq<nat>, i: nat, wide: bool)
      requires i < |vals| && forall k :: 0 <= k < |vals| ==> vals[k] < if wide then 0x10000 else 256
      ensures ValueBytes(vals[..i + 1], wide) == ValueBytes(vals[..i], wide) + if wide then TwoBytes(vals[i]) else [vals[i]]
      decreases i
    {
      hide TwoBytes;
      if i == 0 {
        assert vals[..1] == [vals[0]] && [vals[0]][1..] == [] && vals[..0] == [];
      } else {
        OneValueMore(vals[1..], i - 1, wide);
        assert vals[..i + 1][1..] == vals[1..][..i] && vals[..i][1..] == vals[1..][..i - 1];
        Assoc(if wide then TwoBytes(vals[0]) else [vals[0]], ValueBytes(vals[1..][..i - 1], wide),
              if wide then TwoBytes(vals[i]) else [vals[i]]);
      }
    }

    /** The values of a table, in zigzag order. */
    method EmitZigzag(q: QuantTable, wide: bool)
      requires Ready() && SixteenBits(q) && wide == IsWide(Zigzag(im.os, q, im.blockSize))
      modifies this`out
      ensures SixteenBits(Zigzag(im.os, q, im.blockSize))
      ensures var vals := Zigzag(im.os, q, im.blockSize);
              && (forall k :: 0 <= k < |vals| ==> vals[k] < if wide then 0x10000 else 256)
              && out == old(out) + ValueBytes(vals, wide)
    {
      hide Writer.Valid, SendableFrame, Orders.Valid, ValueBytes, IsWide;
      OrdersAgree(im.os, im.blockSize);
      ZigzagFits(im, q);
      ghost var vals := Zigzag(im.os, q, im.blockSize);
      var order, n := im.os.OfBlockSize(im.blockSize), Coefficients(im.blockSize);
      EmptyValues(wide);
      assert vals[..0] == [] && out + [] == out;
      ValuesFit(vals, wide);
      for i := 0 to n
        invariant out == old(out) + ValueBytes(vals[..i], wide)
      {
        OneValueMore(vals, i, wide);
        Assoc(old(out), ValueBytes(vals[..i], wide), if wide then TwoBytes(vals[i]) else [vals[i]]);
        var qval := q[order[i]];
        if wide { EmitByte(qval / 256); }
        EmitByte(qval % 256);
        assert wide ==> TwoBytes(vals[i]) == [qval / 256] + [qval % 256];
      }
      assert vals[..n] == vals;
    }

    method NeedsSixteenBits(q: QuantTable) returns (wide: bool)
      requires im.Valid()
      ensures wide == IsWide(Zigzag(im.os, q, im.blockSize))
    {
      hide SendableFrame, Orders.Valid;
      OrdersAgree(im.os, im.blockSize);
      ghost var vals := Zigzag(im.os, q, im.blockSize);
      var order := im.os.OfBlockSize(im.blockSize);
      wide := false;
      for i := 0 to Coefficients(im.blockSize)
        invariant wide <==> exists k :: 0 <= k < i && vals[k] > 255
      {
        assert vals[i] == q[order[i]];
        if q[order[i]] > 255 { wide := true; }
      }
    }

    /** emit_dqt. Tells whether the table needs sixteen bits. */
    method EmitDqt(index: nat) returns (ok: bool, wide: bool)
      requires Ready()
      modifies this`out, this`quantSent
      ensures Ready()
      ensures match HeaderRoundTrip.EmitDqt(im, old(State()), index)
              case Missing => !ok && out == old(out) && State() == old(State())
              case Wrote(bytes, w) =>
                && ok && out == old(out) + bytes && State() == w && w.quant[index].Some?
                && wide == IsWide(Zigzag(im.os, w.quant[index].value, im.blockSize))
    {
      hide SixteenBits, Sendable, SendableFrame, Orders.Valid, ValueBytes, IsWide, Zigzag, TwoBytes;
      ok, wide := true, false;
      if index >= NUM_QUANT_TBLS || quant[index].None? { return false, false; }
      var q := quant[index].value;
      OrdersAgree(im.os, im.blockSize);
      ZigzagFits(im, q);
      ghost var vals := Zigzag(im.os, q, im.blockSize);
      var n := Coefficients(im.blockSize);
      wide := NeedsSixteenBits(q);
      if !quantSent[index] {
        EmitMarker(DQT);
        Emit2Bytes(if wide then 2 * n + 3 else n + 3);
        EmitByte(index + if wide then 16 else 0);
        EmitZigzag(q, wide);
        Assoc4(old(out), [0xFF, DQT], TwoBytes(if wide then 2 * n + 3 else n + 3) + [index + if wide then 16 else 0], ValueBytes(vals, wide));
        quantSent := quantSent[index := true];
      }
    }

    static lemma EmptyValues(wide: bool)
      ensures ValueBytes([], wide) == []
    {
    }

    static lemma ValuesFit(vals: seq<nat>, wide: bool)
      requires SixteenBits(vals) && wide == IsWide(vals)
      ensures forall k :: 0 <= k < |vals| ==> vals[k] < if wide then 0x10000 else 256
    {
    }

    /** emit_dht. */
    method EmitDht(index: nat, isAc: bool) returns (ok: bool)
      requires Ready()
      modifies this`out, this`dcSent, this`acSent
      ensures Ready()
      ensures match HeaderRoundTrip.EmitDht(old(State()), isAc, index)
              case Missing => !ok && out == old(out) && State() == old(State())
              case Wrote(bytes, w) => ok && out == old(out) + bytes && State() == w
    {
      hide SixteenBits, SendableFrame, Orders.Valid, ValueBytes, Sum, TwoBytes;
      if index >= NUM_HUFF_TBLS || (if isAc then acHuff[index] else dcHuff[index]).None? { return false; }
      ok := true;
      var h := (if isAc then acHuff[index] else dcHuff[index]).value;
      if !(if isAc then acSent[index] else dcSent[index]) {
        EmitMarker(DHT);
        var length := SumOf(h.bits);
        Emit2Bytes(length + 2 + 1 + 16);
        EmitByte(index + if isAc then 16 else 0);
        EmitValues(h.bits, false);
        EmitValues(h.huffval[..length], false);
        assert h.huffval[..length] == h.huffval;
        DhtAppended(old(out), isAc, index, h);
        if isAc { acSent := acSent[index := true]; } else { dcSent := dcSent[index := true]; }
      }
    }

    /** How many values follow the counts. */
    method SumOf(bits: seq<nat>) returns (length: nat)
      requires |bits| == 16
      ensures length == Sum(bits)
    {
      hide Sum;
      length := 0;
      NoSum();
      for i := 0 to 16
        invariant length == Sum(bits[..i])
      {
        OneMore(bits, i);
        length := length + bits[i];
      }
      assert bits[..16] == bits;
    }

    static lemma NoSum()
      ensures Sum([]) == 0
    {
    }

    static lemma OneMore(bits: seq<nat>, i: nat)
      requires i < |bits|
      ensures Sum(bits[..i + 1]) == Sum(bits[..i]) + bits[i] && bits[..0] == []
    {
      assert bits[..i + 1][..i] == bits[..i];
    }

    static lemma DhtAppended(out: seq<byte>, ac: bool, index: nat, h: HuffSpec)
      requires index < NUM_HUFF_TBLS && Sendable(h)
      ensures ((((out + [0xFF, DHT]) + TwoBytes(|h.huffval| + 19)) + [index + if ac then 16 else 0]) + ValueBytes(h.bits, false))
                + ValueBytes(h.huffval, false)
           == out + ([0xFF, DHT] + DhtBytes(ac, index, h))
    {
      hide TwoBytes, ValueBytes, Sum;
    }

    /** emit_dac. */
    method EmitDac(sc: ScanSetup)
      requires Ready() && sc.Valid(im)
      modifies this`out
      ensures out == old(out) + ([0xFF, DAC] + DacBytes(Conds(State(), sc, NUM_ARITH_TBLS)))
    {
      hide SixteenBits, Sendable, SendableFrame, Orders.Valid, TwoBytes, DacPairs, Conds, DacPair;
      var dcInUse, acInUse := TablesInUse(sc);
      ghost var w := State();
      var length := CountInUse(sc, dcInUse, acInUse);
      EmitMarker(DAC);
      Emit2Bytes(length * 2 + 2);
      EmitConds(sc, dcInUse, acInUse);
      ghost var ds := Conds(w, sc, NUM_ARITH_TBLS);
      Assoc4(old(out), [0xFF, DAC], TwoBytes(2 * |ds| + 2), DacPairs(ds));
      assert old(out) + [0xFF, DAC] + TwoBytes(2 * |ds| + 2) + DacPairs(ds)
          == old(out) + ([0xFF, DAC] + (TwoBytes(2 * |ds| + 2) + DacPairs(ds)));
    }

    static predicate InUse(sc: ScanSetup, dcInUse: seq<bool>, acInUse: seq<bool>) {
      && |dcInUse| == |acInUse| == NUM_ARITH_TBLS
      && forall t :: 0 <= t < NUM_ARITH_TBLS ==> (dcInUse[t] <==> UsesDc(sc, t)) && (acInUse[t] <==> UsesAc(sc, t))
    }

    /** Which tables the scan uses. */
    method TablesInUse(sc: ScanSetup) returns (dcInUse: seq<bool>, acInUse: seq<bool>)
      requires im.Valid() && sc.Valid(im)
      ensures InUse(sc, dcInUse, acInUse)
    {
      hide SendableFrame, Orders.Valid;
      dcInUse, acInUse := seq(NUM_ARITH_TBLS, _ => false), seq(NUM_ARITH_TBLS, _ => false);
      for i := 0 to |sc.comps|
        invariant |dcInUse| == |acInUse| == NUM_ARITH_TBLS
        invariant forall t :: 0 <= t < NUM_ARITH_TBLS ==>
                    (dcInUse[t] <==> sc.NeedsDc() && exists k :: 0 <= k < i && sc.comps[k].dcTbl == t)
        invariant forall t :: 0 <= t < NUM_ARITH_TBLS ==>
                    (acInUse[t] <==> sc.NeedsAc() && exists k :: 0 <= k < i && sc.comps[k].acTbl == t)
      {
        var c := sc.comps[i];
        if sc.ss == 0 && sc.ah == 0 { dcInUse := dcInUse[c.dcTbl := true]; }
        if sc.se != 0 { acInUse := acInUse[c.acTbl := true]; }
      }
    }

    method CountInUse(sc: ScanSetup, dcInUse: seq<bool>, acInUse: seq<bool>) returns (length: nat)
      requires Ready() && InUse(sc, dcInUse, acInUse)
      ensures length == |Conds(State(), sc, NUM_ARITH_TBLS)|
    {
      hide SixteenBits, Sendable, SendableFrame, Orders.Valid, DacPairs, Conds, UsesDc, UsesAc;
      length := 0;
      NoConditions(State(), sc);
      for i := 0 to NUM_ARITH_TBLS
        invariant length == |Conds(State(), sc, i)|
      {
        OneTableMore(State(), sc, i);
        length := length + (if dcInUse[i] then 1 else 0) + if acInUse[i] then 1 else 0;
      }
    }

    /** The conditioning of the tables in use. */
    method EmitConds(sc: ScanSetup, dcInUse: seq<bool>, acInUse: seq<bool>)
      requires Ready() && InUse(sc, dcInUse, acInUse)
      modifies this`out
      ensures out == old(out) + DacPairs(Conds(State(), sc, NUM_ARITH_TBLS))
    {
      hide SixteenBits, Sendable, SendableFrame, Orders.Valid, DacPairs, Conds, UsesDc, UsesAc;
      ghost var w, before := State(), out;
      NoConditions(w, sc);
      assert out + [] == out;
      for i := 0 to NUM_ARITH_TBLS
        invariant State() == w && out == before + DacPairs(Conds(w, sc, i))
      {
        OneTableMore(w, sc, i);
        ghost var was := out;
        if dcInUse[i] {
          EmitByte(i);
          EmitByte(dcL[i] + 16 * dcU[i]);
        }
        if acInUse[i] {
          EmitByte(i + 0x10);
          EmitByte(acK[i]);
        }
        PairsOf(w, sc, i, was, out);
        Assoc(before, DacPairs(Conds(w, sc, i)), DacPairs(TableConds(w, sc, i)));
      }
    }

    /** The conditioning of table `i`, as far as the scan uses it. */
    static ghost function TableConds(w: Writer, sc: ScanSetup, i: nat): (ds: seq<DacDef>)
      requires w.Valid() && i < NUM_ARITH_TBLS
      ensures forall k :: 0 <= k < |ds| ==> Fits(ds[k])
      ensures |ds| == (if UsesDc(sc, i) then 1 else 0) + (if UsesAc(sc, i) then 1 else 0)
    {
      (if UsesDc(sc, i) then [DcCond(i, w.dcL[i], w.dcU[i])] else []) + (if UsesAc(sc, i) then [AcCond(i, w.acK[i])] else [])
    }

    static lemma NoConditions(w: Writer, sc: ScanSetup)
      requires w.Valid()
      ensures Conds(w, sc, 0) == [] && DacPairs([]) == []
    {
    }

    static lemma OneTableMore(w: Writer, sc: ScanSetup, i: nat)
      requires w.Valid() && i < NUM_ARITH_TBLS
      ensures Conds(w, sc, i + 1) == Conds(w, sc, i) + TableConds(w, sc, i)
      ensures DacPairs(Conds(w, sc, i + 1)) == DacPairs(Conds(w, sc, i)) + DacPairs(TableConds(w, sc, i))
    {
      hide UsesDc, UsesAc, DacPairs;
      PairsConcat(Conds(w, sc, i), TableConds(w, sc, i));
    }

    static lemma {:induction false} PairsConcat(a: seq<DacDef>, b: seq<DacDef>)
      requires (forall i :: 0 <= i < |a| ==> Fits(a[i])) && (forall i :: 0 <= i < |b| ==> Fits(b[i]))
      requires forall i :: 0 <= i < |a + b| ==> Fits((a + b)[i])
      ensures DacPairs(a + b) == DacPairs(a) + DacPairs(b)
      decreases |a|
    {
      hide DacPair;
      if a == [] {
        assert a + b == b;
      } else {
        assert (a + b)[1..] == a[1..] + b;
        PairsConcat(a[1..], b);
        Assoc(DacPair(a[0]), DacPairs(a[1..]), DacPairs(b));
      }
    }

    static lemma PairsOf(w: Writer, sc: ScanSetup, i: nat, was: seq<byte>, out: seq<byte>)
      requires w.Valid() && i < NUM_ARITH_TBLS
      requires out == (was + if UsesDc(sc, i) then [i, w.dcL[i] + 16 * w.dcU[i]] else []) + if UsesAc(sc, i) then [i + 16, w.acK[i]] else []
      ensures out == was + DacPairs(TableConds(w, sc, i))
    {
      hide UsesDc, UsesAc, SixteenBits, Sendable, DacPairs;
      var a, b := DcCond(i, w.dcL[i], w.dcU[i]), AcCond(i, w.acK[i]);
      PairsAre(a, b);
      var ds := TableConds(w, sc, i);
      if UsesDc(sc, i) {
        if UsesAc(sc, i) {
          assert ds == [a, b];
          assert out == was + (DacPair(a) + DacPair(b));
        } else {
          assert ds == [a];
        }
      } else if UsesAc(sc, i) {
        assert ds == [b];
      } else {
        assert ds == [];
      }
    }

    static lemma PairsAre(a: DacDef, b: DacDef)
      requires Fits(a) && Fits(b)
      ensures DacPairs([]) == [] && DacPairs([a]) == DacPair(a) && DacPairs([b]) == DacPair(b)
      ensures DacPairs([a, b]) == DacPair(a) + DacPair(b)
    {
      hide DacPair;
      assert [a][1..] == [] && [b][1..] == [] && [a, b][1..] == [b];
      assert DacPairs([]) == [];
      assert DacPair(a) + [] == DacPair(a) && DacPair(b) + [] == DacPair(b);
    }

    /** emit_dri. */
    method EmitDri(restartInterval: nat)
      requires restartInterval < 0x10000
      modifies this`out
      ensures out == old(out) + ([0xFF, DRI] + DriBytes(restartInterval))
    {
      hide TwoBytes;
      EmitMarker(DRI);
      Emit2Bytes(4);
      Emit2Bytes(restartInterval);
      assert ((old(out) + [0xFF, DRI]) + TwoBytes(4)) + TwoBytes(restartInterval)
          == old(out) + ([0xFF, DRI] + (TwoBytes(4) + TwoBytes(restartInterval)));
    }

    /** emit_sof. */
    method EmitSof(code: byte)
      requires Ready()
      modifies this`out
      ensures out == old(out) + ([0xFF, code] + SofBytes(im.frame))
    {
      hide TwoBytes, Writer.Valid, Orders.Valid, FrameCompBytes;
      var f := im.frame;
      EmitMarker(code);
      Emit2Bytes(3 * |f.comps| + 2 + 5 + 1);
      EmitByte(f.precision);
      Emit2Bytes(f.height);
      Emit2Bytes(f.width);
      EmitByte(|f.comps|);
      ghost var before := out;
      assert f.comps[..0] == [] && before + [] == before;
      NoComps();
      for ci := 0 to |f.comps|
        invariant out == before + FrameCompBytes(f.comps[..ci])
      {
        var c := f.comps[ci];
        assert SendableFrameComp(c);
        OneFrameCompMore(f.comps, ci);
        EmitByte(c.id);
        EmitByte(16 * c.h + c.v);
        EmitByte(c.tq);
        Assoc(before, FrameCompBytes(f.comps[..ci]), [c.id, 16 * c.h + c.v, c.tq]);
      }
      assert f.comps[..|f.comps|] == f.comps;
      SofAppended(old(out), code, f);
    }

    static lemma NoComps()
      ensures FrameCompBytes([]) == [] && ScanCompBytes([]) == []
    {
    }

    static lemma {:induction false} OneFrameCompMore(cs: seq<FrameComp>, i: nat)
      requires i < |cs| && forall k :: 0 <= k < |cs| ==> SendableFrameComp(cs[k])
      ensures FrameCompBytes(cs[..i + 1]) == FrameCompBytes(cs[..i]) + [cs[i].id, 16 * cs[i].h + cs[i].v, cs[i].tq]
      decreases i
    {
      if i == 0 {
        assert cs[..1] == [cs[0]] && [cs[0]][1..] == [] && cs[..0] == [];
      } else {
        OneFrameCompMore(cs[1..], i - 1);
        assert cs[..i + 1][1..] == cs[1..][..i] && cs[..i][1..] == cs[1..][..i - 1];
      }
    }

    static lemma SofAppended(out: seq<byte>, code: byte, f: FrameHead)
      requires SendableFrame(f)
      ensures ((((((out + [0xFF, code]) + TwoBytes(3 * |f.comps| + 8)) + [f.precision]) + TwoBytes(f.height)) + TwoBytes(f.width))
                + [|f.comps|]) + FrameCompBytes(f.comps)
           == out + ([0xFF, code] + SofBytes(f))
    {
      hide TwoBytes, FrameCompBytes;
    }

    /** emit_sos and emit_pseudo_sos. */
    method EmitSos(sc: ScanSetup)
      requires Ready() && sc.Valid(im)
      modifies this`out
      ensures out == old(out) + ([0xFF, SOS] + SosBytes(Head(im, sc)))
    {
      hide TwoBytes, Writer.Valid, Orders.Valid, SendableFrame, ScanCompBytes;
      ghost var h := Head(im, sc);
      EmitMarker(SOS);
      Emit2Bytes(2 * |sc.comps| + 2 + 1 + 3);
      EmitByte(|sc.comps|);
      ghost var before := out;
      assert h.comps[..0] == [] && before + [] == before;
      NoComps();
      for i := 0 to |sc.comps|
        invariant out == before + ScanCompBytes(h.comps[..i])
      {
        var c := sc.comps[i];
        OneScanCompMore(h.comps, i);
        assert h.comps[i] == HeadComp(im, sc, c);
        EmitByte(im.frame.comps[c.ci].id);
        var td := if sc.ss == 0 && sc.ah == 0 then c.dcTbl else 0;
        var ta := if sc.se != 0 then c.acTbl else 0;
        EmitByte(16 * td + ta);
        Assoc(before, ScanCompBytes(h.comps[..i]), [h.comps[i].id, 16 * h.comps[i].td + h.comps[i].ta]);
      }
      assert h.comps[..|h.comps|] == h.comps;
      EmitByte(sc.ss);
      EmitByte(sc.se);
      EmitByte(16 * sc.ah + sc.al);
      SosAppended(old(out), h);
    }

    static lemma {:induction false} OneScanCompMore(cs: seq<ScanComp>, i: nat)
      requires i < |cs| && forall k :: 0 <= k < |cs| ==> SendableScanComp(cs[k])
      ensures ScanCompBytes(cs[..i + 1]) == ScanCompBytes(cs[..i]) + [cs[i].id, 16 * cs[i].td + cs[i].ta]
      decreases i
    {
      if i == 0 {
        assert cs[..1] == [cs[0]] && [cs[0]][1..] == [] && cs[..0] == [];
      } else {
        OneScanCompMore(cs[1..], i - 1);
        assert cs[..i + 1][1..] == cs[1..][..i] && cs[..i][1..] == cs[1..][..i - 1];
      }
    }

    static lemma SosAppended(out: seq<byte>, h: ScanHead)
      requires SendableScan(h)
      ensures ((((((out + [0xFF, SOS]) + TwoBytes(2 * |h.comps| + 6)) + [|h.comps|]) + ScanCompBytes(h.comps)) + [h.ss]) + [h.se])
                + [16 * h.ah + h.al]
           == out + ([0xFF, SOS] + SosBytes(h))
    {
      hide TwoBytes, ScanCompBytes;
    }

    method EmitPseudoSos()
      requires Ready()
      modifies this`out
      ensures SendableScan(PseudoHead(im.blockSize))
      ensures out == old(out) + ([0xFF, SOS] + SosBytes(PseudoHead(im.blockSize)))
    {
      hide TwoBytes, Writer.Valid, Orders.Valid, SendableFrame;
      BlockSizeFits(im.blockSize);
      NoComps();
      EmitMarker(SOS);
      Emit2Bytes(2 + 1 + 3);
      EmitByte(0);
      EmitByte(0);
      EmitByte(im.blockSize * im.blockSize - 1);
      EmitByte(0);
      ghost var h := PseudoHead(im.blockSize);
      assert SosBytes(h) == TwoBytes(6) + ([0] + ([] + [0, h.se, 0]));
    }

    // -------------------------------------------------------------- headers

    /** What makes a frame a baseline frame. */
    predicate IsBaseline(wide: bool) {
      && !im.kind.arith && !im.kind.progressive && im.frame.precision == 8 && im.blockSize == 8
      && (forall ci :: 0 <= ci < |tableNumbers| ==> tableNumbers[ci].0 <= 1 && tableNumbers[ci].1 <= 1)
      && !wide
    }

    /** A quantisation table of the frame needs sixteen bits. */
    ghost predicate SomeWide(n: nat)
      reads this
      requires im.Valid() && n <= |im.frame.comps| && |quant| == NUM_QUANT_TBLS
    {
      exists ci :: 0 <= ci < n && WideTable(im.frame.comps[ci].tq)
    }

    ghost predicate WideTable(index: nat)
      reads this
      requires im.Valid() && |quant| == NUM_QUANT_TBLS
    {
      index < NUM_QUANT_TBLS && quant[index].Some? && IsWide(Zigzag(im.os, quant[index].value, im.blockSize))
    }

    /** The tables of all components; `prec`: one of them needs sixteen bits. */
    method EmitQuantTables() returns (ok: bool, prec: bool)
      requires Ready()
      modifies this`out, this`quantSent
      ensures Ready()
      ensures match EmitDqts(im, old(State()), im.frame.comps)
              case Missing => !ok
              case Wrote(bytes, w) => ok && out == old(out) + bytes && State() == w && (prec <==> old(SomeWide(|im.frame.comps|)))
    {
      hide SixteenBits, Sendable, SendableFrame, Orders.Valid, HeaderRoundTrip.EmitDqt, EmitDqts, IsWide, Zigzag;
      ghost var w0, quant0, comps := State(), quant, im.frame.comps;
      ghost var bytes: seq<byte> := [];
      prec := false;
      ok := true;
      assert comps[0..] == comps && out + [] == out;
      NothingBefore(EmitDqts(im, w0, comps));
      for ci := 0 to |im.frame.comps|
        invariant ok && Ready() && out == old(out) + bytes && quant == quant0
        invariant EmitDqts(im, w0, comps) == After(bytes, EmitDqts(im, State(), comps[ci..]))
        invariant prec <==> SomeWide(ci)
        modifies this`out, this`quantSent
      {
        FirstDqt(im, State(), comps[ci..]);
        assert comps[ci..][1..] == comps[ci + 1..] && comps[ci..][0] == comps[ci];
        ghost var was := State();
        ghost var x := HeaderRoundTrip.EmitDqt(im, was, comps[ci].tq);
        var wide;
        ok, wide := EmitDqt(im.frame.comps[ci].tq);
        if !ok { return; }
        IndexInRange(im, was, comps[ci].tq);
        Assoc(old(out), bytes, x.bytes);
        AfterTwice(bytes, x.bytes, EmitDqts(im, x.w, comps[ci + 1..]));
        bytes := bytes + x.bytes;
        assert WideTable(comps[ci].tq) == wide;
        prec := prec || wide;
      }
      NoDqts(im, State(), comps[|comps|..]);
      assert bytes + [] == bytes;
      assert quant == old(quant);
    }

    /** The check for a non-baseline specification. */
    method CheckBaseline(prec: bool) returns (isBaseline: bool)
      ensures isBaseline == IsBaseline(prec)
    {
      if im.kind.arith || im.kind.progressive || im.frame.precision != 8 || im.blockSize != 8 {
        isBaseline := false;
      } else {
        isBaseline := true;
        for k := 0 to |tableNumbers|
          invariant isBaseline <==> forall j :: 0 <= j < k ==> tableNumbers[j].0 <= 1 && tableNumbers[j].1 <= 1
        {
          if tableNumbers[k].0 > 1 || tableNumbers[k].1 > 1 { isBaseline := false; }
        }
        if prec && isBaseline { isBaseline := false; }
      }
    }

    /** The SOF code as the fields determine it: a baseline frame has eight-bit samples in blocks of eight, entropy-coding
        tables 0 and 1 only, and no value above 255 among the ones sent of its quantisation tables. */
    lemma CodeOfFrame()
      requires Ready() && (im.kind.baseline <==> IsBaseline(SomeWide(|im.frame.comps|)))
      ensures SofCode(im.kind) == 0xC0 <==>
                && !im.kind.arith && !im.kind.progressive && im.frame.precision == 8 && im.blockSize == 8
                && forall ci :: 0 <= ci < |im.frame.comps| ==>
                     && tableNumbers[ci].0 < 2 && tableNumbers[ci].1 < 2
                     && (im.frame.comps[ci].tq < 4 && quant[im.frame.comps[ci].tq].Some? ==>
                           forall i :: 0 <= i < |Zigzag(im.os, quant[im.frame.comps[ci].tq].value, im.blockSize)| ==>
                             Zigzag(im.os, quant[im.frame.comps[ci].tq].value, im.blockSize)[i] < 256)
      ensures SofCode(im.kind) == 0xC1 <==> !im.kind.arith && !im.kind.progressive && SofCode(im.kind) != 0xC0
      ensures SofCode(im.kind) == 0xC2 <==> !im.kind.arith && im.kind.progressive
      ensures SofCode(im.kind) == 0xC9 <==> im.kind.arith && !im.kind.progressive
      ensures SofCode(im.kind) == 0xCA <==> im.kind.arith && im.kind.progressive
    {
      hide Zigzag, SixteenBits, Sendable, Orders.Valid;
    }

    /** write_frame_header. */
    method WriteFrameHeader() returns (ok: bool)
      requires Ready() && (im.kind.baseline <==> IsBaseline(SomeWide(|im.frame.comps|)))
      modifies this`out, this`quantSent
      ensures Ready()
      ensures match HeaderRoundTrip.WriteFrameHeader(im, old(State()))
              case Missing => !ok
              case Wrote(bytes, w) => ok && out == old(out) + bytes && State() == w
    {
      hide SixteenBits, Sendable, SendableFrame, Orders.Valid, EmitDqts, SofBytes, SosBytes, SomeWide, IsBaseline;
      var prec;
      ok, prec := EmitQuantTables();
      if !ok { return; }
      var isBaseline := CheckBaseline(prec);
      ghost var a := EmitDqts(im, old(State()), im.frame.comps).bytes;
      if im.kind.arith {
        if im.kind.progressive { EmitSof(SOF10); } else { EmitSof(SOF9); }
      } else if im.kind.progressive {
        EmitSof(SOF2);
      } else if isBaseline {
        EmitSof(SOF0);
      } else {
        EmitSof(SOF1);
      }
      ghost var b := [0xFF, SofCode(im.kind)] + SofBytes(im.frame);
      assert out == (old(out) + a) + b;
      ghost var c: seq<byte> := [];
      assert out + [] == out;
      if im.kind.progressive && im.blockSize != 8 {
        c := [0xFF, SOS] + SosBytes(PseudoHead(im.blockSize));
        EmitPseudoSos();
      }
      assert ((old(out) + a) + b) + c == old(out) + ((a + b) + c);
    }

    static lemma NothingBefore(x: Written)
      ensures After([], x) == x
    {
      if x.Wrote? { assert [] + x.bytes == x.bytes; }
    }

    /** What is in front of the rest. */
    static ghost function After(bytes: seq<byte>, x: Written): Written {
      match x
      case Missing => Missing
      case Wrote(more, w) => Wrote(bytes + more, w)
    }

    static lemma AfterTwice(a: seq<byte>, b: seq<byte>, x: Written)
      ensures After(a, After(b, x)) == After(a + b, x)
    {
      if x.Wrote? { Assoc(a, b, x.bytes); }
    }

    static lemma FirstDqt(im: Image, w: Writer, cs: seq<FrameComp>)
      requires im.Valid() && w.Valid() && cs != []
      ensures var x := HeaderRoundTrip.EmitDqt(im, w, cs[0].tq);
              EmitDqts(im, w, cs) == if x.Missing? then Missing else After(x.bytes, EmitDqts(im, x.w, cs[1..]))
    {
      hide HeaderRoundTrip.EmitDqt;
    }

    static lemma NoDqts(im: Image, w: Writer, cs: seq<FrameComp>)
      requires im.Valid() && w.Valid()
      ensures cs == [] ==> EmitDqts(im, w, cs) == Wrote([], w)
    {
    }

    /** write_scan_header. */
    method WriteScanHeader(sc: ScanSetup) returns (ok: bool)
      requires Ready() && sc.Valid(im)
      modifies this`out, this`dcSent, this`acSent, this`lastRestart
      ensures Ready()
      ensures match HeaderRoundTrip.WriteScanHeader(im, old(State()), sc)
              case Missing => !ok
              case Wrote(bytes, w) => ok && out == old(out) + bytes && State() == w
    {
      hide SixteenBits, Sendable, SendableFrame, Orders.Valid, EmitAllTables, DacBytes, Conds, DriBytes, SosBytes, Head;
      ok := true;
      ghost var tables := if im.kind.arith then Wrote([0xFF, DAC] + DacBytes(Conds(State(), sc, NUM_ARITH_TBLS)), State())
                          else EmitAllTables(State(), sc, sc.comps);
      if im.kind.arith {
        EmitDac(sc);
      } else {
        ok := EmitHuffTables(sc);
        if !ok { return; }
      }
      ghost var a := tables.bytes;
      assert out == old(out) + a && State() == tables.w;
      ghost var b: seq<byte> := [];
      assert out + [] == out;
      if sc.restartInterval != lastRestart {
        b := [0xFF, DRI] + DriBytes(sc.restartInterval);
        EmitDri(sc.restartInterval);
        lastRestart := sc.restartInterval;
      }
      EmitSos(sc);
      ghost var c := [0xFF, SOS] + SosBytes(Head(im, sc));
      assert ((old(out) + a) + b) + c == old(out) + (a + (b + c));
    }

    /** The Huffman tables that the scan needs and that have not been sent. */
    method EmitHuffTables(sc: ScanSetup) returns (ok: bool)
      requires Ready() && sc.Valid(im)
      modifies this`out, this`dcSent, this`acSent
      ensures Ready()
      ensures match EmitAllTables(old(State()), sc, sc.comps)
              case Missing => !ok
              case Wrote(bytes, w) => ok && out == old(out) + bytes && State() == w
    {
      hide SixteenBits, Sendable, SendableFrame, Orders.Valid, HeaderRoundTrip.EmitDht, EmitTables, EmitAllTables;
      ghost var w0 := State();
      ghost var bytes: seq<byte> := [];
      ok := true;
      assert sc.comps[0..] == sc.comps && out + [] == out;
      NothingBefore(EmitAllTables(w0, sc, sc.comps));
      for i := 0 to |sc.comps|
        invariant ok && Ready() && out == old(out) + bytes
        invariant EmitAllTables(w0, sc, sc.comps) == After(bytes, EmitAllTables(State(), sc, sc.comps[i..]))
        modifies this`out, this`dcSent, this`acSent
      {
        ghost var rest := sc.comps[i..];
        FirstTables(State(), sc, rest);
        assert rest[1..] == sc.comps[i + 1..] && rest[0] == sc.comps[i];
        ghost var x := EmitTables(State(), sc, sc.comps[i]);
        ghost var before := out;
        ok := EmitTablesOf(sc, sc.comps[i]);
        if !ok { return; }
        Assoc(old(out), bytes, x.bytes);
        AfterTwice(bytes, x.bytes, EmitAllTables(x.w, sc, sc.comps[i + 1..]));
        bytes := bytes + x.bytes;
      }
      NoTables(State(), sc, sc.comps[|sc.comps|..]);
      assert bytes + [] == bytes;
    }

    /** The tables of one component. */
    method EmitTablesOf(sc: ScanSetup, c: CompInScan) returns (ok: bool)
      requires Ready()
      modifies this`out, this`dcSent, this`acSent
      ensures Ready()
      ensures match EmitTables(old(State()), sc, c)
              case Missing => !ok
              case Wrote(bytes, w) => ok && out == old(out) + bytes && State() == w
    {
      hide SixteenBits, Sendable, SendableFrame, Orders.Valid, HeaderRoundTrip.EmitDht;
      ok := true;
      assert out + [] == out;
      if sc.ss == 0 && sc.ah == 0 {
        ok := EmitDht(c.dcTbl, false);
        if !ok { return; }
      }
      ghost var a, between := if sc.NeedsDc() then HeaderRoundTrip.EmitDht(old(State()), false, c.dcTbl).bytes else [], out;
      assert out == old(out) + a && out + [] == out;
      if sc.se != 0 {
        ghost var b := HeaderRoundTrip.EmitDht(State(), true, c.acTbl);
        ok := EmitDht(c.acTbl, true);
        if b.Wrote? { Assoc(old(out), a, b.bytes); }
      }
      assert a + [] == a;
    }

    static lemma FirstTables(w: Writer, sc: ScanSetup, cs: seq<CompInScan>)
      requires w.Valid() && cs != []
      ensures var x := EmitTables(w, sc, cs[0]);
              EmitAllTables(w, sc, cs) == if x.Missing? then Missing else After(x.bytes, EmitAllTables(x.w, sc, cs[1..]))
    {
      hide EmitTables;
    }

    static lemma NoTables(w: Writer, sc: ScanSetup, cs: seq<CompInScan>)
      requires w.Valid()
      ensures cs == [] ==> EmitAllTables(w, sc, cs) == Wrote([], w)
    {
    }
  }
}
