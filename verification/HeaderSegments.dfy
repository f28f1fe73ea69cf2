/** The other parameter segments: Huffman tables, arithmetic conditioning, restart interval, frame and scan (jcmarker.c,
    jdmarker.c). */
module HeaderSegments {
  import opened Limits
  import opened EstimationTable
  import opened HeaderFormat

  // ---------------------------------------------------------------- Huffman tables

  /** Sixteen counts of codes by length, and the symbols. */
  datatype HuffSpec = HuffSpec(bits: seq<nat>, huffval: seq<nat>)

  datatype HuffDef = HuffDef(ac: bool, index: nat, spec: HuffSpec)

  predicate IsHuffDef(d: HuffDef) { d.index < NUM_HUFF_TBLS }

  function Sum(bits: seq<nat>): nat {
    if bits == [] then 0 else Sum(bits[..|bits| - 1]) + bits[|bits| - 1]
  }

  predicate IsBytes(vs: seq<nat>) { forall i :: 0 <= i < |vs| ==> vs[i] < 256 }

  predicate Sendable(h: HuffSpec) {
    |h.bits| == 16 && IsBytes(h.bits) && IsBytes(h.huffval) && |h.huffval| == Sum(h.bits) <= 256
  }

  /** The bit worth 16 tells AC tables from DC tables. */
  function TableIndex(index: nat): (bool, nat) {
    if index / 16 % 2 == 1 then (true, index - 16) else (false, index)
  }

  /** One table of a DHT segment, and how much of the segment is left after it. */
  function DhtTable(s: seq<byte>, length: int): (x: Parsed<(HuffDef, int)>)
    requires length > 16
    ensures x.Ok? ==> |x.rest| <= |s| && IsHuffDef(x.v.0) && x.v.1 < length
  {
    hide GetByte, GetValues, Sum, TableIndex;
    var (s1, index) :- GetByte(s);
    var (s2, bits) :- GetValues(s1, 16, false);
    var count, left := Sum(bits), length - 17;
    if count > 256 || count > left then Bad
    else
      var (s3, huffval) :- GetValues(s2, count, false);
      var i := TableIndex(index);
      if i.1 >= NUM_HUFF_TBLS then Bad else Ok(s3, (HuffDef(i.0, i.1, HuffSpec(bits, huffval)), left - count))
  }

  function DhtTables(s: seq<byte>, length: int): (x: Parsed<seq<HuffDef>>)
    ensures x.Ok? ==> |x.rest| <= |s| && forall i :: 0 <= i < |x.v| ==> IsHuffDef(x.v[i])
    decreases length
  {
    hide DhtTable;
    if length <= 16 then (if length == 0 then Ok(s, []) else Bad)
    else
      var (s1, x) :- DhtTable(s, length);
      var (s2, more) :- DhtTables(s1, x.1);
      Ok(s2, [x.0] + more)
  }

  function ParseDht(s: seq<byte>): (x: Parsed<seq<HuffDef>>)
    ensures x.Ok? ==> |x.rest| <= |s| && forall i :: 0 <= i < |x.v| ==> IsHuffDef(x.v[i])
  {
    var (s1, length) :- Get2Bytes(s);
    DhtTables(s1, length - 2)
  }

  lemma DhtTableExtends(s: seq<byte>, length: int, extra: seq<byte>)
    requires length > 16
    ensures Extends(DhtTable(s, length), DhtTable(s + extra, length), extra)
  {
    hide GetByte, GetValues, Sum;
    ByteExtends(s, extra);
    var x := GetByte(s);
    if x.Ok? {
      ValuesExtend(x.rest, 16, false, extra);
      var y := GetValues(x.rest, 16, false);
      if y.Ok? { ValuesExtend(y.rest, Sum(y.v), false, extra); }
    }
  }

  lemma {:induction false} DhtTablesExtend(s: seq<byte>, length: int, extra: seq<byte>)
    ensures Extends(DhtTables(s, length), DhtTables(s + extra, length), extra)
    decreases length
  {
    hide DhtTable;
    if length > 16 {
      DhtTableExtends(s, length, extra);
      var x := DhtTable(s, length);
      if x.Ok? { DhtTablesExtend(x.rest, x.v.1, extra); }
    }
  }

  lemma DhtExtends(s: seq<byte>, extra: seq<byte>)
    ensures Extends(ParseDht(s), ParseDht(s + extra), extra)
  {
    hide Get2Bytes, DhtTables;
    TwoBytesExtend(s, extra);
    var x := Get2Bytes(s);
    if x.Ok? { DhtTablesExtend(x.rest, (x.v as int) - 2, extra); }
  }

  function DhtBytes(ac: bool, index: nat, h: HuffSpec): seq<byte>
    requires index < NUM_HUFF_TBLS && Sendable(h)
  {
    TwoBytes(|h.huffval| + 19) + ([index + if ac then 16 else 0] + (ValueBytes(h.bits, false) + ValueBytes(h.huffval, false)))
  }

  lemma DhtReads(ac: bool, index: nat, h: HuffSpec, rest: seq<byte>)
    requires index < NUM_HUFF_TBLS && Sendable(h)
    ensures ParseDht(DhtBytes(ac, index, h) + rest) == Ok(rest, [HuffDef(ac, index, h)])
  {
    hide Get2Bytes, GetByte, GetValues, ValueBytes, TwoBytes, Sum;
    var n, length := index + (if ac then 16 else 0), |h.huffval| + 19;
    var bits, vals := ValueBytes(h.bits, false), ValueBytes(h.huffval, false);
    assert DhtBytes(ac, index, h) + rest == TwoBytes(length) + ([n] + (bits + (vals + rest)));
    TwoBytesRead(length, [n] + (bits + (vals + rest)));
    ByteReads(n, bits + (vals + rest));
    ValuesRead(h.bits, false, vals + rest);
    ValuesRead(h.huffval, false, rest);
    assert DhtTables(rest, 0) == Ok(rest, []);
    assert [HuffDef(ac, index, h)] + [] == [HuffDef(ac, index, h)];
  }

  // ---------------------------------------------------------------- arithmetic conditioning

  datatype DacDef = DcCond(index: nat, l: nat, u: nat) | AcCond(index: nat, k: nat)

  predicate IsDacDef(d: DacDef) { d.index < NUM_ARITH_TBLS }

  function DacTables(s: seq<byte>, length: int): (x: Parsed<seq<DacDef>>)
    ensures x.Ok? ==> |x.rest| <= |s| && forall i :: 0 <= i < |x.v| ==> IsDacDef(x.v[i])
    decreases length
  {
    if length <= 0 then (if length == 0 then Ok(s, []) else Bad)
    else
      var (s1, index) :- GetByte(s);
      var (s2, val) :- GetByte(s1);
      if index >= 2 * NUM_ARITH_TBLS then Bad
      else if index >= NUM_ARITH_TBLS then
        var (s3, more) :- DacTables(s2, length - 2);
        Ok(s3, [AcCond(index - NUM_ARITH_TBLS, val)] + more)
      else if val % 16 > val / 16 then Bad
      else
        var (s3, more) :- DacTables(s2, length - 2);
        Ok(s3, [DcCond(index, val % 16, val / 16)] + more)
  }

  function ParseDac(s: seq<byte>): (x: Parsed<seq<DacDef>>)
    ensures x.Ok? ==> |x.rest| <= |s| && forall i :: 0 <= i < |x.v| ==> IsDacDef(x.v[i])
  {
    var (s1, length) :- Get2Bytes(s);
    DacTables(s1, length - 2)
  }

  lemma {:induction false} DacTablesExtend(s: seq<byte>, length: int, extra: seq<byte>)
    ensures Extends(DacTables(s, length), DacTables(s + extra, length), extra)
    decreases length
  {
    hide GetByte;
    if length > 0 {
      ByteExtends(s, extra);
      var x := GetByte(s);
      if x.Ok? {
        ByteExtends(x.rest, extra);
        var y := GetByte(x.rest);
        if y.Ok? { DacTablesExtend(y.rest, length - 2, extra); }
      }
    }
  }

  lemma DacExtends(s: seq<byte>, extra: seq<byte>)
    ensures Extends(ParseDac(s), ParseDac(s + extra), extra)
  {
    hide Get2Bytes, DacTables;
    TwoBytesExtend(s, extra);
    var x := Get2Bytes(s);
    if x.Ok? { DacTablesExtend(x.rest, (x.v as int) - 2, extra); }
  }

  /** Values that fit the fields of a DAC segment. */
  predicate Fits(d: DacDef) {
    d.index < NUM_ARITH_TBLS && if d.DcCond? then d.l < 16 && d.u < 16 else d.k < 256
  }

  function DacPair(d: DacDef): seq<byte>
    requires Fits(d)
  {
    match d
    case DcCond(i, l, u) => [i, l + 16 * u]
    case AcCond(i, k) => [i + 16, k]
  }

  function DacPairs(ds: seq<DacDef>): (bs: seq<byte>)
    requires forall i :: 0 <= i < |ds| ==> Fits(ds[i])
    decreases |ds|
  {
    if ds == [] then [] else DacPair(ds[0]) + DacPairs(ds[1..])
  }

  function DacBytes(ds: seq<DacDef>): seq<byte>
    requires |ds| <= 32 && forall i :: 0 <= i < |ds| ==> Fits(ds[i])
  {
    TwoBytes(2 * |ds| + 2) + DacPairs(ds)
  }

  /** The reader takes DC conditioning only if the lower bound is not above the upper one. */
  predicate Acceptable(d: DacDef) { d.DcCond? ==> d.l <= d.u }

  predicate AllAcceptable(ds: seq<DacDef>) { forall i :: 0 <= i < |ds| ==> Acceptable(ds[i]) }

  lemma AcceptableFront(ds: seq<DacDef>)
    requires ds != []
    ensures AllAcceptable(ds) <==> Acceptable(ds[0]) && AllAcceptable(ds[1..])
  {
    assert AllAcceptable(ds) ==> forall i :: 0 <= i < |ds| - 1 ==> ds[1..][i] == ds[i + 1];
    if Acceptable(ds[0]) && AllAcceptable(ds[1..]) {
      forall i | 0 <= i < |ds| ensures Acceptable(ds[i]) {
        if i > 0 { assert ds[i] == ds[1..][i - 1]; }
      }
    }
  }

  /** One pair of bytes. */
  lemma DacPairReads(d: DacDef, more: seq<byte>, length: int)
    requires Fits(d) && length > 0
    ensures var x := DacTables(more, length - 2);
            (DacTables(DacPair(d) + more, length)
             == if !Acceptable(d) || x.Bad? then Bad else if x.Short? then Short else Ok(x.rest, [d] + x.v))
  {
    hide GetByte;
    var a, b := DacPair(d)[0], DacPair(d)[1];
    assert DacPair(d) + more == [a] + ([b] + more);
    ByteReads(a, [b] + more);
    ByteReads(b, more);
    if d.DcCond? { assert (d.l + 16 * d.u) % 16 == d.l && (d.l + 16 * d.u) / 16 == d.u; }
  }

  lemma {:induction false} DacPairsRead(ds: seq<DacDef>, rest: seq<byte>)
    requires forall i :: 0 <= i < |ds| ==> Fits(ds[i])
    ensures DacTables(DacPairs(ds) + rest, 2 * |ds|) == if AllAcceptable(ds) then Ok(rest, ds) else Bad
    decreases |ds|
  {
    hide DacTables, AllAcceptable, Acceptable, DacPair, Fits;
    if ds == [] {
      NoPairs(rest);
    } else {
      var more := DacPairs(ds[1..]) + rest;
      DacPairsFront(ds, rest);
      DacPairReads(ds[0], more, 2 * |ds|);
      DacPairsRead(ds[1..], rest);
      AcceptableFront(ds);
      assert ds == [ds[0]] + ds[1..];
    }
  }

  lemma NoPairs(rest: seq<byte>)
    ensures DacTables(DacPairs([]) + rest, 0) == Ok(rest, []) && AllAcceptable([])
  {
    assert DacPairs([]) + rest == rest;
  }

  lemma DacPairsFront(ds: seq<DacDef>, rest: seq<byte>)
    requires ds != [] && forall i :: 0 <= i < |ds| ==> Fits(ds[i])
    ensures forall i :: 0 <= i < |ds[1..]| ==> Fits(ds[1..][i])
    ensures DacPairs(ds) + rest == DacPair(ds[0]) + (DacPairs(ds[1..]) + rest)
  {
  }

  /** Conditioning is read back just if every DC lower bound is at most its upper bound; otherwise the reader refuses
      what the writer has written. */
  lemma DacReads(ds: seq<DacDef>, rest: seq<byte>)
    requires |ds| <= 32 && forall i :: 0 <= i < |ds| ==> Fits(ds[i])
    ensures ParseDac(DacBytes(ds) + rest) == if AllAcceptable(ds) then Ok(rest, ds) else Bad
  {
    hide Get2Bytes, GetByte, TwoBytes, DacPairs;
    assert DacBytes(ds) + rest == TwoBytes(2 * |ds| + 2) + (DacPairs(ds) + rest);
    TwoBytesRead(2 * |ds| + 2, DacPairs(ds) + rest);
    DacPairsRead(ds, rest);
  }

  // ---------------------------------------------------------------- restart interval

  function ParseDri(s: seq<byte>): (x: Parsed<nat>)
    ensures x.Ok? ==> |x.rest| <= |s|
  {
    var (s1, length) :- Get2Bytes(s);
    if length != 4 then Bad else Get2Bytes(s1)
  }

  function DriBytes(interval: nat): seq<byte>
    requires interval < 0x10000
  {
    TwoBytes(4) + TwoBytes(interval)
  }

  lemma DriExtends(s: seq<byte>, extra: seq<byte>)
    ensures Extends(ParseDri(s), ParseDri(s + extra), extra)
  {
    hide Get2Bytes;
    TwoBytesExtend(s, extra);
    var x := Get2Bytes(s);
    if x.Ok? { TwoBytesExtend(x.rest, extra); }
  }

  lemma DriReads(interval: nat, rest: seq<byte>)
    requires interval < 0x10000
    ensures ParseDri(DriBytes(interval) + rest) == Ok(rest, interval)
  {
    hide Get2Bytes, TwoBytes;
    assert DriBytes(interval) + rest == TwoBytes(4) + (TwoBytes(interval) + rest);
    TwoBytesRead(4, TwoBytes(interval) + rest);
    TwoBytesRead(interval, rest);
  }

  // ---------------------------------------------------------------- frame

  datatype FrameComp = FrameComp(id: nat, h: nat, v: nat, tq: nat)

  datatype FrameHead = FrameHead(precision: nat, height: nat, width: nat, comps: seq<FrameComp>)

  function FrameComps(s: seq<byte>, n: nat): (x: Parsed<seq<FrameComp>>)
    ensures x.Ok? ==> |x.rest| <= |s| && |x.v| == n
    decreases n
  {
    if n == 0 then Ok(s, [])
    else
      var (s1, id) :- GetByte(s);
      var (s2, c) :- GetByte(s1);
      var (s3, tq) :- GetByte(s2);
      var (s4, more) :- FrameComps(s3, n - 1);
      Ok(s4, [FrameComp(id, c / 16, c % 16, tq)] + more)
  }

  /** What stands in front of the components: the length of the segment, and the fields of the frame. */
  datatype FrameFields = FrameFields(length: nat, precision: nat, height: nat, width: nat, n: nat)

  function ParseFields(s: seq<byte>): (x: Parsed<FrameFields>)
    ensures x.Ok? ==> |x.rest| <= |s|
  {
    var (s1, length) :- Get2Bytes(s);
    var (s2, precision) :- GetByte(s1);
    var (s3, height) :- Get2Bytes(s2);
    var (s4, width) :- Get2Bytes(s3);
    var (s5, n) :- GetByte(s4);
    Ok(s5, FrameFields(length, precision, height, width, n))
  }

  /** get_sof; `seen`: there has been a frame header before. */
  function ParseSof(s: seq<byte>, seen: bool): (x: Parsed<FrameHead>)
    ensures x.Ok? ==> |x.rest| <= |s|
  {
    var (s5, f) :- ParseFields(s);
    if seen || f.height == 0 || f.width == 0 || f.n == 0 || f.length - 8 != 3 * f.n then Bad
    else
      var (s6, comps) :- FrameComps(s5, f.n);
      Ok(s6, FrameHead(f.precision, f.height, f.width, comps))
  }

  lemma {:induction false} FrameCompsExtend(s: seq<byte>, n: nat, extra: seq<byte>)
    ensures Extends(FrameComps(s, n), FrameComps(s + extra, n), extra)
    decreases n
  {
    hide GetByte;
    if n > 0 {
      ByteExtends(s, extra);
      var x := GetByte(s);
      if x.Ok? {
        ByteExtends(x.rest, extra);
        var y := GetByte(x.rest);
        if y.Ok? {
          ByteExtends(y.rest, extra);
          var z := GetByte(y.rest);
          if z.Ok? { FrameCompsExtend(z.rest, n - 1, extra); }
        }
      }
    }
  }

  lemma FieldsExtend(s: seq<byte>, extra: seq<byte>)
    ensures Extends(ParseFields(s), ParseFields(s + extra), extra)
  {
    hide GetByte, Get2Bytes;
    TwoBytesExtend(s, extra);
    var a := Get2Bytes(s);
    if a.Ok? {
      ByteExtends(a.rest, extra);
      var b := GetByte(a.rest);
      if b.Ok? {
        TwoBytesExtend(b.rest, extra);
        var c := Get2Bytes(b.rest);
        if c.Ok? {
          TwoBytesExtend(c.rest, extra);
          var d := Get2Bytes(c.rest);
          if d.Ok? { ByteExtends(d.rest, extra); }
        }
      }
    }
  }

  lemma SofExtends(s: seq<byte>, seen: bool, extra: seq<byte>)
    ensures Extends(ParseSof(s, seen), ParseSof(s + extra, seen), extra)
  {
    hide ParseFields, FrameComps;
    FieldsExtend(s, extra);
    var x := ParseFields(s);
    if x.Ok? { FrameCompsExtend(x.rest, x.v.n, extra); }
  }

  predicate SendableFrame(f: FrameHead) {
    && f.precision < 256 && f.height < 0x10000 && f.width < 0x10000 && |f.comps| < 256
    && forall i :: 0 <= i < |f.comps| ==> SendableFrameComp(f.comps[i])
  }

  predicate SendableFrameComp(c: FrameComp) { c.id < 256 && c.h < 16 && c.v < 16 && c.tq < 256 }

  function FrameCompBytes(cs: seq<FrameComp>): seq<byte>
    requires forall i :: 0 <= i < |cs| ==> SendableFrameComp(cs[i])
    decreases |cs|
  {
    if cs == [] then []
    else
      assert SendableFrameComp(cs[0]);
      [cs[0].id, 16 * cs[0].h + cs[0].v, cs[0].tq] + FrameCompBytes(cs[1..])
  }

  function SofBytes(f: FrameHead): seq<byte>
    requires SendableFrame(f)
  {
    TwoBytes(3 * |f.comps| + 8) + ([f.precision] + (TwoBytes(f.height) + (TwoBytes(f.width) + ([|f.comps|] + FrameCompBytes(f.comps)))))
  }

  lemma {:induction false} FrameCompsRead(cs: seq<FrameComp>, rest: seq<byte>)
    requires forall i :: 0 <= i < |cs| ==> SendableFrameComp(cs[i])
    ensures FrameComps(FrameCompBytes(cs) + rest, |cs|) == Ok(rest, cs)
    decreases |cs|
  {
    hide GetByte;
    if cs == [] {
      assert FrameCompBytes(cs) + rest == rest;
    } else {
      var c, more := cs[0], FrameCompBytes(cs[1..]) + rest;
      var hv := 16 * c.h + c.v;
      assert FrameCompBytes(cs) + rest == [c.id] + ([hv] + ([c.tq] + more));
      ByteReads(c.id, [hv] + ([c.tq] + more));
      ByteReads(hv, [c.tq] + more);
      ByteReads(c.tq, more);
      FrameCompsRead(cs[1..], rest);
      assert hv / 16 == c.h && hv % 16 == c.v;
      assert cs == [c] + cs[1..];
    }
  }

  /** A frame header is read back, unless the image is empty or there has been one before. */
  lemma SofReads(f: FrameHead, seen: bool, rest: seq<byte>)
    requires SendableFrame(f)
    ensures ParseSof(SofBytes(f) + rest, seen)
         == if seen || f.height == 0 || f.width == 0 || f.comps == [] then Bad else Ok(rest, f)
  {
    hide GetByte, Get2Bytes, TwoBytes, FrameComps, FrameCompBytes;
    var e := [|f.comps|] + (FrameCompBytes(f.comps) + rest);
    var d := TwoBytes(f.width) + e;
    var c := TwoBytes(f.height) + d;
    var b := [f.precision] + c;
    assert SofBytes(f) + rest == TwoBytes(3 * |f.comps| + 8) + b;
    TwoBytesRead(3 * |f.comps| + 8, b);
    ByteReads(f.precision, c);
    TwoBytesRead(f.height, d);
    TwoBytesRead(f.width, e);
    ByteReads(|f.comps|, FrameCompBytes(f.comps) + rest);
    FrameCompsRead(f.comps, rest);
  }

  // ---------------------------------------------------------------- scan

  datatype ScanComp = ScanComp(id: nat, td: nat, ta: nat)

  /** What the writer puts into a scan header. */
  datatype ScanHead = ScanHead(comps: seq<ScanComp>, ss: nat, se: nat, ah: nat, al: nat)

  /** What the reader makes of it: an identifier stands for the first component that has it. */
  datatype CompRef = CompRef(ci: nat, td: nat, ta: nat)

  datatype ReadHead = ReadHead(refs: seq<CompRef>, ss: nat, se: nat, ah: nat, al: nat)

  function FirstWith(ids: seq<nat>, id: nat): (ci: nat)
    requires id in ids
    ensures ci < |ids| && ids[ci] == id && id !in ids[..ci]
  {
    if ids[0] == id then 0
    else
      var rest := FirstWith(ids[1..], id);
      assert forall j :: 0 <= j < rest ==> ids[..rest + 1][j + 1] == ids[1..][..rest][j];
      rest + 1
  }

  function Resolved(h: ScanHead, ids: seq<nat>): (r: ReadHead)
    requires forall i :: 0 <= i < |h.comps| ==> h.comps[i].id in ids
    ensures forall i :: 0 <= i < |r.refs| ==> r.refs[i].ci < |ids|
  {
    ReadHead(ResolvedComps(h.comps, ids), h.ss, h.se, h.ah, h.al)
  }

  function ResolvedComps(cs: seq<ScanComp>, ids: seq<nat>): seq<CompRef>
    requires forall i :: 0 <= i < |cs| ==> cs[i].id in ids
  {
    seq(|cs|, i requires 0 <= i < |cs| => CompRef(FirstWith(ids, cs[i].id), cs[i].td, cs[i].ta))
  }

  function ScanComps(s: seq<byte>, n: nat, ids: seq<nat>): (x: Parsed<seq<CompRef>>)
    ensures x.Ok? ==> |x.rest| <= |s| && |x.v| == n && forall i :: 0 <= i < n ==> x.v[i].ci < |ids|
    decreases n
  {
    if n == 0 then Ok(s, [])
    else
      var (s1, cc) :- GetByte(s);
      var (s2, c) :- GetByte(s1);
      if cc !in ids then Bad
      else
        var (s3, more) :- ScanComps(s2, n - 1, ids);
        Ok(s3, [CompRef(FirstWith(ids, cc), c / 16, c % 16)] + more)
  }

  /** The additional scan parameters. */
  datatype ScanTail = ScanTail(ss: nat, se: nat, ah: nat, al: nat)

  function ParseTail(s: seq<byte>): (x: Parsed<ScanTail>)
    ensures x.Ok? ==> |x.rest| <= |s|
  {
    var (s1, ss) :- GetByte(s);
    var (s2, se) :- GetByte(s1);
    var (s3, a) :- GetByte(s2);
    Ok(s3, ScanTail(ss, se, a / 16, a % 16))
  }

  lemma TailExtends(s: seq<byte>, extra: seq<byte>)
    ensures Extends(ParseTail(s), ParseTail(s + extra), extra)
  {
    hide GetByte;
    ByteExtends(s, extra);
    var x := GetByte(s);
    if x.Ok? {
      ByteExtends(x.rest, extra);
      var y := GetByte(x.rest);
      if y.Ok? { ByteExtends(y.rest, extra); }
    }
  }

  /** get_sos; `ids`: the component identifiers of the frame header, if there has been one. */
  function ParseSos(s: seq<byte>, seen: bool, progressive: bool, ids: seq<nat>): (x: Parsed<ReadHead>)
    ensures x.Ok? ==> |x.rest| <= |s| && forall i :: 0 <= i < |x.v.refs| ==> x.v.refs[i].ci < |ids|
  {
    if !seen then Bad
    else
      var (s1, length) :- Get2Bytes(s);
      var (s2, n) :- GetByte(s1);
      if length != 2 * n + 6 || n > MAX_COMPS_IN_SCAN || (n == 0 && !progressive) then Bad
      else
        var (s3, comps) :- ScanComps(s2, n, ids);
        var (s6, t) :- ParseTail(s3);
        Ok(s6, ReadHead(comps, t.ss, t.se, t.ah, t.al))
  }

  lemma {:induction false} ScanCompsExtend(s: seq<byte>, n: nat, ids: seq<nat>, extra: seq<byte>)
    ensures Extends(ScanComps(s, n, ids), ScanComps(s + extra, n, ids), extra)
    decreases n
  {
    hide GetByte;
    if n > 0 {
      ByteExtends(s, extra);
      var x := GetByte(s);
      if x.Ok? {
        ByteExtends(x.rest, extra);
        var y := GetByte(x.rest);
        if y.Ok? && x.v in ids { ScanCompsExtend(y.rest, n - 1, ids, extra); }
      }
    }
  }

  lemma SosExtends(s: seq<byte>, seen: bool, progressive: bool, ids: seq<nat>, extra: seq<byte>)
    ensures Extends(ParseSos(s, seen, progressive, ids), ParseSos(s + extra, seen, progressive, ids), extra)
  {
    hide GetByte, Get2Bytes, ScanComps, ParseTail;
    TwoBytesExtend(s, extra);
    var a := Get2Bytes(s);
    if a.Ok? {
      ByteExtends(a.rest, extra);
      var b := GetByte(a.rest);
      if b.Ok? {
        ScanCompsExtend(b.rest, b.v, ids, extra);
        var c := ScanComps(b.rest, b.v, ids);
        if c.Ok? { TailExtends(c.rest, extra); }
      }
    }
  }

  predicate SendableScan(h: ScanHead) {
    && |h.comps| <= MAX_COMPS_IN_SCAN && h.ss < 256 && h.se < 256 && h.ah < 16 && h.al < 16
    && forall i :: 0 <= i < |h.comps| ==> SendableScanComp(h.comps[i])
  }

  predicate SendableScanComp(c: ScanComp) { c.id < 256 && c.td < 16 && c.ta < 16 }

  function ScanCompBytes(cs: seq<ScanComp>): seq<byte>
    requires forall i :: 0 <= i < |cs| ==> SendableScanComp(cs[i])
    decreases |cs|
  {
    if cs == [] then []
    else
      assert SendableScanComp(cs[0]);
      [cs[0].id, 16 * cs[0].td + cs[0].ta] + ScanCompBytes(cs[1..])
  }

  function SosBytes(h: ScanHead): seq<byte>
    requires SendableScan(h)
  {
    TwoBytes(2 * |h.comps| + 6) + ([|h.comps|] + (ScanCompBytes(h.comps) + [h.ss, h.se, 16 * h.ah + h.al]))
  }

  lemma {:induction false} ScanCompsRead(cs: seq<ScanComp>, ids: seq<nat>, rest: seq<byte>)
    requires forall i :: 0 <= i < |cs| ==> SendableScanComp(cs[i]) && cs[i].id in ids
    ensures ScanComps(ScanCompBytes(cs) + rest, |cs|, ids) == Ok(rest, ResolvedComps(cs, ids))
    decreases |cs|
  {
    hide GetByte;
    if cs == [] {
      assert ScanCompBytes(cs) + rest == rest;
    } else {
      var c, more := cs[0], ScanCompBytes(cs[1..]) + rest;
      var t := 16 * c.td + c.ta;
      assert ScanCompBytes(cs) + rest == [c.id] + ([t] + more);
      ByteReads(c.id, [t] + more);
      ByteReads(t, more);
      ScanCompsRead(cs[1..], ids, rest);
      assert t / 16 == c.td && t % 16 == c.ta;
      assert ResolvedComps(cs, ids) == [CompRef(FirstWith(ids, c.id), c.td, c.ta)] + ResolvedComps(cs[1..], ids);
    }
  }

  lemma SosReads(h: ScanHead, progressive: bool, ids: seq<nat>, rest: seq<byte>)
    requires SendableScan(h) && (h.comps == [] ==> progressive)
    requires forall i :: 0 <= i < |h.comps| ==> h.comps[i].id in ids
    ensures ParseSos(SosBytes(h) + rest, true, progressive, ids) == Ok(rest, Resolved(h, ids))
  {
    hide GetByte, Get2Bytes, TwoBytes, ScanComps, ScanCompBytes, ResolvedComps;
    var a := 16 * h.ah + h.al;
    var c := [h.ss] + ([h.se] + ([a] + rest));
    var b := [|h.comps|] + (ScanCompBytes(h.comps) + c);
    assert SosBytes(h) + rest == TwoBytes(2 * |h.comps| + 6) + b;
    TwoBytesRead(2 * |h.comps| + 6, b);
    ByteReads(|h.comps|, ScanCompBytes(h.comps) + c);
    ScanCompsRead(h.comps, ids, c);
    ByteReads(h.ss, [h.se] + ([a] + rest));
    ByteReads(h.se, [a] + rest);
    ByteReads(a, rest);
    assert a / 16 == h.ah && a % 16 == h.al;
  }
}
