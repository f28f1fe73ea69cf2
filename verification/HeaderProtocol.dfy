/** Frame and scan headers as a whole (write_frame_header and write_scan_header in jcmarker.c, read_markers in
    jdmarker.c). The writer leaves out tables that it has sent already; the reader keeps what it has read. */
module HeaderProtocol {
  import opened Limits
  import opened Wrappers
  import opened EstimationTable
  import opened Markers
  import opened HeaderFormat
  import opened HeaderSegments

  const SOF0: byte := 0xC0
  const SOF1: byte := 0xC1
  const SOF2: byte := 0xC2
  const DHT: byte := 0xC4
  const SOF9: byte := 0xC9
  const SOF10: byte := 0xCA
  const DAC: byte := 0xCC
  const EOI: byte := 0xD9
  const SOS: byte := 0xDA
  const DQT: byte := 0xDB
  const DRI: byte := 0xDD
  const TEM: byte := 0x01

  // ---------------------------------------------------------------- the reader

  /** What kind of frame the SOF code announces. */
  datatype Kind = Kind(baseline: bool, progressive: bool, arith: bool)

  /** The scan parameters: which components, and which coefficients and bits. */
  datatype Scanned = Scanned(cis: seq<nat>, ss: nat, se: nat, ah: nat, al: nat)

  /** `compTables`: the DC and AC table numbers stored with the components of the frame. */
  datatype Reader = Reader(sawSof: bool, kind: Kind, frame: FrameHead, quant: seq<Option<QuantTable>>,
                           dcHuff: seq<Option<HuffSpec>>, acHuff: seq<Option<HuffSpec>>,
                           dcL: seq<nat>, dcU: seq<nat>, acK: seq<nat>, restartInterval: nat,
                           scan: Scanned, compTables: seq<(nat, nat)>)
  {
    predicate Valid() {
      && |quant| == NUM_QUANT_TBLS && |dcHuff| == |acHuff| == NUM_HUFF_TBLS
      && |dcL| == |dcU| == |acK| == NUM_ARITH_TBLS && |compTables| == |frame.comps|
    }

    function Ids(): seq<nat> { seq(|frame.comps|, i requires 0 <= i < |frame.comps| => frame.comps[i].id) }
  }

  function SofKind(code: byte): Option<Kind> {
    if code == SOF0 then Some(Kind(true, false, false))
    else if code == SOF1 then Some(Kind(false, false, false))
    else if code == SOF2 then Some(Kind(false, true, false))
    else if code == SOF9 then Some(Kind(false, false, true))
    else if code == SOF10 then Some(Kind(false, true, true))
    else None
  }

  function DefineQuants(os: Orders, qs: seq<Option<QuantTable>>, ds: seq<QuantDef>): (r: seq<Option<QuantTable>>)
    requires os.Valid() && |qs| == NUM_QUANT_TBLS && forall i :: 0 <= i < |ds| ==> IsQuantDef(ds[i])
    ensures |r| == NUM_QUANT_TBLS
    decreases |ds|
  {
    if ds == [] then qs
    else
      assert IsQuantDef(ds[0]);
      DefineQuants(os, qs[ds[0].index := Some(Defined(os, ds[0].vals))], ds[1..])
  }

  function DefineHuffs(st: Reader, ds: seq<HuffDef>): (r: Reader)
    requires st.Valid() && forall i :: 0 <= i < |ds| ==> IsHuffDef(ds[i])
    ensures r.Valid()
    decreases |ds|
  {
    if ds == [] then st else DefineHuffs(DefineHuff(st, ds[0]), ds[1..])
  }

  function DefineHuff(st: Reader, d: HuffDef): (r: Reader)
    requires st.Valid() && IsHuffDef(d)
    ensures r.Valid()
  {
    if d.ac then st.(acHuff := st.acHuff[d.index := Some(d.spec)]) else st.(dcHuff := st.dcHuff[d.index := Some(d.spec)])
  }

  function DefineConds(st: Reader, ds: seq<DacDef>): (r: Reader)
    requires st.Valid() && forall i :: 0 <= i < |ds| ==> IsDacDef(ds[i])
    ensures r.Valid()
    decreases |ds|
  {
    if ds == [] then st else DefineConds(DefineCond(st, ds[0]), ds[1..])
  }

  function DefineCond(st: Reader, d: DacDef): (r: Reader)
    requires st.Valid() && IsDacDef(d)
    ensures r.Valid()
  {
    match d
    case DcCond(i, l, u) => st.(dcL := st.dcL[i := l], dcU := st.dcU[i := u])
    case AcCond(i, k) => st.(acK := st.acK[i := k])
  }

  function NoTables(n: nat): (r: seq<(nat, nat)>)
    ensures |r| == n
  {
    seq(n, _ => (0, 0))
  }

  /** The components of the scan are noted, and their table numbers are stored with them. */
  function SelectScan(st: Reader, h: ReadHead): (r: Reader)
    requires st.Valid() && forall i :: 0 <= i < |h.refs| ==> h.refs[i].ci < |st.frame.comps|
    ensures r.Valid()
  {
    st.(scan := Scanned(Cis(h.refs), h.ss, h.se, h.ah, h.al), compTables := StoreTables(st.compTables, h.refs))
  }

  function Cis(refs: seq<CompRef>): seq<nat> { seq(|refs|, i requires 0 <= i < |refs| => refs[i].ci) }

  function StoreTables(ts: seq<(nat, nat)>, refs: seq<CompRef>): (r: seq<(nat, nat)>)
    requires forall i :: 0 <= i < |refs| ==> refs[i].ci < |ts|
    ensures |r| == |ts|
    decreases |refs|
  {
    if refs == [] then ts else StoreTables(ts[refs[0].ci := (refs[0].td, refs[0].ta)], refs[1..])
  }

  /** What one parameter segment does. Markers that this model does not know count as unacceptable. */
  function Segment(os: Orders, code: byte, s: seq<byte>, st: Reader): (x: Parsed<Reader>)
    requires os.Valid() && st.Valid()
    ensures x.Ok? ==> |x.rest| <= |s| && x.v.Valid()
  {
    var kind := SofKind(code);
    if kind.Some? then
      var (r, f) :- ParseSof(s, st.sawSof);
      Ok(r, st.(sawSof := true, kind := kind.value, frame := f, compTables := NoTables(|f.comps|)))
    else if code == SOS then
      var (r, h) :- ParseSos(s, st.sawSof, st.kind.progressive, st.Ids());
      Ok(r, SelectScan(st, h))
    else if code == DQT then
      var (r, ds) :- ParseDqt(s);
      Ok(r, st.(quant := DefineQuants(os, st.quant, ds)))
    else if code == DHT then
      var (r, ds) :- ParseDht(s);
      Ok(r, DefineHuffs(st, ds))
    else if code == DAC then
      var (r, ds) :- ParseDac(s);
      Ok(r, DefineConds(st, ds))
    else if code == DRI then
      var (r, n) :- ParseDri(s);
      Ok(r, st.(restartInterval := n))
    else if code == TEM || RST0 <= code < RST0 + 8 then Ok(s, st)
    else Bad
  }

  /** The same, code by code. */
  lemma SofSegment(os: Orders, code: byte, s: seq<byte>, st: Reader)
    requires os.Valid() && st.Valid() && SofKind(code).Some?
    ensures var x, y := ParseSof(s, st.sawSof), Segment(os, code, s, st);
            && (x.Short? ==> y == Short) && (x.Bad? ==> y == Bad)
            && (x.Ok? ==> y == Ok(x.rest, st.(sawSof := true, kind := SofKind(code).value, frame := x.v, compTables := NoTables(|x.v.comps|))))
  {
    hide ParseSof;
  }

  lemma SosSegment(os: Orders, s: seq<byte>, st: Reader)
    requires os.Valid() && st.Valid()
    ensures var x, y := ParseSos(s, st.sawSof, st.kind.progressive, st.Ids()), Segment(os, SOS, s, st);
            && (x.Short? ==> y == Short) && (x.Bad? ==> y == Bad)
            && (x.Ok? ==> y == Ok(x.rest, SelectScan(st, x.v)))
  {
    hide ParseSos;
  }

  lemma DqtSegment(os: Orders, s: seq<byte>, st: Reader)
    requires os.Valid() && st.Valid()
    ensures var x, y := ParseDqt(s), Segment(os, DQT, s, st);
            && (x.Short? ==> y == Short) && (x.Bad? ==> y == Bad)
            && (x.Ok? ==> y == Ok(x.rest, st.(quant := DefineQuants(os, st.quant, x.v))))
  {
    hide ParseDqt, DefineQuants;
  }

  lemma DhtSegment(os: Orders, s: seq<byte>, st: Reader)
    requires os.Valid() && st.Valid()
    ensures var x, y := ParseDht(s), Segment(os, DHT, s, st);
            && (x.Short? ==> y == Short) && (x.Bad? ==> y == Bad)
            && (x.Ok? ==> y == Ok(x.rest, DefineHuffs(st, x.v)))
  {
    hide ParseDht, DefineHuffs;
  }

  lemma DacSegment(os: Orders, s: seq<byte>, st: Reader)
    requires os.Valid() && st.Valid()
    ensures var x, y := ParseDac(s), Segment(os, DAC, s, st);
            && (x.Short? ==> y == Short) && (x.Bad? ==> y == Bad)
            && (x.Ok? ==> y == Ok(x.rest, DefineConds(st, x.v)))
  {
    hide ParseDac, DefineConds;
  }

  lemma DriSegment(os: Orders, s: seq<byte>, st: Reader)
    requires os.Valid() && st.Valid()
    ensures var x, y := ParseDri(s), Segment(os, DRI, s, st);
            && (x.Short? ==> y == Short) && (x.Bad? ==> y == Bad)
            && (x.Ok? ==> y == Ok(x.rest, st.(restartInterval := x.v)))
  {
    hide ParseDri;
  }

  datatype Found = Suspended | Failed | ReachedSos(rest: seq<byte>, st: Reader) | ReachedEoi(rest: seq<byte>, st: Reader)

  /** read_markers: up to the next scan or the end of the file. */
  function ReadMarkers(os: Orders, s: seq<byte>, st: Reader): Found
    requires os.Valid() && st.Valid()
    decreases |s|, 0
  {
    MarkerIsShorter(s);
    match NextMarker(s)
    case None => Suspended
    case Some(m) => AfterMarker(os, m.0, m.1, st)
  }

  /** The same when the code of the next marker has been read already. */
  function AfterMarker(os: Orders, code: byte, s: seq<byte>, st: Reader): Found
    requires os.Valid() && st.Valid()
    decreases |s|, 1
  {
    if code == EOI then ReachedEoi(s, st)
    else
      match Segment(os, code, s, st)
      case Short => Suspended
      case Bad => Failed
      case Ok(r, st1) => if code == SOS then ReachedSos(r, st1) else ReadMarkers(os, r, st1)
  }

  lemma {:induction false} MarkerIsShorter(s: seq<byte>)
    ensures var m := NextMarker(s); m.Some? ==> |m.value.1| < |s|
    decreases |s|
  {
    if s != [] {
      SkipFillIsShorter(s[1..]);
      if s[0] != 0xFF {
        MarkerIsShorter(s[1..]);
      } else {
        var rest := SkipFill(s[1..]);
        if rest != [] && rest[0] == 0 { MarkerIsShorter(rest[1..]); }
      }
    }
  }

  // ---------------------------------------------------------------- cutting the input anywhere

  /** More input does not change what has been found; nothing is said when nothing has been found. */
  ghost predicate FoundExtends(x: Found, y: Found, extra: seq<byte>) {
    match x
    case Suspended => true
    case Failed => y == Failed
    case ReachedSos(r, st) => y == ReachedSos(r + extra, st)
    case ReachedEoi(r, st) => y == ReachedEoi(r + extra, st)
  }

  lemma SegmentExtends(os: Orders, code: byte, s: seq<byte>, st: Reader, extra: seq<byte>)
    requires os.Valid() && st.Valid()
    ensures Extends(Segment(os, code, s, st), Segment(os, code, s + extra, st), extra)
  {
    hide ParseSof, ParseSos, ParseDqt, ParseDht, ParseDac, ParseDri, DefineQuants, DefineHuffs, DefineConds, SelectScan;
    if SofKind(code).Some? {
      SofExtends(s, st.sawSof, extra);
    } else if code == SOS {
      SosExtends(s, st.sawSof, st.kind.progressive, st.Ids(), extra);
    } else if code == DQT {
      DqtExtends(s, extra);
    } else if code == DHT {
      DhtExtends(s, extra);
    } else if code == DAC {
      DacExtends(s, extra);
    } else if code == DRI {
      DriExtends(s, extra);
    }
  }

  lemma {:induction false} NextMarkerExtends(s: seq<byte>, extra: seq<byte>)
    ensures var m := NextMarker(s);
            m.Some? ==> NextMarker(s + extra) == Some((m.value.0, m.value.1 + extra))
    decreases |s|
  {
    if s != [] {
      SkipFillIsShorter(s[1..]);
      assert (s + extra)[1..] == s[1..] + extra;
      if s[0] != 0xFF {
        NextMarkerExtends(s[1..], extra);
      } else {
        var rest := SkipFill(s[1..]);
        if rest != [] {
          SkipFillAppended(s[1..], extra);
          assert (rest + extra)[1..] == rest[1..] + extra;
          if rest[0] == 0 { NextMarkerExtends(rest[1..], extra); }
        }
      }
    }
  }

  /** What is found in a part of the input is found in the whole. (A read that finds nothing in the part is taken up
      again by MarkerReader.) */
  lemma {:induction false} MoreChangesNothing(os: Orders, s: seq<byte>, st: Reader, extra: seq<byte>)
    requires os.Valid() && st.Valid()
    ensures FoundExtends(ReadMarkers(os, s, st), ReadMarkers(os, s + extra, st), extra)
    decreases |s|, 0
  {
    hide NextMarker, Segment;
    MarkerIsShorter(s);
    NextMarkerExtends(s, extra);
    var m := NextMarker(s);
    if m.Some? { MoreAfterMarker(os, m.value.0, m.value.1, st, extra); }
  }

  lemma {:induction false} MoreAfterMarker(os: Orders, code: byte, s: seq<byte>, st: Reader, extra: seq<byte>)
    requires os.Valid() && st.Valid()
    ensures FoundExtends(AfterMarker(os, code, s, st), AfterMarker(os, code, s + extra, st), extra)
    decreases |s|, 1
  {
    hide NextMarker, Segment;
    if code != EOI {
      SegmentExtends(os, code, s, st, extra);
      var x := Segment(os, code, s, st);
      if x.Ok? && code != SOS { MoreChangesNothing(os, x.rest, x.v, extra); }
    }
  }

  // ---------------------------------------------------------------- one marker

  /** After these bytes the reader is in state `r1`, and reads on. */
  ghost predicate Passes(os: Orders, bytes: seq<byte>, r: Reader, r1: Reader)
    requires os.Valid() && r.Valid() && r1.Valid()
  {
    forall rest :: ReadMarkers(os, bytes + rest, r) == ReadMarkers(os, rest, r1)
  }

  lemma PassesThrough(os: Orders, a: seq<byte>, b: seq<byte>, r: Reader, r1: Reader, r2: Reader)
    requires os.Valid() && r.Valid() && r1.Valid() && r2.Valid() && Passes(os, a, r, r1) && Passes(os, b, r1, r2)
    ensures Passes(os, a + b, r, r2)
  {
    hide ReadMarkers;
    forall rest ensures ReadMarkers(os, (a + b) + rest, r) == ReadMarkers(os, rest, r2) {
      assert (a + b) + rest == a + (b + rest);
    }
  }

  lemma NothingPasses(os: Orders, r: Reader)
    requires os.Valid() && r.Valid()
    ensures Passes(os, [], r, r)
  {
    hide ReadMarkers;
    forall rest ensures ReadMarkers(os, [] + rest, r) == ReadMarkers(os, rest, r) {
      assert [] + rest == rest;
    }
  }

  lemma MarkerFound(code: byte, rest: seq<byte>)
    requires code != 0 && code != 0xFF
    ensures NextMarker([0xFF, code] + rest) == Some((code, rest))
  {
    var s := [0xFF, code] + rest;
    assert s[1..] == [code] + rest && SkipFill(s[1..]) == s[1..] && s[1..][1..] == rest;
  }

  /** A marker whose parameters are understood. */
  lemma MarkerPasses(os: Orders, code: byte, params: seq<byte>, r: Reader, r1: Reader)
    requires os.Valid() && r.Valid() && r1.Valid() && code !in {0, 0xFF, EOI, SOS}
    requires forall rest :: Segment(os, code, params + rest, r) == Ok(rest, r1)
    ensures Passes(os, [0xFF, code] + params, r, r1)
  {
    hide NextMarker, Segment;
    forall rest ensures ReadMarkers(os, ([0xFF, code] + params) + rest, r) == ReadMarkers(os, rest, r1) {
      assert ([0xFF, code] + params) + rest == [0xFF, code] + (params + rest);
      MarkerFound(code, params + rest);
      assert Segment(os, code, params + rest, r) == Ok(rest, r1);
    }
  }
}
