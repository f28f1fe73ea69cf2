/** The marker reader as it runs (jdmarker.c). A suspending source can break off anywhere. The input position and the
    pending marker then stay at the last restart point, but what the interrupted routine has stored so far remains; the
    routine is entered again from its start when more input has come. */
module MarkerReaderObject {
  import opened Limits
  import opened Wrappers
  import opened EstimationTable
  import opened Markers
  import opened HeaderFormat
  import opened HeaderSegments
  import opened HeaderProtocol
  import opened Seqs

  datatype Status = Fine | Waiting | Refused

  /** The return codes of read_markers, and the error exit. */
  datatype Outcome = JpegSuspended | JpegReachedSos | JpegReachedEoi | ErrorExit

  // ---------------------------------------------------------------- what has been read of a segment

  function Prepend<T>(a: seq<T>, x: Parsed<seq<T>>): Parsed<seq<T>> {
    if x.Ok? then Ok(x.rest, a + x.v) else x
  }

  lemma PrependOne<T>(a: seq<T>, b: T, x: Parsed<seq<T>>)
    ensures Prepend(a, Prepend([b], x)) == Prepend(a + [b], x)
  {
    if x.Ok? { assert a + ([b] + x.v) == (a + [b]) + x.v; }
  }

  lemma PrependNone<T>(x: Parsed<seq<T>>)
    ensures Prepend([], x) == x
  {
    if x.Ok? { assert [] + x.v == x.v; }
  }

  /** From `s` the reader has come to `next`; the segment has `len` bytes left, and `done` has been defined. */
  ghost predicate DqtAt(s: seq<byte>, done: seq<QuantDef>, next: seq<byte>, len: int) {
    forall extra :: ParseDqt(s + extra) == Prepend(done, DqtTables(next + extra, len))
  }

  ghost predicate DhtAt(s: seq<byte>, done: seq<HuffDef>, next: seq<byte>, len: int) {
    forall extra :: ParseDht(s + extra) == Prepend(done, DhtTables(next + extra, len))
  }

  ghost predicate DacAt(s: seq<byte>, done: seq<DacDef>, next: seq<byte>, len: int) {
    forall extra :: ParseDac(s + extra) == Prepend(done, DacTables(next + extra, len))
  }

  lemma SegmentStarts(s: seq<byte>)
    requires Get2Bytes(s).Ok?
    ensures var x := Get2Bytes(s);
            && DqtAt(s, [], x.rest, (x.v as int) - 2) && DhtAt(s, [], x.rest, (x.v as int) - 2)
            && DacAt(s, [], x.rest, (x.v as int) - 2)
  {
    hide Get2Bytes, DqtTables, DhtTables, DacTables;
    var x := Get2Bytes(s);
    forall extra
      ensures ParseDqt(s + extra) == Prepend([], DqtTables(x.rest + extra, (x.v as int) - 2))
      ensures ParseDht(s + extra) == Prepend([], DhtTables(x.rest + extra, (x.v as int) - 2))
      ensures ParseDac(s + extra) == Prepend([], DacTables(x.rest + extra, (x.v as int) - 2))
    {
      TwoBytesExtend(s, extra);
      PrependNone(DqtTables(x.rest + extra, (x.v as int) - 2));
      PrependNone(DhtTables(x.rest + extra, (x.v as int) - 2));
      PrependNone(DacTables(x.rest + extra, (x.v as int) - 2));
    }
  }

  /** One table more of a DQT segment. */
  lemma DqtStep(s: seq<byte>, done: seq<QuantDef>, next: seq<byte>, len: int, s1: seq<byte>, n: nat, s2: seq<byte>, vals: seq<nat>)
    requires DqtAt(s, done, next, len) && len > 0 && GetByte(next) == Ok(s1, n) && n % 16 < NUM_QUANT_TBLS
    requires var wide, count := n / 16 != 0, ValueCount(len - 1, n / 16 != 0);
             GetValues(s1, count, wide) == Ok(s2, vals)
    ensures var wide, count := n / 16 != 0, ValueCount(len - 1, n / 16 != 0);
            DqtAt(s, done + [QuantDef(n % 16, vals)], s2, len - 1 - if wide then 2 * count else count)
  {
    hide GetByte, GetValues, ValueCount, ParseDqt;
    var wide, count := n / 16 != 0, ValueCount(len - 1, n / 16 != 0);
    var left := len - 1 - if wide then 2 * count else count;
    var d := QuantDef(n % 16, vals);
    forall extra ensures ParseDqt(s + extra) == Prepend(done + [d], DqtTables(s2 + extra, left)) {
      ByteExtends(next, extra);
      ValuesExtend(s1, count, wide, extra);
      PrependOne(done, d, DqtTables(s2 + extra, left));
    }
  }

  /** In the middle of a table: if the segment is ever read, it defines this table. */
  lemma DqtHits(s: seq<byte>, done: seq<QuantDef>, next: seq<byte>, len: int, s1: seq<byte>, n: nat, extra: seq<byte>)
    requires DqtAt(s, done, next, len) && len > 0 && GetByte(next) == Ok(s1, n) && n % 16 < NUM_QUANT_TBLS
    ensures var x := ParseDqt(s + extra);
            x.Ok? ==> done <= x.v && |done| < |x.v| && x.v[|done|].index == n % 16
  {
    hide GetByte, GetValues, ValueCount, ParseDqt;
    ByteExtends(next, extra);
    assert ParseDqt(s + extra) == Prepend(done, DqtTables(next + extra, len));
  }

  lemma DhtStep(s: seq<byte>, done: seq<HuffDef>, next: seq<byte>, len: int)
    requires DhtAt(s, done, next, len) && len > 16 && DhtTable(next, len).Ok?
    ensures var x := DhtTable(next, len); DhtAt(s, done + [x.v.0], x.rest, x.v.1)
  {
    hide DhtTable, ParseDht;
    var x := DhtTable(next, len);
    forall extra ensures ParseDht(s + extra) == Prepend(done + [x.v.0], DhtTables(x.rest + extra, x.v.1)) {
      DhtTableExtends(next, len, extra);
      PrependOne(done, x.v.0, DhtTables(x.rest + extra, x.v.1));
    }
  }

  lemma DacStep(s: seq<byte>, done: seq<DacDef>, next: seq<byte>, len: int, s1: seq<byte>, index: nat, s2: seq<byte>, val: nat, d: DacDef)
    requires DacAt(s, done, next, len) && len > 0 && GetByte(next) == Ok(s1, index) && GetByte(s1) == Ok(s2, val)
    requires index < 2 * NUM_ARITH_TBLS && (index < NUM_ARITH_TBLS ==> val % 16 <= val / 16)
    requires d == if index >= NUM_ARITH_TBLS then AcCond(index - NUM_ARITH_TBLS, val) else DcCond(index, val % 16, val / 16)
    ensures DacAt(s, done + [d], s2, len - 2)
  {
    hide GetByte, ParseDac;
    forall extra ensures ParseDac(s + extra) == Prepend(done + [d], DacTables(s2 + extra, len - 2)) {
      ByteExtends(next, extra);
      ByteExtends(s1, extra);
      PrependOne(done, d, DacTables(s2 + extra, len - 2));
    }
  }

  // ---------------------------------------------------------------- storing twice

  /** Two sets of tables that differ only where the definitions will set them. */
  lemma {:induction false} QuantsAlike(os: Orders, a: seq<Option<QuantTable>>, b: seq<Option<QuantTable>>, ds: seq<QuantDef>)
    requires os.Valid() && |a| == |b| == NUM_QUANT_TBLS && forall i :: 0 <= i < |ds| ==> IsQuantDef(ds[i])
    requires forall t :: 0 <= t < NUM_QUANT_TBLS && a[t] != b[t] ==> exists i :: 0 <= i < |ds| && ds[i].index == t
    ensures DefineQuants(os, a, ds) == DefineQuants(os, b, ds)
    decreases |ds|
  {
    hide Defined, Orders.Valid;
    if ds == [] {
      assert a == b;
    } else {
      var d := ds[0];
      assert IsQuantDef(d);
      var v := Some(Defined(os, d.vals));
      var a1, b1 := a[d.index := v], b[d.index := v];
      forall t | 0 <= t < NUM_QUANT_TBLS && a1[t] != b1[t]
        ensures exists i :: 0 <= i < |ds[1..]| && ds[1..][i].index == t
      {
        var i :| 0 <= i < |ds| && ds[i].index == t;
        assert ds[1..][i - 1] == ds[i];
      }
      QuantsAlike(os, a1, b1, ds[1..]);
    }
  }

  ghost predicate HuffsDiffer(a: Reader, b: Reader, ds: seq<HuffDef>)
    requires a.Valid() && b.Valid()
  {
    && a == b.(dcHuff := a.dcHuff, acHuff := a.acHuff)
    && (forall t :: 0 <= t < NUM_HUFF_TBLS && a.dcHuff[t] != b.dcHuff[t] ==> exists i :: 0 <= i < |ds| && ds[i].index == t && !ds[i].ac)
    && (forall t :: 0 <= t < NUM_HUFF_TBLS && a.acHuff[t] != b.acHuff[t] ==> exists i :: 0 <= i < |ds| && ds[i].index == t && ds[i].ac)
  }

  lemma {:induction false} HuffsAlike(a: Reader, b: Reader, ds: seq<HuffDef>)
    requires a.Valid() && b.Valid() && (forall i :: 0 <= i < |ds| ==> IsHuffDef(ds[i])) && HuffsDiffer(a, b, ds)
    ensures DefineHuffs(a, ds) == DefineHuffs(b, ds)
    decreases |ds|
  {
    if ds == [] {
      assert a.dcHuff == b.dcHuff && a.acHuff == b.acHuff;
    } else {
      HuffDefined(a, b, ds);
      HuffsAlike(DefineHuff(a, ds[0]), DefineHuff(b, ds[0]), ds[1..]);
    }
  }

  lemma HuffDefined(a: Reader, b: Reader, ds: seq<HuffDef>)
    requires a.Valid() && b.Valid() && (forall i :: 0 <= i < |ds| ==> IsHuffDef(ds[i])) && HuffsDiffer(a, b, ds) && ds != []
    ensures HuffsDiffer(DefineHuff(a, ds[0]), DefineHuff(b, ds[0]), ds[1..])
  {
    var d, a1, b1 := ds[0], DefineHuff(a, ds[0]), DefineHuff(b, ds[0]);
    forall t | 0 <= t < NUM_HUFF_TBLS && a1.dcHuff[t] != b1.dcHuff[t]
      ensures exists i :: 0 <= i < |ds[1..]| && ds[1..][i].index == t && !ds[1..][i].ac
    {
      var i :| 0 <= i < |ds| && ds[i].index == t && !ds[i].ac;
      assert ds[1..][i - 1] == ds[i];
    }
    forall t | 0 <= t < NUM_HUFF_TBLS && a1.acHuff[t] != b1.acHuff[t]
      ensures exists i :: 0 <= i < |ds[1..]| && ds[1..][i].index == t && ds[1..][i].ac
    {
      var i :| 0 <= i < |ds| && ds[i].index == t && ds[i].ac;
      assert ds[1..][i - 1] == ds[i];
    }
  }

  ghost predicate CondsDiffer(a: Reader, b: Reader, ds: seq<DacDef>)
    requires a.Valid() && b.Valid()
  {
    && a == b.(dcL := a.dcL, dcU := a.dcU, acK := a.acK)
    && (forall t :: 0 <= t < NUM_ARITH_TBLS && (a.dcL[t] != b.dcL[t] || a.dcU[t] != b.dcU[t]) ==>
          exists i :: 0 <= i < |ds| && ds[i].index == t && ds[i].DcCond?)
    && (forall t :: 0 <= t < NUM_ARITH_TBLS && a.acK[t] != b.acK[t] ==> exists i :: 0 <= i < |ds| && ds[i].index == t && ds[i].AcCond?)
  }

  lemma {:induction false} CondsAlike(a: Reader, b: Reader, ds: seq<DacDef>)
    requires a.Valid() && b.Valid() && (forall i :: 0 <= i < |ds| ==> IsDacDef(ds[i])) && CondsDiffer(a, b, ds)
    ensures DefineConds(a, ds) == DefineConds(b, ds)
    decreases |ds|
  {
    if ds == [] {
      assert a.dcL == b.dcL && a.dcU == b.dcU && a.acK == b.acK;
    } else {
      CondDefined(a, b, ds);
      CondsAlike(DefineCond(a, ds[0]), DefineCond(b, ds[0]), ds[1..]);
    }
  }

  lemma CondDefined(a: Reader, b: Reader, ds: seq<DacDef>)
    requires a.Valid() && b.Valid() && (forall i :: 0 <= i < |ds| ==> IsDacDef(ds[i])) && CondsDiffer(a, b, ds) && ds != []
    ensures CondsDiffer(DefineCond(a, ds[0]), DefineCond(b, ds[0]), ds[1..])
  {
    var a1, b1 := DefineCond(a, ds[0]), DefineCond(b, ds[0]);
    forall t | 0 <= t < NUM_ARITH_TBLS && (a1.dcL[t] != b1.dcL[t] || a1.dcU[t] != b1.dcU[t])
      ensures exists i :: 0 <= i < |ds[1..]| && ds[1..][i].index == t && ds[1..][i].DcCond?
    {
      var i :| 0 <= i < |ds| && ds[i].index == t && ds[i].DcCond?;
      assert ds[1..][i - 1] == ds[i];
    }
    forall t | 0 <= t < NUM_ARITH_TBLS && a1.acK[t] != b1.acK[t]
      ensures exists i :: 0 <= i < |ds[1..]| && ds[1..][i].index == t && ds[1..][i].AcCond?
    {
      var i :| 0 <= i < |ds| && ds[i].index == t && ds[i].AcCond?;
      assert ds[1..][i - 1] == ds[i];
    }
  }

  lemma {:induction false} TablesAlike(a: seq<(nat, nat)>, b: seq<(nat, nat)>, refs: seq<CompRef>)
    requires |a| == |b| && forall i :: 0 <= i < |refs| ==> refs[i].ci < |a|
    requires forall t :: 0 <= t < |a| && a[t] != b[t] ==> exists i :: 0 <= i < |refs| && refs[i].ci == t
    ensures StoreTables(a, refs) == StoreTables(b, refs)
    decreases |refs|
  {
    if refs == [] {
      assert a == b;
    } else {
      var r := refs[0];
      var a1, b1 := a[r.ci := (r.td, r.ta)], b[r.ci := (r.td, r.ta)];
      forall t | 0 <= t < |a| && a1[t] != b1[t] ensures exists i :: 0 <= i < |refs[1..]| && refs[1..][i].ci == t {
        var i :| 0 <= i < |refs| && refs[i].ci == t;
        assert refs[1..][i - 1] == refs[i];
      }
      TablesAlike(a1, b1, refs[1..]);
    }
  }

  /** What has been defined already differs from the state before only where it will be defined again. */
  lemma {:induction false} QuantsSnoc(os: Orders, qs: seq<Option<QuantTable>>, done: seq<QuantDef>, d: QuantDef)
    requires os.Valid() && |qs| == NUM_QUANT_TBLS && (forall i :: 0 <= i < |done| ==> IsQuantDef(done[i])) && IsQuantDef(d)
    ensures forall i :: 0 <= i < |done + [d]| ==> IsQuantDef((done + [d])[i])
    ensures DefineQuants(os, qs, done + [d]) == DefineQuants(os, qs, done)[d.index := Some(Defined(os, d.vals))]
    decreases |done|
  {
    hide Defined, Orders.Valid;
    if done == [] {
      assert [d][1..] == [];
    } else {
      assert IsQuantDef(done[0]) && (done + [d])[1..] == done[1..] + [d];
      QuantsSnoc(os, qs[done[0].index := Some(Defined(os, done[0].vals))], done[1..], d);
    }
  }

  lemma {:induction false} QuantsOnlyThere(os: Orders, qs: seq<Option<QuantTable>>, done: seq<QuantDef>, t: nat)
    requires os.Valid() && |qs| == NUM_QUANT_TBLS && (forall i :: 0 <= i < |done| ==> IsQuantDef(done[i])) && t < NUM_QUANT_TBLS
    requires forall i :: 0 <= i < |done| ==> done[i].index != t
    ensures DefineQuants(os, qs, done)[t] == qs[t]
    decreases |done|
  {
    hide Defined, Orders.Valid;
    if done != [] {
      assert IsQuantDef(done[0]);
      QuantsOnlyThere(os, qs[done[0].index := Some(Defined(os, done[0].vals))], done[1..], t);
    }
  }

  lemma {:induction false} HuffsSnoc(st: Reader, done: seq<HuffDef>, d: HuffDef, ds: seq<HuffDef>)
    requires st.Valid() && (forall i :: 0 <= i < |done| ==> IsHuffDef(done[i])) && IsHuffDef(d)
    requires HuffsDiffer(DefineHuffs(st, done), st, ds) && d in ds
    ensures forall i :: 0 <= i < |done + [d]| ==> IsHuffDef((done + [d])[i])
    ensures DefineHuffs(st, done + [d]) == DefineHuff(DefineHuffs(st, done), d)
    ensures HuffsDiffer(DefineHuffs(st, done + [d]), st, ds)
  {
    HuffsStep(st, done, d);
  }

  lemma {:induction false} HuffsStep(st: Reader, done: seq<HuffDef>, d: HuffDef)
    requires st.Valid() && (forall i :: 0 <= i < |done| ==> IsHuffDef(done[i])) && IsHuffDef(d)
    ensures forall i :: 0 <= i < |done + [d]| ==> IsHuffDef((done + [d])[i])
    ensures DefineHuffs(st, done + [d]) == DefineHuff(DefineHuffs(st, done), d)
    decreases |done|
  {
    if done == [] {
      assert [d][1..] == [];
    } else {
      assert (done + [d])[1..] == done[1..] + [d];
      HuffsStep(DefineHuff(st, done[0]), done[1..], d);
    }
  }

  /** The tables that the first definitions set are set again. */
  lemma {:induction false} HuffsOnlyThere(st: Reader, done: seq<HuffDef>, ds: seq<HuffDef>)
    requires st.Valid() && (forall i :: 0 <= i < |done| ==> IsHuffDef(done[i])) && done <= ds
    ensures HuffsDiffer(DefineHuffs(st, done), st, ds)
    decreases |done|
  {
    if done != [] {
      var n := |done| - 1;
      assert done == done[..n] + [done[n]];
      HuffsOnlyThere(st, done[..n], ds);
      assert ds[n] == done[n];
      HuffsSnoc(st, done[..n], done[n], ds);
    }
  }

  lemma {:induction false} CondsStep(st: Reader, done: seq<DacDef>, d: DacDef)
    requires st.Valid() && (forall i :: 0 <= i < |done| ==> IsDacDef(done[i])) && IsDacDef(d)
    ensures forall i :: 0 <= i < |done + [d]| ==> IsDacDef((done + [d])[i])
    ensures DefineConds(st, done + [d]) == DefineCond(DefineConds(st, done), d)
    decreases |done|
  {
    if done == [] {
      assert [d][1..] == [];
    } else {
      assert (done + [d])[1..] == done[1..] + [d];
      CondsStep(DefineCond(st, done[0]), done[1..], d);
    }
  }

  lemma CondsSnoc(st: Reader, done: seq<DacDef>, d: DacDef, ds: seq<DacDef>)
    requires st.Valid() && (forall i :: 0 <= i < |done| ==> IsDacDef(done[i])) && IsDacDef(d)
    requires CondsDiffer(DefineConds(st, done), st, ds) && d in ds
    ensures forall i :: 0 <= i < |done + [d]| ==> IsDacDef((done + [d])[i])
    ensures CondsDiffer(DefineConds(st, done + [d]), st, ds)
  {
    CondsStep(st, done, d);
  }

  lemma {:induction false} CondsOnlyThere(st: Reader, done: seq<DacDef>, ds: seq<DacDef>)
    requires st.Valid() && (forall i :: 0 <= i < |done| ==> IsDacDef(done[i])) && done <= ds
    ensures CondsDiffer(DefineConds(st, done), st, ds)
    decreases |done|
  {
    if done != [] {
      var n := |done| - 1;
      assert done == done[..n] + [done[n]];
      CondsOnlyThere(st, done[..n], ds);
      assert ds[n] == done[n];
      CondsSnoc(st, done[..n], done[n], ds);
    }
  }

  // ---------------------------------------------------------------- the same outcome later

  /** Whatever comes behind `s`: with these parameters the segment does the same to both states. */
  ghost predicate SameLater(os: Orders, code: byte, s: seq<byte>, a: Reader, b: Reader)
    requires os.Valid() && a.Valid() && b.Valid()
  {
    forall extra :: Segment(os, code, s + extra, a) == Segment(os, code, s + extra, b)
  }

  /** A DHT segment is interrupted after some tables. */
  lemma DhtLater(os: Orders, s: seq<byte>, st: Reader, done: seq<HuffDef>, next: seq<byte>, len: int)
    requires os.Valid() && st.Valid() && (forall i :: 0 <= i < |done| ==> IsHuffDef(done[i])) && DhtAt(s, done, next, len)
    ensures SameLater(os, DHT, s, DefineHuffs(st, done), st)
  {
    hide ParseDht, DhtTables, DefineHuffs, Reader.Valid;
    var st1 := DefineHuffs(st, done);
    forall extra ensures Segment(os, DHT, s + extra, st1) == Segment(os, DHT, s + extra, st) {
      var x := ParseDht(s + extra);
      assert x == Prepend(done, DhtTables(next + extra, len));
      if x.Ok? {
        HuffsOnlyThere(st, done, x.v);
        HuffsAlike(st1, st, x.v);
      }
    }
  }

  lemma DacLater(os: Orders, s: seq<byte>, st: Reader, done: seq<DacDef>, next: seq<byte>, len: int)
    requires os.Valid() && st.Valid() && (forall i :: 0 <= i < |done| ==> IsDacDef(done[i])) && DacAt(s, done, next, len)
    ensures SameLater(os, DAC, s, DefineConds(st, done), st)
  {
    hide ParseDac, DacTables, DefineConds, Reader.Valid;
    var st1 := DefineConds(st, done);
    forall extra ensures Segment(os, DAC, s + extra, st1) == Segment(os, DAC, s + extra, st) {
      var x := ParseDac(s + extra);
      assert x == Prepend(done, DacTables(next + extra, len));
      if x.Ok? {
        CondsOnlyThere(st, done, x.v);
        CondsAlike(st1, st, x.v);
      }
    }
  }

  /** A DQT segment is interrupted between tables. */
  lemma DqtLater(os: Orders, s: seq<byte>, st: Reader, st1: Reader, done: seq<QuantDef>, next: seq<byte>, len: int)
    requires os.Valid() && st.Valid() && st1.Valid() && (forall i :: 0 <= i < |done| ==> IsQuantDef(done[i])) && DqtAt(s, done, next, len)
    requires st1 == st.(quant := DefineQuants(os, st.quant, done))
    ensures SameLater(os, DQT, s, st1, st)
  {
    hide ParseDqt, DqtTables, DefineQuants, Orders.Valid;
    forall extra ensures Segment(os, DQT, s + extra, st1) == Segment(os, DQT, s + extra, st) {
      var x := ParseDqt(s + extra);
      assert x == Prepend(done, DqtTables(next + extra, len));
      if x.Ok? {
        forall t | 0 <= t < NUM_QUANT_TBLS && st1.quant[t] != st.quant[t] ensures exists i :: 0 <= i < |x.v| && x.v[i].index == t {
          if forall i :: 0 <= i < |done| ==> done[i].index != t {
            QuantsOnlyThere(os, st.quant, done, t);
            assert false;
          }
          var i :| 0 <= i < |done| && done[i].index == t;
          assert x.v[i] == done[i];
        }
        QuantsAlike(os, st1.quant, st.quant, x.v);
      }
    }
  }

  /** A DQT segment is interrupted in the middle of table `n`, whatever is in that table now. */
  lemma DqtLaterInside(os: Orders, s: seq<byte>, st: Reader, st1: Reader, done: seq<QuantDef>, next: seq<byte>, len: int,
                       s1: seq<byte>, n: nat, now: Option<QuantTable>)
    requires os.Valid() && st.Valid() && st1.Valid() && (forall i :: 0 <= i < |done| ==> IsQuantDef(done[i])) && DqtAt(s, done, next, len)
    requires len > 0 && GetByte(next) == Ok(s1, n) && n % 16 < NUM_QUANT_TBLS
    requires st1 == st.(quant := DefineQuants(os, st.quant, done)[n % 16 := now])
    ensures SameLater(os, DQT, s, st1, st)
  {
    hide ParseDqt, DqtTables, DefineQuants, Orders.Valid, GetByte;
    forall extra ensures Segment(os, DQT, s + extra, st1) == Segment(os, DQT, s + extra, st) {
      var x := ParseDqt(s + extra);
      DqtHits(s, done, next, len, s1, n, extra);
      if x.Ok? {
        forall t | 0 <= t < NUM_QUANT_TBLS && st1.quant[t] != st.quant[t] ensures exists i :: 0 <= i < |x.v| && x.v[i].index == t {
          if t == n % 16 {
            assert x.v[|done|].index == t;
          } else {
            if forall i :: 0 <= i < |done| ==> done[i].index != t {
            QuantsOnlyThere(os, st.quant, done, t);
            assert false;
          }
            var i :| 0 <= i < |done| && done[i].index == t;
            assert x.v[i] == done[i];
          }
        }
        QuantsAlike(os, st1.quant, st.quant, x.v);
      }
    }
  }

  /** A frame header is interrupted: whatever is in its fields now will be set. */
  lemma SofLater(os: Orders, code: byte, s: seq<byte>, st: Reader, st1: Reader)
    requires os.Valid() && st.Valid() && st1.Valid() && SofKind(code).Some?
    requires st1 == st.(kind := st1.kind, frame := st1.frame, compTables := st1.compTables)
    ensures SameLater(os, code, s, st1, st)
  {
    hide ParseSof, Orders.Valid;
  }

  /** `n` components are due from `s` on; `done` have been read, and the reader is at `next`. */
  ghost predicate CompsAt(s: seq<byte>, n: nat, ids: seq<nat>, done: seq<CompRef>, next: seq<byte>)
    requires |done| <= n
  {
    forall extra :: ScanComps(s + extra, n, ids) == Prepend(done, ScanComps(next + extra, n - |done|, ids))
  }

  lemma CompsStart(s: seq<byte>, n: nat, ids: seq<nat>)
    ensures CompsAt(s, n, ids, [], s)
  {
    forall extra ensures ScanComps(s + extra, n, ids) == Prepend([], ScanComps(s + extra, n, ids)) {
      PrependNone(ScanComps(s + extra, n, ids));
    }
  }

  lemma CompsStep(s: seq<byte>, n: nat, ids: seq<nat>, done: seq<CompRef>, next: seq<byte>, s1: seq<byte>, cc: nat, s2: seq<byte>, c: nat)
    requires |done| < n && CompsAt(s, n, ids, done, next) && GetByte(next) == Ok(s1, cc) && GetByte(s1) == Ok(s2, c) && cc in ids
    ensures CompsAt(s, n, ids, done + [CompRef(FirstWith(ids, cc), c / 16, c % 16)], s2)
  {
    hide GetByte;
    var d := CompRef(FirstWith(ids, cc), c / 16, c % 16);
    forall extra ensures ScanComps(s + extra, n, ids) == Prepend(done + [d], ScanComps(s2 + extra, n - |done| - 1, ids)) {
      ByteExtends(next, extra);
      ByteExtends(s1, extra);
      PrependOne(done, d, ScanComps(s2 + extra, n - |done| - 1, ids));
    }
  }

  lemma {:induction false} StoreSnoc(ts: seq<(nat, nat)>, done: seq<CompRef>, d: CompRef)
    requires (forall i :: 0 <= i < |done| ==> done[i].ci < |ts|) && d.ci < |ts|
    ensures forall i :: 0 <= i < |done + [d]| ==> (done + [d])[i].ci < |ts|
    ensures StoreTables(ts, done + [d]) == StoreTables(ts, done)[d.ci := (d.td, d.ta)]
    decreases |done|
  {
    if done == [] {
      assert [d][1..] == [];
    } else {
      assert (done + [d])[1..] == done[1..] + [d];
      StoreSnoc(ts[done[0].ci := (done[0].td, done[0].ta)], done[1..], d);
    }
  }

  lemma {:induction false} StoredOnlyThere(ts: seq<(nat, nat)>, done: seq<CompRef>, t: nat)
    requires (forall i :: 0 <= i < |done| ==> done[i].ci < |ts|) && t < |ts|
    requires forall i :: 0 <= i < |done| ==> done[i].ci != t
    ensures StoreTables(ts, done)[t] == ts[t]
    decreases |done|
  {
    if done != [] { StoredOnlyThere(ts[done[0].ci := (done[0].td, done[0].ta)], done[1..], t); }
  }

  /** A scan header is interrupted after some components. */
  lemma SosLater(os: Orders, s: seq<byte>, st: Reader, st1: Reader, s1: seq<byte>, length: nat, s2: seq<byte>, n: nat,
                 done: seq<CompRef>, next: seq<byte>)
    requires os.Valid() && st.Valid() && st1.Valid() && st.sawSof && (forall i :: 0 <= i < |done| ==> done[i].ci < |st.frame.comps|)
    requires Get2Bytes(s) == Ok(s1, length) && GetByte(s1) == Ok(s2, n) && |done| <= n && CompsAt(s2, n, st.Ids(), done, next)
    requires st1 == st.(scan := st1.scan, compTables := StoreTables(st.compTables, done))
    ensures SameLater(os, SOS, s, st1, st)
  {
    hide ScanComps, StoreTables, Orders.Valid, GetByte, Get2Bytes, CompsAt;
    assert st1.Ids() == st.Ids();
    forall extra ensures Segment(os, SOS, s + extra, st1) == Segment(os, SOS, s + extra, st) {
      var x := ParseSos(s + extra, true, st.kind.progressive, st.Ids());
      if x.Ok? {
        SosHits(s, st, s1, length, s2, n, done, next, extra);
        StoredAgain(st.compTables, done, x.v.refs);
      }
    }
  }

  /** The first of the components are stored again. */
  lemma StoredAgain(ts: seq<(nat, nat)>, done: seq<CompRef>, refs: seq<CompRef>)
    requires (forall i :: 0 <= i < |refs| ==> refs[i].ci < |ts|) && done <= refs
    ensures forall i :: 0 <= i < |done| ==> done[i].ci < |ts|
    ensures StoreTables(StoreTables(ts, done), refs) == StoreTables(ts, refs)
  {
    hide StoreTables;
    assert forall i :: 0 <= i < |done| ==> done[i] == refs[i];
    var now := StoreTables(ts, done);
    forall t | 0 <= t < |ts| && now[t] != ts[t] ensures exists i :: 0 <= i < |refs| && refs[i].ci == t {
      if forall i :: 0 <= i < |done| ==> done[i].ci != t {
        StoredOnlyThere(ts, done, t);
        assert false;
      }
    }
    TablesAlike(now, ts, refs);
  }

  lemma SosHits(s: seq<byte>, st: Reader, s1: seq<byte>, length: nat, s2: seq<byte>, n: nat, done: seq<CompRef>, next: seq<byte>,
                extra: seq<byte>)
    requires Get2Bytes(s) == Ok(s1, length) && GetByte(s1) == Ok(s2, n) && |done| <= n && CompsAt(s2, n, st.Ids(), done, next)
    ensures var x := ParseSos(s + extra, true, st.kind.progressive, st.Ids()); x.Ok? ==> done <= x.v.refs
  {
    hide ScanComps, GetByte, Get2Bytes;
    TwoBytesExtend(s, extra);
    ByteExtends(s1, extra);
    assert ScanComps(s2 + extra, n, st.Ids()) == Prepend(done, ScanComps(next + extra, n - |done|, st.Ids()));
  }

  /** Nothing has been stored. */
  lemma UnchangedLater(os: Orders, code: byte, s: seq<byte>, st: Reader)
    requires os.Valid() && st.Valid()
    ensures SameLater(os, code, s, st, st)
  {
  }

  /** Reading from a restart point: with the code of a marker that has been read already, or without. */
  function Resume(os: Orders, code: byte, s: seq<byte>, st: Reader): Found
    requires os.Valid() && st.Valid()
  {
    if code == 0 then ReadMarkers(os, s, st) else AfterMarker(os, code, s, st)
  }

  /** Whatever comes behind the input, reading from one restart point gives what reading from the other gives. */
  ghost predicate SameReading(os: Orders, code: byte, s: seq<byte>, a: Reader, code1: byte, s1: seq<byte>, b: Reader)
    requires os.Valid() && a.Valid() && b.Valid()
  {
    forall extra :: Resume(os, code, s + extra, a) == Resume(os, code1, s1 + extra, b)
  }

  lemma SameTwice(os: Orders, code: byte, s: seq<byte>, a: Reader, code1: byte, s1: seq<byte>, b: Reader, code2: byte, s2: seq<byte>, c: Reader)
    requires os.Valid() && a.Valid() && b.Valid() && c.Valid()
    requires SameReading(os, code, s, a, code1, s1, b) && SameReading(os, code1, s1, b, code2, s2, c)
    ensures SameReading(os, code, s, a, code2, s2, c)
  {
  }

  lemma MarkerIsNext(os: Orders, s: seq<byte>, st: Reader)
    requires os.Valid() && st.Valid() && NextMarker(s).Some? && NextMarker(s).value.0 != 0
    ensures SameReading(os, 0, s, st, NextMarker(s).value.0, NextMarker(s).value.1, st)
  {
    hide NextMarker, AfterMarker, Orders.Valid, Reader.Valid;
    forall extra ensures ReadMarkers(os, s + extra, st) == AfterMarker(os, NextMarker(s).value.0, NextMarker(s).value.1 + extra, st) {
      NextMarkerExtends(s, extra);
    }
  }

  lemma NoMarkerHere(os: Orders, s: seq<byte>, rest: seq<byte>, st: Reader)
    requires os.Valid() && st.Valid() && SameMarker(s, rest)
    ensures SameReading(os, 0, s, st, 0, rest, st)
  {
    hide NextMarker, AfterMarker, Orders.Valid, Reader.Valid;
    forall extra ensures ReadMarkers(os, s + extra, st) == ReadMarkers(os, rest + extra, st) {
    }
  }

  lemma SegmentIsRead(os: Orders, code: byte, s: seq<byte>, st: Reader)
    requires os.Valid() && st.Valid() && code !in {0, EOI, SOS} && Segment(os, code, s, st).Ok?
    ensures var x := Segment(os, code, s, st); SameReading(os, code, s, st, 0, x.rest, x.v)
  {
    hide Segment, ReadMarkers, Orders.Valid, Reader.Valid;
    var x := Segment(os, code, s, st);
    forall extra ensures AfterMarker(os, code, s + extra, st) == ReadMarkers(os, x.rest + extra, x.v) {
      SegmentExtends(os, code, s, st, extra);
    }
  }

  /** The reading stops, one way or another, wherever the input ends. */
  lemma ReadingStops(os: Orders, code: byte, s: seq<byte>, st: Reader, extra: seq<byte>)
    requires os.Valid() && st.Valid() && code != 0
    ensures code == EOI ==> AfterMarker(os, code, s + extra, st) == ReachedEoi(s + extra, st)
    ensures code != EOI && Segment(os, code, s, st).Bad? ==> AfterMarker(os, code, s + extra, st) == Failed
    ensures code == SOS && Segment(os, code, s, st).Ok? ==>
              var x := Segment(os, code, s, st); AfterMarker(os, code, s + extra, st) == ReachedSos(x.rest + extra, x.v)
    ensures code != EOI && Segment(os, code, s, st).Short? ==> AfterMarker(os, code, s, st) == Suspended
  {
    hide Segment, ReadMarkers, Orders.Valid, Reader.Valid;
    SegmentExtends(os, code, s, st, extra);
  }

  lemma LaterIsSame(os: Orders, code: byte, s: seq<byte>, st: Reader, st1: Reader)
    requires os.Valid() && st.Valid() && st1.Valid() && SameLater(os, code, s, st1, st) && code !in {0, EOI}
    ensures SameReading(os, code, s, st, code, s, st1)
  {
    hide Segment, ReadMarkers, Orders.Valid, Reader.Valid;
    forall extra ensures AfterMarker(os, code, s + extra, st) == AfterMarker(os, code, s + extra, st1) {
      assert Segment(os, code, s + extra, st1) == Segment(os, code, s + extra, st);
    }
  }

  // ---------------------------------------------------------------- the routines

  class MarkerReader {
    const os: Orders
    var input: seq<byte>
    var unreadMarker: byte
    var sawSof: bool
    var kind: Kind
    var frame: FrameHead
    var quant: seq<Option<QuantTable>>
    var dcHuff: seq<Option<HuffSpec>>
    var acHuff: seq<Option<HuffSpec>>
    var dcL: seq<nat>
    var dcU: seq<nat>
    var acK: seq<nat>
    var restartInterval: nat
    var scan: Scanned
    var compTables: seq<(nat, nat)>

    ghost function State(): Reader
      reads this
    {
      Reader(sawSof, kind, frame, quant, dcHuff, acHuff, dcL, dcU, acK, restartInterval, scan, compTables)
    }

    ghost predicate Valid()
      reads this
    {
      os.Valid() && State().Valid()
    }

    /** After SOI. */
    constructor (os: Orders, source: seq<byte>)
      requires os.Valid()
      ensures Valid() && this.os == os && input == source && unreadMarker == 0 && !sawSof && restartInterval == 0
    {
      this.os, input, unreadMarker, sawSof := os, source, 0, false;
      kind, frame := Kind(false, false, false), FrameHead(0, 0, 0, []);
      quant := seq(NUM_QUANT_TBLS, _ => None);
      dcHuff, acHuff := seq(NUM_HUFF_TBLS, _ => None), seq(NUM_HUFF_TBLS, _ => None);
      dcL, dcU, acK := seq(NUM_ARITH_TBLS, _ => 0), seq(NUM_ARITH_TBLS, _ => 1), seq(NUM_ARITH_TBLS, _ => 5);
      restartInterval, scan, compTables := 0, Scanned([], 0, 0, 0, 0), [];
    }

    /** INPUT_BYTE. */
    static method InputByte(next: seq<byte>) returns (ok: bool, v: byte, rest: seq<byte>)
      ensures if ok then GetByte(next) == Ok(rest, v) else GetByte(next) == Short
    {
      if next == [] { return false, 0, next; }
      return true, next[0], next[1..];
    }

    /** INPUT_2BYTES. */
    static method Input2Bytes(next: seq<byte>) returns (ok: bool, v: nat, rest: seq<byte>)
      ensures if ok then Get2Bytes(next) == Ok(rest, v) else Get2Bytes(next) == Short
      ensures v < 0x10000
    {
      var hi, lo;
      v := 0;
      ok, hi, rest := InputByte(next);
      if !ok { return; }
      ok, lo, rest := InputByte(rest);
      if !ok { return; }
      v := 256 * (hi as int) + lo;
    }

    /** Byte after byte into a local buffer. */
    static method InputBytes(next: seq<byte>, n: nat) returns (ok: bool, vals: seq<nat>, rest: seq<byte>)
      ensures if ok then GetValues(next, n, false) == Ok(rest, vals) else GetValues(next, n, false) == Short
    {
      hide GetByte;
      vals, rest := [], next;
      PrependNone(GetValues(next, n, false));
      var i := 0;
      while i < n
        invariant 0 <= i <= n && |vals| == i
        invariant GetValues(next, n, false) == Prepend(vals, GetValues(rest, n - i, false))
      {
        ghost var before, was := vals, rest;
        var v;
        ok, v, rest := InputByte(rest);
        if !ok { return; }
        PrependOne(before, v, GetValues(rest, n - i - 1, false));
        vals := vals + [v];
        i := i + 1;
      }
      assert vals + [] == vals;
      ok := true;
    }

    /** What a routine for one segment promises: all of it done and the restart point behind it, or a refusal, or
        everything that counts as before. */
    twostate predicate Followed(code: byte, status: Status)
      reads this
      requires old(Valid())
    {
      && Valid() && unreadMarker == old(unreadMarker)
      && match Segment(os, code, old(input), old(State()))
         case Ok(r, st) => status == Fine && input == r && State() == st
         case Bad => status == Refused
         case Short => status == Waiting && input == old(input) && SameLater(os, code, input, State(), old(State()))
    }

    static function StatusOf<T>(x: Parsed<T>): Status {
      match x
      case Ok(_, _) => Fine
      case Bad => Refused
      case Short => Waiting
    }

    /** get_dri. */
    method GetDri() returns (status: Status)
      requires Valid()
      modifies this`input, this`restartInterval
      ensures Followed(DRI, status)
    {
      hide Get2Bytes, Orders.Valid, Segment;
      DriSegment(os, input, State());
      UnchangedLater(os, DRI, input, State());
      var ok, length, tmp, next;
      ok, length, next := Input2Bytes(input);
      if !ok { return Waiting; }
      if length != 4 { return Refused; }
      ok, tmp, next := Input2Bytes(next);
      if !ok { return Waiting; }
      restartInterval := tmp;
      input := next;
      status := Fine;
    }

    /** get_dht. */
    method GetDht() returns (status: Status)
      requires Valid()
      modifies this`input, this`dcHuff, this`acHuff
      ensures Followed(DHT, status)
    {
      hide Get2Bytes, GetByte, GetValues, Orders.Valid, DhtTable, DhtTables, DefineHuffs, ParseDht, DhtAt, SameLater, Segment;
      DhtSegment(os, input, State());
      var ok, length, next;
      ghost var s, st := input, State();
      ParseDhtIs(s);
      ok, length, next := Input2Bytes(input);
      NoHuffs(st);
      if !ok {
        SameNow(DHT, st);
        return Waiting;
      }
      SegmentStarts(s);
      var left: int := (length as int) - 2;
      ghost var done: seq<HuffDef> := [];
      while left > 16
        invariant Valid() && input == s && DhtAt(s, done, next, left)
        invariant (forall i :: 0 <= i < |done| ==> IsHuffDef(done[i])) && State() == DefineHuffs(st, done)
        decreases left
      {
        DhtNow(s, done, next, left);
        DhtLater(os, s, st, done, next, left);
        var d, after;
        status, d, after, next := DhtTableAt(next, left);
        if status != Fine { return; }
        ghost var was := next;
        HuffsStep(st, done, d);
        if d.ac {
          acHuff := acHuff[d.index := Some(d.spec)];
        } else {
          dcHuff := dcHuff[d.index := Some(d.spec)];
        }
        done := done + [d];
        left := after;
      }
      DhtNow(s, done, next, left);
      if left != 0 { return Refused; }
      assert done + [] == done;
      input := next;
      status := Fine;
    }

    static lemma ParseDhtIs(s: seq<byte>)
      ensures Get2Bytes(s).Short? ==> ParseDht(s) == Short
      ensures Get2Bytes(s).Bad? ==> ParseDht(s) == Bad
    {
      hide Get2Bytes;
    }

    static lemma NoHuffs(st: Reader)
      requires st.Valid()
      ensures DefineHuffs(st, []) == st
    {
    }

    lemma SameNow(code: byte, st: Reader)
      requires Valid() && st.Valid() && State() == st
      ensures SameLater(os, code, input, State(), st)
    {
    }

    /** Where the routine is decides the outcome. */
    static lemma DhtNow(s: seq<byte>, done: seq<HuffDef>, next: seq<byte>, len: int)
      requires DhtAt(s, done, next, len)
      ensures len > 16 && DhtTable(next, len).Short? ==> ParseDht(s) == Short
      ensures len > 16 && DhtTable(next, len).Bad? ==> ParseDht(s) == Bad
      ensures len > 16 && DhtTable(next, len).Ok? ==> var x := DhtTable(next, len); DhtAt(s, done + [x.v.0], x.rest, x.v.1)
      ensures len <= 16 ==> ParseDht(s) == if len == 0 then Ok(next, done + []) else Bad
    {
      hide DhtTable, ParseDht;
      assert s + [] == s && next + [] == next;
      assert ParseDht(s + []) == Prepend(done, DhtTables(next + [], len));
      if len > 16 && DhtTable(next, len).Ok? { DhtStep(s, done, next, len); }
    }

    /** One table of a DHT segment, into local buffers. */
    static method DhtTableAt(next: seq<byte>, length: int) returns (status: Status, d: HuffDef, left: int, rest: seq<byte>)
      requires length > 16
      ensures match DhtTable(next, length)
              case Ok(r, x) => status == Fine && d == x.0 && left == x.1 && rest == r && left < length
              case Bad => status == Refused
              case Short => status == Waiting
    {
      hide Get2Bytes, GetByte, GetValues;
      var ok, index, bits, huffval;
      d, left := HuffDef(false, 0, HuffSpec([], [])), 0;
      ok, index, rest := InputByte(next);
      if !ok { return Waiting, d, left, rest; }
      ok, bits, rest := InputBytes(rest, 16);
      if !ok { return Waiting, d, left, rest; }
      var count := 0;
      assert bits[..0] == [];
      for i := 0 to 16
        invariant count == Sum(bits[..i])
      {
        assert bits[..i + 1][..i] == bits[..i];
        count := count + bits[i];
      }
      assert bits[..16] == bits;
      left := length - (1 + 16);
      if count > 256 || count > left { return Refused, d, left, rest; }
      ok, huffval, rest := InputBytes(rest, count);
      if !ok { return Waiting, d, left, rest; }
      left := left - count;
      var ac, i := false, index;
      if index / 16 % 2 == 1 {
        ac, i := true, index - 0x10;
      }
      if i >= NUM_HUFF_TBLS { return Refused, d, left, rest; }
      d := HuffDef(ac, i, HuffSpec(bits, huffval));
      status := Fine;
    }

    /** get_dac. */
    method GetDac() returns (status: Status)
      requires Valid()
      modifies this`input, this`dcL, this`dcU, this`acK
      ensures Followed(DAC, status)
    {
      hide Get2Bytes, GetByte, Orders.Valid, DacTables, DefineConds, ParseDac, DacAt, SameLater, Segment;
      DacSegment(os, input, State());
      var ok, length, next;
      ghost var s, st := input, State();
      ParseDacIs(s);
      ok, length, next := Input2Bytes(input);
      NoConds(st);
      if !ok {
        SameNow(DAC, st);
        return Waiting;
      }
      SegmentStarts(s);
      var left: int := (length as int) - 2;
      ghost var done: seq<DacDef> := [];
      while left > 0
        invariant Valid() && input == s && DacAt(s, done, next, left)
        invariant (forall i :: 0 <= i < |done| ==> IsDacDef(done[i])) && State() == DefineConds(st, done)
        decreases left
      {
        DacNow(s, done, next, left);
        DacLater(os, s, st, done, next, left);
        ghost var n0 := next;
        var index, val;
        ok, index, next := InputByte(next);
        if !ok { return Waiting; }
        ghost var n1 := next;
        ok, val, next := InputByte(next);
        if !ok { return Waiting; }
        if index >= 2 * NUM_ARITH_TBLS { return Refused; }
        ok := StoreCond(index, val);
        if !ok { return Refused; }
        ghost var d := CondOf(index, val);
        DacStep(s, done, n0, left, n1, index, next, val, d);
        CondsStep(st, done, d);
        done := done + [d];
        left := left - 2;
      }
      DacNow(s, done, next, left);
      if left != 0 { return Refused; }
      assert done + [] == done;
      input := next;
      status := Fine;
    }

    static function CondOf(index: nat, val: nat): DacDef {
      if index >= NUM_ARITH_TBLS then AcCond(index - NUM_ARITH_TBLS, val) else DcCond(index, val % 16, val / 16)
    }

    /** One pair; false if the DC bounds are out of order. */
    method StoreCond(index: nat, val: nat) returns (ok: bool)
      requires Valid() && index < 2 * NUM_ARITH_TBLS
      modifies this`dcL, this`dcU, this`acK
      ensures Valid() && (ok <==> index >= NUM_ARITH_TBLS || val % 16 <= val / 16)
      ensures ok ==> State() == DefineCond(old(State()), CondOf(index, val))
    {
      hide Orders.Valid;
      ok := true;
      if index >= NUM_ARITH_TBLS {
        acK := acK[index - NUM_ARITH_TBLS := val];
      } else {
        dcL := dcL[index := val % 16];
        dcU := dcU[index := val / 16];
        if dcL[index] > dcU[index] { ok := false; }
      }
    }

    static lemma ParseDacIs(s: seq<byte>)
      ensures Get2Bytes(s).Short? ==> ParseDac(s) == Short
      ensures Get2Bytes(s).Bad? ==> ParseDac(s) == Bad
    {
      hide Get2Bytes;
    }

    static lemma NoConds(st: Reader)
      requires st.Valid()
      ensures DefineConds(st, []) == st
    {
    }

    static lemma DacNow(s: seq<byte>, done: seq<DacDef>, next: seq<byte>, len: int)
      requires DacAt(s, done, next, len)
      ensures len > 0 ==>
                match GetByte(next)
                case Short => ParseDac(s) == Short
                case Bad => true
                case Ok(s1, index) =>
                  match GetByte(s1)
                  case Short => ParseDac(s) == Short
                  case Bad => true
                  case Ok(_, val) =>
                    index >= 2 * NUM_ARITH_TBLS || (index < NUM_ARITH_TBLS && val % 16 > val / 16) ==> ParseDac(s) == Bad
      ensures len <= 0 ==> ParseDac(s) == if len == 0 then Ok(next, done + []) else Bad
    {
      hide GetByte, ParseDac;
      assert s + [] == s && next + [] == next;
      assert ParseDac(s + []) == Prepend(done, DacTables(next + [], len));
    }

    /** get_dqt. A table is overwritten in place, entry by entry. */
    method GetDqt() returns (status: Status)
      requires Valid()
      modifies this`input, this`quant
      ensures Followed(DQT, status)
    {
      hide Get2Bytes, GetByte, GetValues, Orders.Valid, DqtTables, DefineQuants, ParseDqt, DqtAt, SameLater, ValueCount,
           Defined, Segment;
      DqtSegment(os, input, State());
      var ok, length, next;
      ghost var s, st := input, State();
      ParseDqtIs(s);
      ok, length, next := Input2Bytes(input);
      NoQuants(os, st.quant);
      if !ok {
        SameNow(DQT, st);
        return Waiting;
      }
      SegmentStarts(s);
      var left: int := (length as int) - 2;
      ghost var done: seq<QuantDef> := [];
      while left > 0
        invariant Valid() && input == s && DqtAt(s, done, next, left)
        invariant (forall i :: 0 <= i < |done| ==> IsQuantDef(done[i])) && State() == st.(quant := DefineQuants(os, st.quant, done))
        decreases left
      {
        DqtNow(s, done, next, left);
        DqtLater(os, s, st, State(), done, next, left);
        var n: byte, vals;
        ghost var n0 := next;
        ok, n, next := InputByte(next);
        if !ok { return Waiting; }
        ghost var s1 := next;
        left := left - 1;
        if n % 16 >= NUM_QUANT_TBLS { return Refused; }
        var wide := n / 16 != 0;
        ghost var quantBefore := quant;
        ok, vals, next := StoreValues(n % 16, wide, left, next);
        if !ok {
          DqtLaterInside(os, s, st, State(), done, n0, left + 1, s1, n, quant[n % 16]);
          return Waiting;
        }
        ghost var d := QuantDef(n % 16, vals);
        DqtStep(s, done, n0, left + 1, s1, n, next, vals);
        QuantsSnoc(os, st.quant, done, d);
        done := done + [d];
        left := left - |vals|;
        if wide { left := left - |vals|; }
      }
      DqtNow(s, done, next, left);
      if left != 0 { return Refused; }
      assert done + [] == done;
      input := next;
      status := Fine;
    }

    /** Allocate the table if need be, and initialise it if fewer values than entries come. */
    method PrepareTable(n: nat, wide: bool, left: nat) returns (count: nat)
      requires Valid() && n < NUM_QUANT_TBLS
      modifies this`quant
      ensures Valid() && quant == old(quant)[n := quant[n]] && quant[n].Some?
      ensures count == ValueCount(left, wide) && (count < 64 ==> quant[n] == Some(Ones()))
    {
      if quant[n].None? { quant := quant[n := Some(Ones())]; }
      if wide {
        if left < 2 * 64 {
          quant := quant[n := Some(Ones())];
          count := left / 2;
        } else {
          count := 64;
        }
      } else if left < 64 {
        quant := quant[n := Some(Ones())];
        count := left;
      } else {
        count := 64;
      }
    }

    /** The values of one table. */
    method StoreValues(n: nat, wide: bool, left: nat, next: seq<byte>) returns (ok: bool, vals: seq<nat>, rest: seq<byte>)
      requires Valid() && n < NUM_QUANT_TBLS
      modifies this`quant
      ensures Valid() && quant == old(quant)[n := quant[n]]
      ensures !ok ==> GetValues(next, ValueCount(left, wide), wide) == Short
      ensures ok ==> GetValues(next, ValueCount(left, wide), wide) == Ok(rest, vals) && |vals| == ValueCount(left, wide) <= 64
      ensures ok ==> quant == old(quant)[n := Some(Defined(os, vals))]
    {
      hide GetByte, Get2Bytes, GetValues, Orders.Valid, Filled, Defined;
      var count := PrepareTable(n, wide, left);
      var order := os.For(count);
      ghost var base := quant[n].value;
      assert count < 64 ==> base == Ones();
      vals, rest := [], next;
      PrependNone(GetValues(next, count, wide));
      NothingFilled(order, vals, base);
      assert quant == old(quant)[n := Some(base)];
      var i := 0;
      while i < count
        invariant 0 <= i <= count && |vals| == i && |quant| == NUM_QUANT_TBLS
        invariant GetValues(next, count, wide) == Prepend(vals, GetValues(rest, count - i, wide))
        invariant quant == old(quant)[n := Some(Filled(order, vals, i, base))]
      {
        ghost var was := rest;
        var tmp: nat;
        if wide {
          ok, tmp, rest := Input2Bytes(rest);
        } else {
          ok, tmp, rest := InputByte(rest);
        }
        OneValue(was, count - i, wide);
        if !ok { return; }
        PrependOne(vals, tmp, GetValues(rest, count - i - 1, wide));
        FilledNext(order, vals, tmp, base);
        var table: QuantTable := quant[n].value;
        table := table[order[i] := tmp];
        quant := quant[n := Some(table)];
        vals := vals + [tmp];
        i := i + 1;
      }
      NoValuesLeft(rest, wide);
      assert vals + [] == vals;
      TableIsDefined(os, order, vals, base);
      ok := true;
    }

    static lemma NothingFilled(o: seq<nat>, vals: seq<nat>, base: QuantTable)
      requires Orders.IsOrder(o)
      ensures Filled(o, vals, 0, base) == base
    {
    }

    static lemma {:induction false} FilledWithin(o: seq<nat>, vals: seq<nat>, more: seq<nat>, n: nat, base: QuantTable)
      requires Orders.IsOrder(o) && n <= |vals| && n <= |o|
      ensures Filled(o, vals + more, n, base) == Filled(o, vals, n, base)
      decreases n
    {
      if n > 0 { FilledWithin(o, vals, more, n - 1, base); }
    }

    static lemma FilledNext(o: seq<nat>, vals: seq<nat>, v: nat, base: QuantTable)
      requires Orders.IsOrder(o) && |vals| < |o|
      ensures Filled(o, vals + [v], |vals| + 1, base) == Filled(o, vals, |vals|, base)[o[|vals|] := v]
    {
      FilledWithin(o, vals, [v], |vals|, base);
    }

    static lemma OneValue(s: seq<byte>, n: nat, wide: bool)
      requires n > 0
      ensures var x := if wide then Get2Bytes(s) else GetByte(s);
              && (x.Short? ==> GetValues(s, n, wide) == Short)
              && (x.Ok? ==> GetValues(s, n, wide) == Prepend([x.v], GetValues(x.rest, n - 1, wide)))
    {
      hide Get2Bytes, GetByte;
    }

    static lemma NoValuesLeft(s: seq<byte>, wide: bool)
      ensures GetValues(s, 0, wide) == Ok(s, [])
    {
    }

    static lemma TableIsDefined(os: Orders, o: seq<nat>, vals: seq<nat>, base: QuantTable)
      requires os.Valid() && |vals| <= 64 && o == os.For(|vals|) && (|vals| < 64 ==> base == Ones())
      ensures Filled(o, vals, |vals|, base) == Defined(os, vals)
    {
      hide Orders.Valid;
      if |vals| == 64 { AllFilled(os, vals, base); }
    }

    static lemma ParseDqtIs(s: seq<byte>)
      ensures Get2Bytes(s).Short? ==> ParseDqt(s) == Short
      ensures Get2Bytes(s).Bad? ==> ParseDqt(s) == Bad
    {
      hide Get2Bytes;
    }

    static lemma NoQuants(os: Orders, qs: seq<Option<QuantTable>>)
      requires os.Valid() && |qs| == NUM_QUANT_TBLS
      ensures DefineQuants(os, qs, []) == qs
    {
    }

    static lemma DqtNow(s: seq<byte>, done: seq<QuantDef>, next: seq<byte>, len: int)
      requires DqtAt(s, done, next, len)
      ensures len > 0 ==>
                match GetByte(next)
                case Short => ParseDqt(s) == Short
                case Bad => true
                case Ok(s1, n) =>
                  && (n % 16 >= NUM_QUANT_TBLS ==> ParseDqt(s) == Bad)
                  && (n % 16 < NUM_QUANT_TBLS && GetValues(s1, ValueCount(len - 1, n / 16 != 0), n / 16 != 0).Short? ==> ParseDqt(s) == Short)
      ensures len <= 0 ==> ParseDqt(s) == if len == 0 then Ok(next, done + []) else Bad
    {
      hide GetByte, GetValues, ValueCount, ParseDqt;
      assert s + [] == s && next + [] == next;
      assert ParseDqt(s + []) == Prepend(done, DqtTables(next + [], len));
    }

    /** get_sof. The fields of the frame are set one by one. */
    method GetSof(code: byte) returns (status: Status)
      requires Valid() && SofKind(code).Some?
      modifies this`input, this`sawSof, this`kind, this`frame, this`compTables
      ensures Followed(code, status)
    {
      hide ParseSof, Orders.Valid, SameLater, Segment, SofKind, NoTables;
      SofSegment(os, code, input, State());
      ghost var s, st := input, State();
      kind := SofKind(code).value;
      var next;
      status, next := ReadFrame(input);
      SofLater(os, code, s, st, State());
      if status.Fine? {
        sawSof := true;
        input := next;
      }
    }

    /** What comes after the marker. */
    method ReadFrame(start: seq<byte>) returns (status: Status, next: seq<byte>)
      requires Valid()
      modifies this`frame, this`compTables
      ensures Valid() && status == StatusOf(ParseSof(start, sawSof))
      ensures status.Fine? ==> ParseSof(start, sawSof) == Ok(next, frame) && compTables == NoTables(|frame.comps|)
    {
      hide ParseFields, FrameComps, Orders.Valid;
      var ok, f, rest := GetFields(start);
      next := rest;
      if !ok { return Waiting, next; }
      if sawSof || f.height == 0 || f.width == 0 || f.n == 0 || (f.length as int) - 8 != 3 * (f.n as int) { return Refused, next; }
      ok, next := GetFrameComps(f.n, next);
      status := if ok then Fine else Waiting;
    }

    /** The fields of the frame. */
    method GetFields(start: seq<byte>) returns (ok: bool, f: FrameFields, next: seq<byte>)
      requires Valid()
      modifies this`frame
      ensures Valid() && frame.comps == old(frame).comps
      ensures if ok then ParseFields(start) == Ok(next, f) else ParseFields(start) == Short
      ensures ok ==> frame == FrameHead(f.precision, f.height, f.width, old(frame).comps)
    {
      hide Get2Bytes, GetByte, Orders.Valid;
      f := FrameFields(0, 0, 0, 0, 0);
      var length, precision: byte, height, width, n: byte;
      ok, length, next := Input2Bytes(start);
      if !ok { return; }
      ok, precision, next := InputByte(next);
      if !ok { return; }
      frame := frame.(precision := precision);
      ok, height, next := Input2Bytes(next);
      if !ok { return; }
      frame := frame.(height := height);
      ok, width, next := Input2Bytes(next);
      if !ok { return; }
      frame := frame.(width := width);
      ok, n, next := InputByte(next);
      if !ok { return; }
      f := FrameFields(length, precision, height, width, n);
    }

    /** The components of the frame. */
    method GetFrameComps(n: nat, next: seq<byte>) returns (ok: bool, rest: seq<byte>)
      requires Valid()
      modifies this`frame, this`compTables
      ensures Valid() && frame == old(frame).(comps := frame.comps) && compTables == NoTables(n)
      ensures if ok then FrameComps(next, n) == Ok(rest, frame.comps) else FrameComps(next, n) == Short
    {
      hide GetByte, Orders.Valid;
      frame := frame.(comps := seq(n, _ => FrameComp(0, 0, 0, 0)));
      compTables := NoTables(n);
      rest := next;
      PrependNone(FrameComps(next, n));
      assert frame.comps[..0] == [];
      var ci := 0;
      while ci < n
        invariant 0 <= ci <= n == |frame.comps| && compTables == NoTables(n) && frame == old(frame).(comps := frame.comps)
        invariant FrameComps(next, n) == Prepend(frame.comps[..ci], FrameComps(rest, n - ci))
      {
        ghost var was, before := rest, frame.comps[..ci];
        OneFrameComp(was, n - ci);
        ok, rest := GetFrameComp(ci, rest);
        if !ok { return; }
        assert frame.comps[..ci + 1] == before + [frame.comps[ci]];
        PrependOne(before, frame.comps[ci], FrameComps(rest, n - ci - 1));
        ci := ci + 1;
      }
      assert frame.comps[..n] == frame.comps && frame.comps + [] == frame.comps;
      ok := true;
    }

    /** One component: its identifier, its sampling factors, its table. */
    method GetFrameComp(ci: nat, next: seq<byte>) returns (ok: bool, rest: seq<byte>)
      requires ci < |frame.comps|
      modifies this`frame
      ensures frame == old(frame).(comps := frame.comps) && |frame.comps| == |old(frame).comps|
      ensures frame.comps == old(frame).comps[ci := frame.comps[ci]]
      ensures if ok then ParseFrameComp(next) == Ok(rest, frame.comps[ci]) else ParseFrameComp(next) == Short
    {
      hide GetByte;
      var id: byte, c: byte, tq: byte;
      ok, id, rest := InputByte(next);
      if !ok { return; }
      frame := frame.(comps := frame.comps[ci := frame.comps[ci].(id := id)]);
      ok, c, rest := InputByte(rest);
      if !ok { return; }
      frame := frame.(comps := frame.comps[ci := frame.comps[ci].(h := c / 16, v := c % 16)]);
      ok, tq, rest := InputByte(rest);
      if !ok { return; }
      frame := frame.(comps := frame.comps[ci := frame.comps[ci].(tq := tq)]);
    }

    static function ParseFrameComp(s: seq<byte>): Parsed<FrameComp> {
      var (s1, id) :- GetByte(s);
      var (s2, c) :- GetByte(s1);
      var (s3, tq) :- GetByte(s2);
      Ok(s3, FrameComp(id, c / 16, c % 16, tq))
    }

    static lemma OneFrameComp(s: seq<byte>, n: nat)
      requires n > 0
      ensures var x := ParseFrameComp(s);
              && (x.Short? ==> FrameComps(s, n) == Short)
              && (x.Ok? ==> FrameComps(s, n) == Prepend([x.v], FrameComps(x.rest, n - 1)))
    {
      hide GetByte;
    }

    /** get_sos. */
    method GetSos() returns (status: Status)
      requires Valid()
      modifies this`input, this`scan, this`compTables
      ensures Followed(SOS, status)
    {
      hide Get2Bytes, GetByte, ScanComps, ParseTail, Orders.Valid, SameLater, StoreTables, CompsAt, Segment;
      SosSegment(os, input, State());
      ghost var s, st := input, State();
      UnchangedLater(os, SOS, s, st);
      if !sawSof { return Refused; }
      var ok, length, n: byte, next;
      ok, length, next := Input2Bytes(input);
      if !ok { return Waiting; }
      ghost var s1 := next;
      ok, n, next := InputByte(next);
      if !ok { return Waiting; }
      if length != 2 * (n as int) + 6 || n > MAX_COMPS_IN_SCAN || (n == 0 && !kind.progressive) { return Refused; }
      ghost var s2 := next;
      ghost var refs: seq<CompRef>;
      status, refs, next := GetScanComps(n, next);
      ghost var at := next;
      assert State().Ids() == st.Ids();
      if status != Refused { SosLater(os, s, st, State(), s1, length, s2, n, refs, at); }
      if status != Fine { return; }
      ok, next := GetTail(next);
      SosLater(os, s, st, State(), s1, length, s2, n, refs, at);
      if !ok { return Waiting; }
      input := next;
      status := Fine;
    }

    /** The additional scan parameters. */
    method GetTail(start: seq<byte>) returns (ok: bool, next: seq<byte>)
      requires Valid()
      modifies this`scan
      ensures Valid() && scan.cis == old(scan).cis
      ensures if ok then ParseTail(start) == Ok(next, ScanTail(scan.ss, scan.se, scan.ah, scan.al)) else ParseTail(start) == Short
    {
      hide GetByte, Orders.Valid;
      var c: byte;
      ok, c, next := InputByte(start);
      if !ok { return; }
      scan := scan.(ss := c);
      ok, c, next := InputByte(next);
      if !ok { return; }
      scan := scan.(se := c);
      ok, c, next := InputByte(next);
      if !ok { return; }
      scan := scan.(ah := c / 16, al := c % 16);
    }

    /** The components of the scan: each identifier is looked up in the frame. */
    method GetScanComps(n: nat, next: seq<byte>) returns (status: Status, ghost refs: seq<CompRef>, rest: seq<byte>)
      requires Valid()
      modifies this`scan, this`compTables
      ensures Valid() && |refs| <= n && forall i :: 0 <= i < |refs| ==> refs[i].ci < |frame.comps|
      ensures compTables == StoreTables(old(compTables), refs)
      ensures status != Refused ==> CompsAt(next, n, State().Ids(), refs, rest)
      ensures match ScanComps(next, n, State().Ids())
              case Ok(r, v) => status == Fine && rest == r && refs == v && scan.cis == Cis(v)
              case Bad => status == Refused
              case Short => status == Waiting
    {
      hide GetByte, Orders.Valid, ScanComps, StoreTables, CompsAt;
      ghost var ids, tables := State().Ids(), compTables;
      refs, rest := [], next;
      scan := scan.(cis := seq(n, _ => 0));
      CompsStart(next, n, ids);
      NothingStored(tables);
      assert Cis([]) == [];
      var i := 0;
      while i < n
        invariant 0 <= i <= n == |scan.cis| && |refs| == i && Valid() && State().Ids() == ids
        invariant CompsAt(next, n, ids, refs, rest) && scan.cis[..i] == Cis(refs)
        invariant forall k :: 0 <= k < |refs| ==> refs[k].ci < |frame.comps|
        invariant compTables == StoreTables(tables, refs)
      {
        CompsNow(next, n, ids, refs, rest);
        ghost var d, cis := CompRef(0, 0, 0), scan.cis;
        var after;
        status, d, after := GetScanComp(i, rest);
        if status != Fine { return; }
        CompsStep(next, n, ids, refs, rest, CompBytes(rest).0, CompBytes(rest).1, after, CompBytes(rest).2);
        StoreSnoc(tables, refs, d);
        CisSnoc(refs, d);
        assert scan.cis[..i + 1] == cis[..i] + [d.ci];
        refs, rest := refs + [d], after;
        i := i + 1;
      }
      CompsNow(next, n, ids, refs, rest);
      assert refs + [] == refs && scan.cis[..n] == scan.cis;
      status := Fine;
    }

    static lemma CisSnoc(refs: seq<CompRef>, d: CompRef)
      ensures Cis(refs + [d]) == Cis(refs) + [d.ci]
    {
    }

    /** What the two bytes of a component are, if they are there: the input after the first, and both. */
    static ghost function CompBytes(s: seq<byte>): (seq<byte>, nat, nat) {
      var x := GetByte(s);
      if !x.Ok? then (s, 0, 0) else var y := GetByte(x.rest); if y.Ok? then (x.rest, x.v, y.v) else (x.rest, x.v, 0)
    }

    /** One component of the scan. */
    method GetScanComp(i: nat, start: seq<byte>) returns (status: Status, ghost d: CompRef, after: seq<byte>)
      requires Valid() && i < |scan.cis|
      modifies this`scan, this`compTables
      ensures Valid() && State().Ids() == old(State().Ids())
      ensures status == Fine ==>
                var (s1, cc, c) := CompBytes(start);
                && GetByte(start) == Ok(s1, cc) && GetByte(s1) == Ok(after, c) && cc in State().Ids()
                && d == CompRef(FirstWith(State().Ids(), cc), c / 16, c % 16)
                && scan.cis == old(scan).cis[i := d.ci] && compTables == old(compTables)[d.ci := (d.td, d.ta)]
      ensures status != Fine ==> scan == old(scan) && compTables == old(compTables)
      ensures status == Waiting ==> var x := GetByte(start); x.Short? || (x.Ok? && GetByte(x.rest).Short?)
      ensures status == Refused ==> var x := GetByte(start); x.Ok? && GetByte(x.rest).Ok? && x.v !in State().Ids()
    {
      hide GetByte, Orders.Valid;
      d := CompRef(0, 0, 0);
      var ok, cc: byte, c: byte, ci;
      ok, cc, after := InputByte(start);
      if !ok { return Waiting, d, after; }
      ok, c, after := InputByte(after);
      if !ok { return Waiting, d, after; }
      ok, ci := LookUp(cc);
      if !ok { return Refused, d, after; }
      d := CompRef(ci, c / 16, c % 16);
      scan := scan.(cis := scan.cis[i := ci]);
      compTables := compTables[ci := (c / 16, c % 16)];
      status := Fine;
    }

    static lemma NothingStored(ts: seq<(nat, nat)>)
      ensures StoreTables(ts, []) == ts
    {
    }

    static lemma CompsNow(s: seq<byte>, n: nat, ids: seq<nat>, done: seq<CompRef>, next: seq<byte>)
      requires |done| <= n && CompsAt(s, n, ids, done, next)
      ensures |done| == n ==> ScanComps(s, n, ids) == Ok(next, done + [])
      ensures |done| < n ==>
                match GetByte(next)
                case Short => ScanComps(s, n, ids) == Short
                case Bad => true
                case Ok(s1, cc) =>
                  match GetByte(s1)
                  case Short => ScanComps(s, n, ids) == Short
                  case Bad => true
                  case Ok(_, _) => cc !in ids ==> ScanComps(s, n, ids) == Bad
    {
      hide GetByte;
      assert s + [] == s && next + [] == next;
      assert ScanComps(s + [], n, ids) == Prepend(done, ScanComps(next + [], n - |done|, ids));
    }

    /** The first component with the identifier. */
    method LookUp(cc: nat) returns (ok: bool, ci: nat)
      requires Valid()
      ensures ok <==> cc in State().Ids()
      ensures ok ==> ci == FirstWith(State().Ids(), cc)
    {
      ghost var ids := State().Ids();
      ci := 0;
      while ci < |frame.comps|
        invariant 0 <= ci <= |frame.comps| && cc !in ids[..ci]
      {
        assert ids[ci] == frame.comps[ci].id;
        if frame.comps[ci].id == cc {
          FirstIsUnique(ids, cc, ci);
          return true, ci;
        }
        assert ids[..ci + 1] == ids[..ci] + [ids[ci]];
        ci := ci + 1;
      }
      assert ids[..|frame.comps|] == ids;
      ok := false;
    }

    static lemma FirstIsUnique(ids: seq<nat>, id: nat, ci: nat)
      requires ci < |ids| && ids[ci] == id && id !in ids[..ci]
      ensures id in ids && ci == FirstWith(ids, id)
    {
      var first := FirstWith(ids, id);
    }

    // -------------------------------------------------------------- marker after marker

    /** One segment, if its marker is one that this model knows. */
    method GetSegment(code: byte) returns (status: Status)
      requires Valid()
      modifies this`input, this`sawSof, this`kind, this`frame, this`compTables, this`quant, this`dcHuff, this`acHuff,
               this`dcL, this`dcU, this`acK, this`restartInterval, this`scan
      ensures Followed(code, status)
    {
      hide Segment, Orders.Valid, SameLater;
      if code == SOF0 || code == SOF1 || code == SOF2 || code == SOF9 || code == SOF10 {
        status := GetSof(code);
      } else if code == SOS {
        status := GetSos();
      } else if code == DAC {
        status := GetDac();
      } else if code == DHT {
        status := GetDht();
      } else if code == DQT {
        status := GetDqt();
      } else if code == DRI {
        status := GetDri();
      } else {
        OtherSegment(os, code, input, State());
        status := if code == TEM || RST0 <= code < RST0 + 8 then Fine else Refused;
      }
    }

    static lemma OtherSegment(os: Orders, code: byte, s: seq<byte>, st: Reader)
      requires os.Valid() && st.Valid() && code !in {SOF0, SOF1, SOF2, SOF9, SOF10, SOS, DAC, DHT, DQT, DRI}
      ensures Segment(os, code, s, st) == if code == TEM || RST0 <= code < RST0 + 8 then Ok(s, st) else Bad
    {
    }

    /** read_markers. When it has to wait, everything is set for going on: with whatever comes, the reading from here is
        the reading from where this call started. */
    method ReadOn() returns (found: Outcome)
      requires Valid()
      modifies this
      ensures Valid()
      ensures match found
              case JpegSuspended => SameReading(os, old(unreadMarker), old(input), old(State()), unreadMarker, input, State())
                                && Resume(os, unreadMarker, input, State()) == Suspended
              case ErrorExit => forall extra :: Resume(os, old(unreadMarker), old(input) + extra, old(State())) == Failed
              case JpegReachedSos =>
                && unreadMarker == 0
                && forall extra :: Resume(os, old(unreadMarker), old(input) + extra, old(State())) == ReachedSos(input + extra, State())
              case JpegReachedEoi =>
                && unreadMarker == 0
                && forall extra :: Resume(os, old(unreadMarker), old(input) + extra, old(State())) == ReachedEoi(input + extra, State())
    {
      hide Segment, Orders.Valid, Reader.Valid, NextMarker, ReadMarkers, AfterMarker, SameLater, SameMarker, SameReading, Resume;
      ghost var code0, s0, st0 := unreadMarker, input, State();
      SameStart(os, code0, s0, st0);
      while true
        invariant Valid() && SameReading(os, code0, s0, st0, unreadMarker, input, State())
        decreases 2 * |input| + if unreadMarker == 0 then 0 else 1
      {
        ghost var code1, s1, st1 := unreadMarker, input, State();
        if unreadMarker == 0 {
          MarkerIsShorter(input);
          var ok, code, rest := FindNextMarker(input);
          input := rest;
          if !ok {
            NoMarkerHere(os, s1, rest, st1);
            SameTwice(os, code0, s0, st0, 0, s1, st1, 0, rest, st1);
            NothingFound(os, s1, rest, st1);
            return JpegSuspended;
          }
          unreadMarker := code;
          MarkerIsNext(os, s1, st1);
          SameTwice(os, code0, s0, st0, 0, s1, st1, code, rest, st1);
        }
        ghost var s2, st2 := input, State();
        var code := unreadMarker;
        if code == EOI {
          EndIsReached(os, code0, s0, st0, s2, st2);
          unreadMarker := 0;
          return JpegReachedEoi;
        }
        var status := GetSegment(code);
        if status == Waiting {
          LaterIsSame(os, code, s2, st2, State());
          SameTwice(os, code0, s0, st0, code, s2, st2, code, input, State());
          StillWaiting(os, code, s2, st2, State());
          return JpegSuspended;
        }
        if status == Refused {
          ItFails(os, code0, s0, st0, code, s2, st2);
          return ErrorExit;
        }
        unreadMarker := 0;
        if code == SOS {
          ScanIsReached(os, code0, s0, st0, s2, st2);
          return JpegReachedSos;
        }
        SegmentIsRead(os, code, s2, st2);
        SameTwice(os, code0, s0, st0, code, s2, st2, 0, input, State());
      }
    }

    static lemma SameStart(os: Orders, code: byte, s: seq<byte>, st: Reader)
      requires os.Valid() && st.Valid()
      ensures SameReading(os, code, s, st, code, s, st)
    {
    }

    static lemma NothingFound(os: Orders, s: seq<byte>, rest: seq<byte>, st: Reader)
      requires os.Valid() && st.Valid() && NextMarker(s) == None && SameMarker(s, rest)
      ensures Resume(os, 0, rest, st) == Suspended
    {
      hide NextMarker, Orders.Valid;
      NoMarkerIn(s, rest);
    }

    static lemma StillWaiting(os: Orders, code: byte, s: seq<byte>, st: Reader, st1: Reader)
      requires os.Valid() && st.Valid() && st1.Valid() && code !in {0, EOI} && Segment(os, code, s, st).Short?
      requires SameReading(os, code, s, st, code, s, st1)
      ensures Resume(os, code, s, st1) == Suspended
    {
      hide Segment, Orders.Valid, AfterMarker;
      ReadingStops(os, code, s, st, []);
      assert s + [] == s;
      assert Resume(os, code, s + [], st) == Resume(os, code, s + [], st1);
    }

    static lemma EndIsReached(os: Orders, code0: byte, s0: seq<byte>, st0: Reader, s: seq<byte>, st: Reader)
      requires os.Valid() && st0.Valid() && st.Valid() && SameReading(os, code0, s0, st0, EOI, s, st)
      ensures forall extra :: Resume(os, code0, s0 + extra, st0) == ReachedEoi(s + extra, st)
    {
      hide Segment, Orders.Valid, ReadMarkers;
      forall extra ensures Resume(os, code0, s0 + extra, st0) == ReachedEoi(s + extra, st) {
        ReadingStops(os, EOI, s, st, extra);
      }
    }

    static lemma ItFails(os: Orders, code0: byte, s0: seq<byte>, st0: Reader, code: byte, s: seq<byte>, st: Reader)
      requires os.Valid() && st0.Valid() && st.Valid() && SameReading(os, code0, s0, st0, code, s, st)
      requires code !in {0, EOI} && Segment(os, code, s, st).Bad?
      ensures forall extra :: Resume(os, code0, s0 + extra, st0) == Failed
    {
      hide Segment, Orders.Valid, ReadMarkers, AfterMarker;
      forall extra ensures Resume(os, code0, s0 + extra, st0) == Failed {
        ReadingStops(os, code, s, st, extra);
      }
    }

    static lemma ScanIsReached(os: Orders, code0: byte, s0: seq<byte>, st0: Reader, s: seq<byte>, st: Reader)
      requires os.Valid() && st0.Valid() && st.Valid() && SameReading(os, code0, s0, st0, SOS, s, st) && Segment(os, SOS, s, st).Ok?
      ensures var x := Segment(os, SOS, s, st);
              forall extra :: Resume(os, code0, s0 + extra, st0) == ReachedSos(x.rest + extra, x.v)
    {
      hide Segment, Orders.Valid, ReadMarkers, AfterMarker;
      var x := Segment(os, SOS, s, st);
      forall extra ensures Resume(os, code0, s0 + extra, st0) == ReachedSos(x.rest + extra, x.v) {
        ReadingStops(os, SOS, s, st, extra);
      }
    }

    /** The input comes in chunks, and the reader is called after each of them until it finds something. However the input
        has been cut, the result is that of one reading of all of it: the same scan or end, the same tables and
        parameters, the same bytes left. */
    method ReadChunks(chunks: seq<seq<byte>>) returns (found: Outcome, used: nat)
      requires Valid() && chunks != []
      modifies this
      ensures Valid() && used <= |chunks|
      ensures var whole := Resume(os, old(unreadMarker), old(input) + Flat(chunks), old(State()));
              match found
              case JpegSuspended => whole == Suspended && used == |chunks|
              case ErrorExit => whole == Failed
              case JpegReachedSos => whole == ReachedSos(input + Flat(chunks[used..]), State())
              case JpegReachedEoi => whole == ReachedEoi(input + Flat(chunks[used..]), State())
    {
      hide Orders.Valid, Reader.Valid, Resume, Flat;
      ghost var code0, s0, st0 := unreadMarker, input, State();
      used, found := 0, JpegSuspended;
      assert chunks[0..] == chunks;
      while used < |chunks|
        invariant Valid() && used <= |chunks| && found == JpegSuspended
        invariant Resume(os, code0, s0 + Flat(chunks), st0) == Resume(os, unreadMarker, input + Flat(chunks[used..]), State())
        invariant used > 0 ==> Resume(os, unreadMarker, input, State()) == Suspended
      {
        FlatFirst(chunks, used, input);
        input := input + chunks[used];
        used := used + 1;
        ghost var code1, s1, st1 := unreadMarker, input, State();
        found := ReadOn();
        assert Resume(os, code0, s0 + Flat(chunks), st0) == Resume(os, code1, s1 + Flat(chunks[used..]), st1);
        if found != JpegSuspended { return; }
        assert Resume(os, code1, s1 + Flat(chunks[used..]), st1) == Resume(os, unreadMarker, input + Flat(chunks[used..]), State());
      }
      NothingLeft(chunks, input);
    }

    static lemma FlatFirst(chunks: seq<seq<byte>>, i: nat, input: seq<byte>)
      requires i < |chunks|
      ensures input + Flat(chunks[i..]) == (input + chunks[i]) + Flat(chunks[i + 1..])
    {
      assert chunks[i..][1..] == chunks[i + 1..];
    }

    static lemma NothingLeft(chunks: seq<seq<byte>>, input: seq<byte>)
      ensures input + Flat(chunks[|chunks|..]) == input
    {
    }
  }
}
