/** Sequential Huffman coding (encode_one_block, encode_mcu_huff, htest_one_block in jchuff.c and decode_mcu,
    decode_mcu_sub in jdhuff.c): run lengths and magnitudes, DC prediction. Blocks are in zigzag order. */
module HuffmanSequential {
  import opened Arithmetic
  import opened PointTransform
  import opened HuffmanCode
  import opened HuffmanTables
  import opened BitWriting
  import opened HuffmanItems
  import opened HuffmanSegments
  import opened Markers
  import opened EstimationTable
  import opened Seqs

  // ---------------------------------------------------------------- writing

  /** A DC difference: the size of its magnitude, and its bits. */
  function DcItems(tbl: nat, diff: int): seq<Item> {
    if diff == 0 then [Sym(tbl, 0)] else [Sym(tbl, NumBits(Abs(diff)))] + [ValueItem(diff)]
  }

  /** The coefficients from `k` on, after a run of `r` zeros. */
  function AcItems(tbl: nat, z: Block, se: nat, k: nat, r: nat): seq<Item>
    requires se <= 63
    decreases se + 1 - k, r
  {
    if k > se then (if r > 0 then [Sym(tbl, 0)] else [])
    else if z[k] == 0 then AcItems(tbl, z, se, k + 1, r + 1)
    else if r > 15 then [Sym(tbl, ZRL)] + AcItems(tbl, z, se, k, r - 16)
    else [Sym(tbl, 16 * r + NumBits(Abs(z[k])))] + ([ValueItem(z[k])] + AcItems(tbl, z, se, k + 1, 0))
  }

  /** What the encoder does not refuse as out of range. */
  predicate CodableDc(diff: int) { NumBits(Abs(diff)) <= MAX_COEF_BITS + 1 }

  predicate CodableAc(z: Block, se: nat)
    requires se <= 63
  {
    forall k :: 1 <= k <= se ==> NumBits(Abs(z[k])) <= MAX_COEF_BITS
  }

  // ---------------------------------------------------------------- reading

  function ReadDcDiff(t: HuffTable, s: seq<bool>): BitRead<int>
    requires Reads(t)
  {
    var (s1, n) :- ReadSymbol(t, s);
    ReadValue(n, s1)
  }

  function ReadAcs(t: HuffTable, s: seq<bool>, z: Block, se: nat, k: nat): BitRead<Block>
    requires Reads(t) && se <= 63
    decreases se + 1 - k
  {
    if k > se then Done(s, z)
    else
      var (s1, sym) :- ReadSymbol(t, s);
      var r, n := sym / 16, sym % 16;
      if n != 0 then
        var (s2, v) :- ReadValue(n, s1);
        ReadAcs(t, s2, z[Place(k + r) := v], se, k + r + 1)
      else if r == 15 then ReadAcs(t, s1, z, se, k + 16)
      else Done(s1, z)
  }

  // ---------------------------------------------------------------- one block

  lemma DcReads(tables: seq<HuffTable>, tbl: nat, diff: int, rest: seq<bool>)
    requires Sendable(tables, DcItems(tbl, diff))
    ensures tbl < |tables| && Reads(tables[tbl])
    ensures ReadDcDiff(tables[tbl], Bits(tables, DcItems(tbl, diff)) + rest) == Done(rest, diff)
  {
    hide ReadSymbol, ReadValue, BitsOf, SymbolWord, Sends, NumBits, Reads, Bits, Pow2;
    if diff == 0 {
      assert ItemSendable(tables, DcItems(tbl, diff)[0]);
      BitsOfOne(tables, Sym(tbl, 0));
      SymbolReads(tables[tbl], 0, rest);
      NoValue(rest);
    } else {
      ValueSize(diff);
      var n := NumBits(Abs(diff));
      assert DcItems(tbl, diff) == [Sym(tbl, n)] + [ValueItem(diff)];
      hide DcItems, ValueItem;
      SymbolThenValue(tables, tbl, n, diff, rest);
    }
  }

  lemma NoValue(s: seq<bool>)
    ensures ReadValue(0, s) == Done(s, 0)
  {
  }

  /** A block whose coefficients from `k` up to `se` are those of `z`. */
  function Merged(b: Block, z: Block, se: nat, k: nat): Block {
    seq(64, j requires 0 <= j < 64 => if k <= j <= se then z[j] else b[j])
  }

  lemma MergedStep(b: Block, z: Block, se: nat, k0: nat, k: nat)
    requires k0 <= k <= se <= 63 && forall j :: k0 <= j < k ==> z[j] == b[j]
    ensures Merged(b[k := z[k]], z, se, k + 1) == Merged(b, z, se, k0)
  {
  }

  lemma MergedLater(b: Block, z: Block, se: nat, k0: nat, k: nat)
    requires k0 <= k && se <= 63 && forall j :: k0 <= j < k && j <= se ==> z[j] == b[j]
    ensures Merged(b, z, se, k) == Merged(b, z, se, k0)
    ensures k > se ==> Merged(b, z, se, k0) == b
  {
  }

  /** Reading gives the coefficients back. `r` zeros before `k` have been passed by the writer but not by the reader. */
  lemma {:induction false} AcReads(tables: seq<HuffTable>, tbl: nat, z: Block, se: nat, k: nat, r: nat, b: Block,
                                   rest: seq<bool>)
    requires se <= 63 && r < k <= se + 1 && tbl < |tables| && Reads(tables[tbl])
    requires CodableAc(z, se) && Sendable(tables, AcItems(tbl, z, se, k, r))
    requires forall j :: k - r <= j < k ==> z[j] == 0
    requires forall j :: k - r <= j <= se ==> b[j] == 0
    ensures ReadAcs(tables[tbl], Bits(tables, AcItems(tbl, z, se, k, r)) + rest, b, se, k - r)
         == Done(rest, Merged(b, z, se, k - r))
    decreases se + 1 - k, r
  {
    hide ReadAcs, ReadSymbol, ReadValue, SymbolWord, Sends, NumBits, Reads, Bits, Merged, ItemBits, Sendable, ValueItem;
    var k0 := k - r;
    if k > se {
      MergedLater(b, z, se, k0, k);
      if r > 0 {
        EndReads(tables, tbl, b, se, k0, rest);
      } else {
        EmptyBits(tables, rest);
        NothingMore(tables[tbl], rest, b, se, k0);
      }
    } else if z[k] == 0 {
      AcReads(tables, tbl, z, se, k + 1, r + 1, b, rest);
    } else if r > 15 {
      var more := AcItems(tbl, z, se, k, r - 16);
      ZrlReads(tables, tbl, more, b, se, k0, rest);
      AcReads(tables, tbl, z, se, k, r - 16, b, rest);
      MergedLater(b, z, se, k0, k0 + 16);
    } else {
      var more := AcItems(tbl, z, se, k + 1, 0);
      CoefficientReads(tables, tbl, z[k], r, more, b, se, k0, rest);
      AcReads(tables, tbl, z, se, k + 1, 0, b[k := z[k]], rest);
      MergedStep(b, z, se, k0, k);
    }
  }

  lemma NothingMore(t: HuffTable, s: seq<bool>, z: Block, se: nat, k: nat)
    requires Reads(t) && se < k && se <= 63
    ensures ReadAcs(t, s, z, se, k) == Done(s, z)
  {
  }

  lemma EmptyBits(tables: seq<HuffTable>, rest: seq<bool>)
    ensures Bits(tables, []) + rest == rest
  {
  }

  lemma EndReads(tables: seq<HuffTable>, tbl: nat, b: Block, se: nat, k: nat, rest: seq<bool>)
    requires k <= se <= 63 && tbl < |tables| && Reads(tables[tbl])
    requires Sendable(tables, [Sym(tbl, 0)])
    ensures ReadAcs(tables[tbl], Bits(tables, [Sym(tbl, 0)]) + rest, b, se, k) == Done(rest, b)
  {
    hide ReadSymbol, ReadValue, SymbolWord, Sends, Reads, Bits;
    assert ItemSendable(tables, [Sym(tbl, 0)][0]);
    BitsOfOne(tables, Sym(tbl, 0));
    SymbolReads(tables[tbl], 0, rest);
  }

  lemma ZrlReads(tables: seq<HuffTable>, tbl: nat, more: seq<Item>, b: Block, se: nat, k: nat, rest: seq<bool>)
    requires k <= se <= 63 && tbl < |tables| && Reads(tables[tbl])
    requires Sendable(tables, [Sym(tbl, ZRL)] + more)
    ensures Sendable(tables, more)
    ensures ReadAcs(tables[tbl], Bits(tables, [Sym(tbl, ZRL)] + more) + rest, b, se, k)
         == ReadAcs(tables[tbl], Bits(tables, more) + rest, b, se, k + 16)
  {
    hide ReadSymbol, ReadValue, SymbolWord, Sends, Reads, Bits;
    SendableConcat(tables, [Sym(tbl, ZRL)], more);
    assert ItemSendable(tables, [Sym(tbl, ZRL)][0]);
    BitsNext(tables, Sym(tbl, ZRL), more);
    Assoc(SymbolWord(tables[tbl], ZRL), Bits(tables, more), rest);
    SymbolReads(tables[tbl], ZRL, Bits(tables, more) + rest);
  }

  lemma CoefficientReads(tables: seq<HuffTable>, tbl: nat, v: int, r: nat, more: seq<Item>, b: Block, se: nat, k: nat,
                         rest: seq<bool>)
    requires k + r <= se <= 63 && r <= 15 && v != 0 && NumBits(Abs(v)) <= 15 && tbl < |tables| && Reads(tables[tbl])
    requires Sendable(tables, [Sym(tbl, 16 * r + NumBits(Abs(v)))] + ([ValueItem(v)] + more))
    ensures Sendable(tables, more)
    ensures ReadAcs(tables[tbl], Bits(tables, [Sym(tbl, 16 * r + NumBits(Abs(v)))] + ([ValueItem(v)] + more)) + rest,
                    b, se, k)
         == ReadAcs(tables[tbl], Bits(tables, more) + rest, b[k + r := v], se, k + r + 1)
  {
    hide ReadSymbol, ReadValue, SymbolWord, Sends, Reads, Bits, NumBits, BitsOf;
    ValueSize(v);
    var sym, value := Sym(tbl, 16 * r + NumBits(Abs(v))), ValueItem(v);
    SendableConcat(tables, [sym], [value] + more);
    SendableConcat(tables, [value], more);
    assert ItemSendable(tables, [sym][0]);
    BitsNext(tables, sym, [value] + more);
    BitsNext(tables, value, more);
    var w, tail := ItemBits(tables, value), Bits(tables, more) + rest;
    Assoc(w, Bits(tables, more), rest);
    Assoc(SymbolWord(tables[tbl], sym.sym), w + Bits(tables, more), rest);
    SymbolReads(tables[tbl], sym.sym, w + tail);
    ValueReads(v, tail);
    DigitsOf(sym.sym, r, NumBits(Abs(v)));
  }

  // ---------------------------------------------------------------- sequences of blocks

  /** DC and AC tables are numbered in one list: first the DC tables. */
  datatype SeqComp = SeqComp(dcTbl: nat, acTbl: nat)

  /** A scan that codes the DC coefficient, shifted by `al`, and the AC coefficients up to `se`: a sequential scan, or
      with `se` zero the first DC scan of a progressive image. */
  datatype SeqScan = SeqScan(se: nat, al: nat, comps: seq<SeqComp>)

  /** The DC value after the point transform, an arithmetic shift. */
  function DcPoint(sc: SeqScan, z: Block): int { z[0] / Pow2(sc.al) }

  predicate ValidShape(sc: SeqScan) { sc.se <= 63 && sc.al <= 13 && (sc.al > 0 ==> sc.se == 0) }

  predicate ValidScan(sc: SeqScan, tables: seq<HuffTable>) {
    && ValidShape(sc)
    && forall ci :: 0 <= ci < |sc.comps| ==>
         && sc.comps[ci].dcTbl < |tables| && Reads(tables[sc.comps[ci].dcTbl])
         && (sc.se > 0 ==> sc.comps[ci].acTbl < |tables| && Reads(tables[sc.comps[ci].acTbl]))
  }

  datatype Unit = Unit(ci: nat, z: Block)

  /** A block that the scan can code: 16-bit coefficients within the ranges that the encoder checks. */
  predicate CodableUnit(sc: SeqScan, lastDc: seq<int>, u: Unit) {
    && u.ci < |sc.comps| == |lastDc| && sc.se <= 63
    && IsShortBlock(u.z) && CodableDc(DcPoint(sc, u.z) - lastDc[u.ci]) && CodableAc(u.z, sc.se)
  }

  function UnitItems(sc: SeqScan, lastDc: seq<int>, u: Unit): seq<Item>
    requires u.ci < |sc.comps| == |lastDc| && sc.se <= 63
  {
    DcItems(sc.comps[u.ci].dcTbl, DcPoint(sc, u.z) - lastDc[u.ci]) + AcItems(sc.comps[u.ci].acTbl, u.z, sc.se, 1, 0)
  }

  predicate CodableUnits(sc: SeqScan, lastDc: seq<int>, us: seq<Unit>)
    decreases |us|
  {
    us == [] || (CodableUnit(sc, lastDc, us[0]) && CodableUnits(sc, lastDc[us[0].ci := DcPoint(sc, us[0].z)], us[1..]))
  }

  function UnitsItems(sc: SeqScan, lastDc: seq<int>, us: seq<Unit>): seq<Item>
    requires CodableUnits(sc, lastDc, us)
    decreases |us|
  {
    if us == [] then []
    else UnitItems(sc, lastDc, us[0]) + UnitsItems(sc, lastDc[us[0].ci := DcPoint(sc, us[0].z)], us[1..])
  }

  /** One more block at the end. */
  lemma {:induction false} UnitsSnoc(sc: SeqScan, lastDc: seq<int>, us: seq<Unit>, u: Unit)
    requires CodableUnits(sc, lastDc, us) && CodableUnit(sc, LastDcs(sc, lastDc, us), u)
    ensures CodableUnits(sc, lastDc, us + [u]) && u.ci < |sc.comps| == |LastDcs(sc, lastDc, us)| && sc.se <= 63
    ensures UnitsItems(sc, lastDc, us + [u]) == UnitsItems(sc, lastDc, us) + UnitItems(sc, LastDcs(sc, lastDc, us), u)
    ensures LastDcs(sc, lastDc, us + [u]) == LastDcs(sc, lastDc, us)[u.ci := DcPoint(sc, u.z)]
    decreases |us|
  {
    hide CodableUnit, UnitItems;
    if us == [] {
      assert [u][1..] == [];
      UnitComponent(sc, lastDc, u);
      assert UnitItems(sc, lastDc, u) + [] == UnitItems(sc, lastDc, u);
    } else {
      UnitComponent(sc, lastDc, us[0]);
      assert (us + [u])[1..] == us[1..] + [u];
      var next := lastDc[us[0].ci := DcPoint(sc, us[0].z)];
      UnitsSnoc(sc, next, us[1..], u);
      Assoc(UnitItems(sc, lastDc, us[0]), UnitsItems(sc, next, us[1..]), UnitItems(sc, LastDcs(sc, next, us[1..]), u));
    }
  }

  /** Blocks and more blocks. */
  lemma {:induction false} UnitsJoin(sc: SeqScan, lastDc: seq<int>, a: seq<Unit>, b: seq<Unit>)
    ensures CodableUnits(sc, lastDc, a + b) <==> CodableUnits(sc, lastDc, a) && CodableUnits(sc, LastDcs(sc, lastDc, a), b)
    ensures CodableUnits(sc, lastDc, a + b) ==>
              && UnitsItems(sc, lastDc, a + b) == UnitsItems(sc, lastDc, a) + UnitsItems(sc, LastDcs(sc, lastDc, a), b)
              && LastDcs(sc, lastDc, a + b) == LastDcs(sc, LastDcs(sc, lastDc, a), b)
    decreases |a|
  {
    hide CodableUnit, UnitItems;
    if a == [] {
      assert a + b == b;
    } else {
      assert (a + b)[1..] == a[1..] + b;
      if CodableUnit(sc, lastDc, a[0]) {
        UnitComponent(sc, lastDc, a[0]);
        var next := lastDc[a[0].ci := DcPoint(sc, a[0].z)];
        UnitsJoin(sc, next, a[1..], b);
        if CodableUnits(sc, lastDc, a + b) {
          Assoc(UnitItems(sc, lastDc, a[0]), UnitsItems(sc, next, a[1..]), UnitsItems(sc, LastDcs(sc, next, a[1..]), b));
        }
      }
    }
  }

  /** The DC coefficient for a DC value. */
  function StoredDc(sc: SeqScan, dc: int): int { Short(dc * Pow2(sc.al)) }

  function ReadAcPart(sc: SeqScan, tables: seq<HuffTable>, s: seq<bool>, ci: nat, b: Block): BitRead<Block>
    requires ValidScan(sc, tables) && ci < |sc.comps|
  {
    if sc.se == 0 then Done(s, b) else ReadAcs(tables[sc.comps[ci].acTbl], s, b, sc.se, 1)
  }

  function ReadUnit(sc: SeqScan, tables: seq<HuffTable>, lastDc: seq<int>, s: seq<bool>, ci: nat, b: Block)
    : (x: BitRead<(seq<int>, Block)>)
    requires ValidScan(sc, tables) && ci < |sc.comps| == |lastDc|
    ensures x.Done? ==> |x.v.0| == |lastDc|
  {
    var (s1, diff) :- ReadDcDiff(tables[sc.comps[ci].dcTbl], s);
    var dc := diff + lastDc[ci];
    var (s2, z) :- ReadAcPart(sc, tables, s1, ci, b[0 := StoredDc(sc, dc)]);
    Done(s2, (lastDc[ci := dc], z))
  }

  function ReadUnits(sc: SeqScan, tables: seq<HuffTable>, lastDc: seq<int>, s: seq<bool>, cis: seq<nat>, bs: seq<Block>)
    : (x: BitRead<(seq<int>, seq<Block>)>)
    requires ValidScan(sc, tables) && |lastDc| == |sc.comps| && |bs| == |cis|
    requires forall i :: 0 <= i < |cis| ==> cis[i] < |sc.comps|
    ensures x.Done? ==> |x.v.0| == |lastDc| && |x.v.1| == |bs|
    decreases |cis|
  {
    hide ReadUnit;
    if cis == [] then Done(s, (lastDc, []))
    else
      var (s1, x) :- ReadUnit(sc, tables, lastDc, s, cis[0], bs[0]);
      var (s2, y) :- ReadUnits(sc, tables, x.0, s1, cis[1..], bs[1..]);
      Done(s2, (y.0, [x.1] + y.1))
  }

  /** Zeros are passed over, so the area must have been zeroed where the scan has AC coefficients. */
  predicate Zeroed(sc: SeqScan, b: Block) { sc.se <= 63 && forall j :: 1 <= j <= sc.se ==> b[j] == 0 }

  /** The area with the coefficients that the scan codes. */
  function Coded(sc: SeqScan, z: Block, b: Block): Block { Merged(b[0 := DcApprox(z[0], sc.al)], z, sc.se, 1) }

  /** For full-size blocks of a sequential scan that is the block. */
  lemma FullBlockIsCoded(sc: SeqScan, z: Block, b: Block)
    requires sc.se == 63 && sc.al == 0
    ensures Coded(sc, z, b) == z
  {
    ApproxAtZero(z[0]);
  }

  lemma {:induction false} UnitReads(sc: SeqScan, tables: seq<HuffTable>, lastDc: seq<int>, u: Unit, area: Block, rest: seq<bool>)
    requires ValidScan(sc, tables) && CodableUnit(sc, lastDc, u) && Sendable(tables, UnitItems(sc, lastDc, u))
    requires Zeroed(sc, area)
    ensures ReadUnit(sc, tables, lastDc, Bits(tables, UnitItems(sc, lastDc, u)) + rest, u.ci, area)
         == Done(rest, (lastDc[u.ci := DcPoint(sc, u.z)], Coded(sc, u.z, area)))
  {
    hide ReadDcDiff, ReadAcs, DcItems, AcItems, Bits, Sendable, Reads, CodableDc, Merged, Pow2, DcApprox, Short;
    var t, diff := sc.comps[u.ci], DcPoint(sc, u.z) - lastDc[u.ci];
    var dc, ac := DcItems(t.dcTbl, diff), AcItems(t.acTbl, u.z, sc.se, 1, 0);
    SendableConcat(tables, dc, ac);
    BitsConcat(tables, dc, ac);
    Assoc(Bits(tables, dc), Bits(tables, ac), rest);
    DcReads(tables, t.dcTbl, diff, Bits(tables, ac) + rest);
    DcRestored(sc, u.z);
    var b := area[0 := DcApprox(u.z[0], sc.al)];
    if sc.se == 0 {
      NoAcItems(tables, t.acTbl, u.z, rest);
      MergedLater(b, u.z, 0, 1, 1);
    } else {
      AcReads(tables, t.acTbl, u.z, sc.se, 1, 0, b, rest);
    }
  }

  lemma DcRestored(sc: SeqScan, z: Block)
    requires ValidShape(sc) && IsShortBlock(z)
    ensures StoredDc(sc, DcPoint(sc, z)) == DcApprox(z[0], sc.al)
  {
    DcApproxIsShort(z[0], sc.al);
  }

  lemma NoAcItems(tables: seq<HuffTable>, tbl: nat, z: Block, rest: seq<bool>)
    ensures AcItems(tbl, z, 0, 1, 0) == [] && Bits(tables, []) + rest == rest
  {
  }

  function Components(us: seq<Unit>): (cis: seq<nat>)
    ensures |cis| == |us|
  {
    seq(|us|, i requires 0 <= i < |us| => us[i].ci)
  }

  predicate AllZeroed(sc: SeqScan, us: seq<Unit>, areas: seq<Block>) {
    |areas| == |us| && forall i :: 0 <= i < |areas| ==> Zeroed(sc, areas[i])
  }

  function CodedBlocks(sc: SeqScan, us: seq<Unit>, areas: seq<Block>): (bs: seq<Block>)
    requires |areas| == |us|
    ensures |bs| == |us|
  {
    seq(|us|, i requires 0 <= i < |us| => Coded(sc, us[i].z, areas[i]))
  }

  /** The DC predictions after a sequence of blocks. */
  function LastDcs(sc: SeqScan, lastDc: seq<int>, us: seq<Unit>): (r: seq<int>)
    requires CodableUnits(sc, lastDc, us)
    ensures |r| == |lastDc|
    decreases |us|
  {
    if us == [] then lastDc else LastDcs(sc, lastDc[us[0].ci := DcPoint(sc, us[0].z)], us[1..])
  }

  lemma {:induction false} ComponentsExist(sc: SeqScan, lastDc: seq<int>, us: seq<Unit>)
    requires CodableUnits(sc, lastDc, us)
    ensures forall i :: 0 <= i < |us| ==> Components(us)[i] < |sc.comps|
    decreases |us|
  {
    hide CodableUnit;
    if us != [] {
      UnitComponent(sc, lastDc, us[0]);
      ComponentsExist(sc, lastDc[us[0].ci := DcPoint(sc, us[0].z)], us[1..]);
      assert forall i :: 0 < i < |us| ==> Components(us)[i] == Components(us[1..])[i - 1];
    }
  }

  lemma UnitComponent(sc: SeqScan, lastDc: seq<int>, u: Unit)
    requires CodableUnit(sc, lastDc, u)
    ensures u.ci < |sc.comps| == |lastDc| && sc.se <= 63
  {
  }

  /** Any sequence of blocks in range is read back, with the same DC predictions at the end. */
  lemma {:induction false} UnitsRead(sc: SeqScan, tables: seq<HuffTable>, lastDc: seq<int>, us: seq<Unit>, areas: seq<Block>,
                                     rest: seq<bool>)
    requires ValidScan(sc, tables) && |lastDc| == |sc.comps| && CodableUnits(sc, lastDc, us) && AllZeroed(sc, us, areas)
    requires Sendable(tables, UnitsItems(sc, lastDc, us))
    ensures forall i :: 0 <= i < |us| ==> Components(us)[i] < |sc.comps|
    ensures ReadUnits(sc, tables, lastDc, Bits(tables, UnitsItems(sc, lastDc, us)) + rest, Components(us), areas)
         == Done(rest, (LastDcs(sc, lastDc, us), CodedBlocks(sc, us, areas)))
    decreases |us|
  {
    hide ReadUnit, UnitItems, Bits, Sendable, CodableUnit, Coded, Zeroed, Reads, ValidScan;
    ComponentsExist(sc, lastDc, us);
    if us == [] {
      EmptyBits(tables, rest);
    } else {
      var u := us[0];
      UnitComponent(sc, lastDc, u);
      var next := lastDc[u.ci := DcPoint(sc, u.z)];
      var a, b := UnitItems(sc, lastDc, u), UnitsItems(sc, next, us[1..]);
      SendableConcat(tables, a, b);
      BitsConcat(tables, a, b);
      Assoc(Bits(tables, a), Bits(tables, b), rest);
      UnitReads(sc, tables, lastDc, u, areas[0], Bits(tables, b) + rest);
      UnitsRead(sc, tables, next, us[1..], areas[1..], rest);
      assert Components(us)[1..] == Components(us[1..]);
      assert CodedBlocks(sc, us, areas) == [Coded(sc, u.z, areas[0])] + CodedBlocks(sc, us[1..], areas[1..]);
    }
  }

  // ---------------------------------------------------------------- whole scans

  function ResetDc(sc: SeqScan): (lastDc: seq<int>)
    ensures |lastDc| == |sc.comps|
  {
    seq(|sc.comps|, _ => 0)
  }

  predicate CodableParts(sc: SeqScan, parts: seq<seq<Unit>>) {
    forall i :: 0 <= i < |parts| ==> CodableUnits(sc, ResetDc(sc), parts[i])
  }

  /** What is sent for each interval. */
  function SegmentItems(sc: SeqScan, parts: seq<seq<Unit>>): (r: seq<seq<Item>>)
    requires CodableParts(sc, parts)
    ensures |r| == |parts|
  {
    seq(|parts|, i requires 0 <= i < |parts| => UnitsItems(sc, ResetDc(sc), parts[i]))
  }

  /** Every restart interval can be coded, and every symbol it needs has a code. */
  predicate CodableScan(sc: SeqScan, tables: seq<HuffTable>, parts: seq<seq<Unit>>) {
    forall i :: 0 <= i < |parts| ==>
      CodableUnits(sc, ResetDc(sc), parts[i]) && Sendable(tables, UnitsItems(sc, ResetDc(sc), parts[i]))
  }

  /** The bits of every interval. */
  function ScanBits(sc: SeqScan, tables: seq<HuffTable>, parts: seq<seq<Unit>>): (r: seq<seq<bool>>)
    requires CodableScan(sc, tables, parts)
    ensures |r| == |parts|
  {
    seq(|parts|, i requires 0 <= i < |parts| => Bits(tables, UnitsItems(sc, ResetDc(sc), parts[i])))
  }

  predicate ScanZeroed(sc: SeqScan, parts: seq<seq<Unit>>, areas: seq<seq<Block>>) {
    |areas| == |parts| && forall i :: 0 <= i < |parts| ==> AllZeroed(sc, parts[i], areas[i])
  }

  /** A sequential scan, from coefficients to stuffed bytes with restart markers, is read back block by block; what
      is left of every segment is padding of less than a byte, all ones. */
  lemma SequentialScanIsLossless(sc: SeqScan, tables: seq<HuffTable>, parts: seq<seq<Unit>>, areas: seq<seq<Block>>, tail: seq<byte>)
    requires ValidScan(sc, tables) && parts != [] && CodableScan(sc, tables, parts) && IsMarkerTail(tail)
    requires ScanZeroed(sc, parts, areas)
    ensures Split(ScanBytes(ScanBits(sc, tables, parts), 0) + tail, |parts|, 0).Some?
    ensures forall i :: 0 <= i < |parts| ==>
              var s := Split(ScanBytes(ScanBits(sc, tables, parts), 0) + tail, |parts|, 0).value[i];
              && (forall j :: 0 <= j < |parts[i]| ==> Components(parts[i])[j] < |sc.comps|)
              && AllZeroed(sc, parts[i], areas[i]) && ReadsBack(sc, tables, s, parts[i], areas[i])
  {
    hide UnitsItems, CodableUnits, Sendable, Bits, Padded, ValidScan, ReadsBack, AllZeroed;
    var segments := ScanBits(sc, tables, parts);
    SegmentsAreSplit(segments, 0, tail);
    forall i | 0 <= i < |parts|
      ensures forall j :: 0 <= j < |parts[i]| ==> Components(parts[i])[j] < |sc.comps|
      ensures AllZeroed(sc, parts[i], areas[i]) && ReadsBack(sc, tables, AllPadded(segments)[i], parts[i], areas[i])
    {
      ComponentsExist(sc, ResetDc(sc), parts[i]);
      IntervalReadsBack(sc, tables, parts[i], areas[i]);
    }
  }

  predicate IsPadding(rest: seq<bool>) { |rest| < 8 && rest == AllOnes(|rest|) }

  predicate ReadsBack(sc: SeqScan, tables: seq<HuffTable>, s: seq<bool>, us: seq<Unit>, areas: seq<Block>)
    requires ValidScan(sc, tables) && (forall j :: 0 <= j < |us| ==> Components(us)[j] < |sc.comps|) && AllZeroed(sc, us, areas)
  {
    var x := ReadUnits(sc, tables, ResetDc(sc), s, Components(us), areas);
    x.Done? && x.v.1 == CodedBlocks(sc, us, areas) && IsPadding(x.rest)
  }

  lemma IntervalReadsBack(sc: SeqScan, tables: seq<HuffTable>, us: seq<Unit>, areas: seq<Block>)
    requires ValidScan(sc, tables) && CodableUnits(sc, ResetDc(sc), us) && AllZeroed(sc, us, areas)
    requires Sendable(tables, UnitsItems(sc, ResetDc(sc), us))
    ensures forall j :: 0 <= j < |us| ==> Components(us)[j] < |sc.comps|
    ensures ReadsBack(sc, tables, Padded(Bits(tables, UnitsItems(sc, ResetDc(sc), us))), us, areas)
  {
    hide UnitsItems, CodableUnits, Sendable, Bits, ValidScan, ReadUnits, Zeroed;
    var bits := Bits(tables, UnitsItems(sc, ResetDc(sc), us));
    UnitsRead(sc, tables, ResetDc(sc), us, areas, AllOnes((8 - |bits| % 8) % 8));
  }
}
