/** What Huffman coding sends for a block, laid out symbol by symbol from the coefficients alone, as sections F.1.2 and
    G.1.2 of ITU-T T.81 describe it. The functions of HuffmanSequential and HuffmanFirst, which go through a block step
    by step, come to the same symbols and bits. */
module StandardItems {
  import opened Arithmetic
  import opened PointTransform
  import opened HuffmanCode
  import opened HuffmanTables
  import opened HuffmanItems
  import opened HuffmanEobRuns
  import opened Seqs
  import S = HuffmanSequential
  import F = HuffmanFirst

  // ---------------------------------------------------------------- values

  /** How many binary digits a magnitude has. */
  function Width(m: nat): (n: nat)
    ensures m > 0 ==> n >= 1 && Pow2(n - 1) <= m < Pow2(n)
    ensures m == 0 ==> n == 0
  {
    if m == 0 then 0 else if m == 1 then 1 else Width(m / 2) + 1
  }

  /** A positive value is sent as it is, a negative one as the complement of its magnitude. */
  function ValueCode(v: int): Item
    requires v != 0
  {
    var n := Width(Abs(v));
    Raw(if v > 0 then v else Pow2(n) - 1 - Abs(v), n)
  }

  lemma {:induction false} WidthIsUnique(m: nat, a: nat, b: nat)
    requires Pow2(a) <= m < Pow2(a + 1) && Pow2(b) <= m < Pow2(b + 1)
    ensures a == b
  {
    if a < b { PowersInOrder(a + 1, b); } else if b < a { PowersInOrder(b + 1, a); }
  }

  lemma NumBitsIsWidth(m: nat)
    ensures NumBits(m) == Width(m)
  {
    NumBitsFacts(m);
    if m > 0 { WidthIsUnique(m, NumBits(m) - 1, Width(m) - 1); }
  }

  lemma ValueItemIsStandard(v: int)
    requires v != 0
    ensures ValueItem(v) == ValueCode(v)
  {
    NumBitsIsWidth(Abs(v));
    NumBitsFacts(Abs(v));
    hide NumBits, Width, Pow2;
  }

  /** The first bit of a value tells its sign, and the bits of the negative are the opposite ones. */
  lemma OppositeBits(v: int)
    requires v > 0
    ensures var n := Width(v);
            var s, u := BitsOf(ValueItem(v).code, n), BitsOf(ValueItem(-v).code, n);
            && n >= 1 && s[0] && ValueOf(s) == v
            && forall i :: 0 <= i < n ==> s[i] == !u[i]
  {
    ValueItemIsStandard(v);
    ValueItemIsStandard(-v);
    var n := Width(v);
    assert ValueItem(v).code == v && ValueItem(-v).code == Pow2(n) - 1 - v;
    hide Width, ValueItem, ValueCode, BitsOf, Pow2;
    ComplementBits(v, n);
    ValueOfBits(v, n);
    HighestIsSet(v, n);
  }

  lemma {:induction false} ComplementBits(v: nat, n: nat)
    requires v < Pow2(n)
    ensures forall i :: 0 <= i < n ==> BitsOf(v, n)[i] == !BitsOf(Pow2(n) - 1 - v, n)[i]
    decreases n
  {
    if n > 0 {
      ComplementBits(v / 2, n - 1);
      var c := Pow2(n) - 1 - v;
      assert c / 2 == Pow2(n - 1) - 1 - v / 2 && c % 2 == 1 - v % 2;
    }
  }

  lemma {:induction false} HighestIsSet(v: nat, n: nat)
    requires n >= 1 && Pow2(n - 1) <= v < Pow2(n)
    ensures BitsOf(v, n)[0]
    decreases n
  {
    if n > 1 { HighestIsSet(v / 2, n - 1); }
  }

  // ---------------------------------------------------------------- runs and sizes

  /** How many coefficients directly before `k`, from `first` on, are zero after the point transform. */
  function ZerosBefore(z: Block, al: nat, first: nat, k: nat): (r: nat)
    requires first <= k <= 64
    ensures r <= k - first
  {
    if k == first || Truncated(z[k - 1], al) != 0 then 0 else ZerosBefore(z, al, first, k - 1) + 1
  }

  function Zrls(tbl: nat, n: nat): seq<Item> { seq(n, _ => Sym(tbl, 0xF0)) }

  /** A nonzero coefficient `v` after `r` zeros: a symbol for every sixteen of them, then one for the zeros that remain and
      the size of the value, then its bits. */
  function Coefficient(tbl: nat, v: int, r: nat): seq<Item>
    requires v != 0
  {
    Zrls(tbl, r / 16) + [Sym(tbl, 16 * (r % 16) + Width(Abs(v))), ValueCode(v)]
  }

  lemma CoefficientStep(tbl: nat, v: int, r: nat)
    requires v != 0
    ensures r >= 16 ==> Coefficient(tbl, v, r) == [Sym(tbl, ZRL)] + Coefficient(tbl, v, r - 16)
    ensures r < 16 ==> Coefficient(tbl, v, r) == [Sym(tbl, 16 * r + NumBits(Abs(v)))] + [ValueItem(v)]
  {
    ValueItemIsStandard(v);
    NumBitsIsWidth(Abs(v));
    hide Width, NumBits, ValueItem, ValueCode;
    var own := [Sym(tbl, 16 * (r % 16) + Width(Abs(v))), ValueCode(v)];
    if r >= 16 {
      assert Zrls(tbl, r / 16) == [Sym(tbl, ZRL)] + Zrls(tbl, (r - 16) / 16);
      assert (r - 16) % 16 == r % 16;
      Assoc([Sym(tbl, ZRL)], Zrls(tbl, (r - 16) / 16), own);
    } else {
      assert Zrls(tbl, 0) + own == own;
    }
  }

  function Piece(tbl: nat, z: Block, al: nat, first: nat, k: nat): seq<Item>
    requires first <= k <= 63
  {
    var v, r := Truncated(z[k], al), ZerosBefore(z, al, first, k);
    if v == 0 then [] else Coefficient(tbl, v, r)
  }

  /** The pieces of the coefficients from `k` to `se`. */
  function Pieces(tbl: nat, z: Block, al: nat, first: nat, k: nat, se: nat): seq<seq<Item>>
    requires first <= k <= se + 1 && se <= 63
  {
    seq(se + 1 - k, i requires 0 <= i < se + 1 - k => Piece(tbl, z, al, first, k + i))
  }

  lemma FirstPiece(tbl: nat, z: Block, al: nat, first: nat, k: nat, se: nat)
    requires first <= k <= se <= 63
    ensures Flat(Pieces(tbl, z, al, first, k, se)) == Piece(tbl, z, al, first, k) + Flat(Pieces(tbl, z, al, first, k + 1, se))
  {
    hide Piece;
    var ps := Pieces(tbl, z, al, first, k, se);
    assert ps[0] == Piece(tbl, z, al, first, k) && ps[1..] == Pieces(tbl, z, al, first, k + 1, se);
  }

  lemma NoPieces(tbl: nat, z: Block, al: nat, first: nat, se: nat)
    requires first <= se + 1 && se <= 63
    ensures Flat(Pieces(tbl, z, al, first, se + 1, se)) == []
  {
  }

  // ---------------------------------------------------------------- sequential blocks

  function DcCode(tbl: nat, diff: int): seq<Item> {
    [Sym(tbl, Width(Abs(diff)))] + if diff == 0 then [] else [ValueCode(diff)]
  }

  lemma DcItemsAreStandard(tbl: nat, diff: int)
    ensures S.DcItems(tbl, diff) == DcCode(tbl, diff)
  {
    hide Width, NumBits;
    NumBitsIsWidth(Abs(diff));
    if diff != 0 { ValueItemIsStandard(diff); }
    hide ValueItem, ValueCode;
  }

  /** The end of a block is sent unless its last coefficient is not zero. */
  function EndCode(tbl: nat, z: Block, se: nat): seq<Item>
    requires se <= 63
  {
    if se >= 1 && z[se] == 0 then [Sym(tbl, 0)] else []
  }

  function AcBlockCode(tbl: nat, z: Block, se: nat): seq<Item>
    requires se <= 63
  {
    Flat(Pieces(tbl, z, 0, 1, 1, se)) + EndCode(tbl, z, se)
  }

  /** At a nonzero coefficient, sixteens of zeros are sent first. */
  lemma {:induction false} ZrlsFirst(tbl: nat, z: Block, se: nat, k: nat, r: nat)
    requires 1 <= k <= se <= 63 && z[k] != 0
    ensures S.AcItems(tbl, z, se, k, r) == Coefficient(tbl, z[k], r) + S.AcItems(tbl, z, se, k + 1, 0)
    decreases r
  {
    hide Coefficient, NumBits, ValueItem;
    CoefficientStep(tbl, z[k], r);
    var more := S.AcItems(tbl, z, se, k + 1, 0);
    if r > 15 {
      ZrlsFirst(tbl, z, se, k, r - 16);
      Assoc([Sym(tbl, ZRL)], Coefficient(tbl, z[k], r - 16), more);
    } else {
      Assoc([Sym(tbl, 16 * r + NumBits(Abs(z[k])))], [ValueItem(z[k])], more);
    }
  }

  lemma {:induction false} AcItemsAre(tbl: nat, z: Block, se: nat, k: nat)
    requires 1 <= k <= se + 1 && se <= 63
    ensures S.AcItems(tbl, z, se, k, ZerosBefore(z, 0, 1, k)) == Flat(Pieces(tbl, z, 0, 1, k, se)) + EndCode(tbl, z, se)
    decreases se + 1 - k
  {
    hide Pieces, Truncated, Coefficient;
    var r, last := ZerosBefore(z, 0, 1, k), EndCode(tbl, z, se);
    if k > se {
      NoPieces(tbl, z, 0, 1, se);
      if se >= 1 { ApproxAtZero(z[se]); }
      assert [] + last == last;
    } else {
      ApproxAtZero(z[k]);
      AcItemsAre(tbl, z, se, k + 1);
      FirstPiece(tbl, z, 0, 1, k, se);
      var rest := Flat(Pieces(tbl, z, 0, 1, k + 1, se));
      hide EndCode;
      if z[k] == 0 {
        assert [] + rest == rest;
      } else {
        ZrlsFirst(tbl, z, se, k, r);
        hide S.AcItems;
        Assoc(Coefficient(tbl, z[k], r), rest, last);
      }
    }
  }

  lemma AcBlockIsStandard(tbl: nat, z: Block, se: nat)
    requires se <= 63
    ensures S.AcItems(tbl, z, se, 1, 0) == AcBlockCode(tbl, z, se)
  {
    hide S.AcItems, Pieces, EndCode;
    AcItemsAre(tbl, z, se, 1);
  }

  /** What the encoder does not refuse: DC differences of at most eleven bits and AC coefficients of at most ten. */
  lemma CodableRanges(diff: int, z: Block, se: nat)
    requires se <= 63
    ensures S.CodableDc(diff) <==> -2048 < diff < 2048
    ensures S.CodableAc(z, se) <==> forall k :: 1 <= k <= se ==> -1024 < z[k] < 1024
  {
    assert Pow2(4) == 16 && Pow2(8) == 256 && Pow2(10) == 1024 && Pow2(11) == 2048;
    NumBitsBound(Abs(diff), 11);
    hide NumBits, Pow2;
    forall k | 1 <= k <= se ensures NumBits(Abs(z[k])) <= 10 <==> -1024 < z[k] < 1024 {
      NumBitsBound(Abs(z[k]), 10);
    }
  }

  lemma CodableBandRange(p: Band, z: Block)
    requires ValidBand(p)
    ensures F.CodableBand(p, z) <==> forall k :: p.ss <= k <= p.se ==> -1024 < Truncated(z[k], p.al) < 1024
  {
    assert Pow2(4) == 16 && Pow2(8) == 256 && Pow2(10) == 1024;
    hide NumBits, Truncated;
    forall k | p.ss <= k <= p.se ensures NumBits(Mag(z, p, k)) <= 10 <==> -1024 < Truncated(z[k], p.al) < 1024 {
      NumBitsBound(Mag(z, p, k), 10);
    }
    hide Pow2;
  }

  /** The check of DC tables in the decoder: it lets through exactly the legal tables from which no bits can give a size
      above fifteen. */
  lemma DcSizesAreSmall(t: HuffTable)
    requires IsTable(t) && Legal(t.bits)
    ensures DecoderAccepts(t, true) <==> forall s :: SymbolAt(t, s).Symbol? ==> SymbolAt(t, s).sym <= 15
    ensures DecoderAccepts(t, false)
  {
    assert NumSymbols(t) <= 256;
    hide MatchWord, Word, Length, Count, Legal;
    if DecoderAccepts(t, true) {
      forall s | SymbolAt(t, s).Symbol? ensures SymbolAt(t, s).sym <= 15 { }
    } else {
      var p :| 0 <= p < NumSymbols(t) && t.huffval[p] > 15;
      var s := Word(t.bits, p);
      WordIsFound(t.bits, p, []);
      assert s + [] == s;
      assert SymbolAt(t, s).Symbol? && SymbolAt(t, s).sym > 15;
    }
  }

  /** What the encoder asks of a table: a legal code and no symbol twice; of a DC table besides what the decoder asks. */
  lemma EncoderAsksFor(t: HuffTable)
    requires IsTable(t)
    ensures EncoderAccepts(t, false) <==> Legal(t.bits) && forall p, q :: 0 <= p < q < NumSymbols(t) ==> t.huffval[p] != t.huffval[q]
    ensures EncoderAccepts(t, true) <==> EncoderAccepts(t, false) && DecoderAccepts(t, true)
  {
    hide First, Past;
  }

  // ---------------------------------------------------------------- prediction

  /** The last block of component `ci` among the first `n`, -1 if there is none. */
  function Latest(us: seq<S.Unit>, n: nat, ci: nat): (j: int)
    requires n <= |us|
    ensures -1 <= j < n && (j >= 0 ==> us[j].ci == ci)
    ensures forall i :: j < i < n ==> us[i].ci != ci
  {
    if n == 0 then -1 else if us[n - 1].ci == ci then n - 1 else Latest(us, n - 1, ci)
  }

  /** The shifted DC value of the latest block of the component, zero at the start of an interval. */
  function Predicted(sc: S.SeqScan, us: seq<S.Unit>, n: nat, ci: nat): int
    requires n <= |us|
  {
    var j := Latest(us, n, ci);
    if j < 0 then 0 else us[j].z[0] / Pow2(sc.al)
  }

  function UnitCode(sc: S.SeqScan, us: seq<S.Unit>, i: nat): seq<Item>
    requires i < |us| && us[i].ci < |sc.comps| && sc.se <= 63
  {
    var c, z := sc.comps[us[i].ci], us[i].z;
    DcCode(c.dcTbl, z[0] / Pow2(sc.al) - Predicted(sc, us, i, us[i].ci)) + AcBlockCode(c.acTbl, z, sc.se)
  }

  /** A whole restart interval, block by block. */
  function IntervalCode(sc: S.SeqScan, us: seq<S.Unit>): seq<Item>
    requires sc.se <= 63 && forall i :: 0 <= i < |us| ==> us[i].ci < |sc.comps|
  {
    Flat(seq(|us|, i requires 0 <= i < |us| => UnitCode(sc, us, i)))
  }

  lemma {:induction false} LatestStays(us: seq<S.Unit>, more: seq<S.Unit>, n: nat, ci: nat)
    requires n <= |us|
    ensures Latest(us + more, n, ci) == Latest(us, n, ci)
    decreases n
  {
    if n > 0 { LatestStays(us, more, n - 1, ci); }
  }

  lemma UnitCodeStays(sc: S.SeqScan, us: seq<S.Unit>, u: S.Unit, i: nat)
    requires i < |us| && us[i].ci < |sc.comps| && sc.se <= 63
    ensures UnitCode(sc, us + [u], i) == UnitCode(sc, us, i)
  {
    hide DcCode, AcBlockCode;
    LatestStays(us, [u], i, us[i].ci);
  }

  /** The predictions that are kept are the values of the latest blocks. */
  predicate Predicts(sc: S.SeqScan, us: seq<S.Unit>, dcs: seq<int>) {
    |dcs| == |sc.comps| && forall ci :: 0 <= ci < |sc.comps| ==> dcs[ci] == Predicted(sc, us, |us|, ci)
  }

  /** One block more. */
  lemma NextUnit(sc: S.SeqScan, us: seq<S.Unit>, u: S.Unit, dcs: seq<int>)
    requires Predicts(sc, us, dcs) && u.ci < |sc.comps| && sc.se <= 63
    ensures Predicts(sc, us + [u], dcs[u.ci := S.DcPoint(sc, u.z)])
    ensures S.UnitItems(sc, dcs, u) == UnitCode(sc, us + [u], |us|)
  {
    hide DcCode, AcBlockCode, S.DcItems, S.AcItems, Pow2;
    var all, n := us + [u], |us|;
    LatestStays(us, [u], n, u.ci);
    DcItemsAreStandard(sc.comps[u.ci].dcTbl, S.DcPoint(sc, u.z) - dcs[u.ci]);
    AcBlockIsStandard(sc.comps[u.ci].acTbl, u.z, sc.se);
    forall ci | 0 <= ci < |sc.comps| ensures Predicted(sc, all, n + 1, ci) == if ci == u.ci then S.DcPoint(sc, u.z) else dcs[ci] {
      LatestStays(us, [u], n, ci);
      assert Latest(all, n + 1, ci) == if ci == u.ci then n else Latest(all, n, ci);
    }
  }

  /** The interval that the encoder sends, with the predictions it keeps, is the standard's. */
  lemma {:induction false} IntervalIsStandard(sc: S.SeqScan, us: seq<S.Unit>)
    requires S.CodableUnits(sc, S.ResetDc(sc), us) && sc.se <= 63
    ensures forall i :: 0 <= i < |us| ==> us[i].ci < |sc.comps|
    ensures S.UnitsItems(sc, S.ResetDc(sc), us) == IntervalCode(sc, us)
    ensures Predicts(sc, us, S.LastDcs(sc, S.ResetDc(sc), us))
    decreases |us|
  {
    hide UnitCode, S.UnitItems, S.CodableUnit, Predicts;
    var start := S.ResetDc(sc);
    if us == [] {
      assert Predicts(sc, us, start) by { StartsAtZero(sc); }
    } else {
      var n := |us| - 1;
      var init, u := us[..n], us[n];
      assert us == init + [u];
      S.UnitsJoin(sc, start, init, [u]);
      IntervalIsStandard(sc, init);
      var dcs := S.LastDcs(sc, start, init);
      S.UnitComponent(sc, dcs, u);
      NextUnit(sc, init, u, dcs);
      OneUnit(sc, dcs, u);
      AppendUnit(sc, init, u);
    }
  }

  lemma StartsAtZero(sc: S.SeqScan)
    ensures Predicts(sc, [], S.ResetDc(sc))
  {
  }

  lemma OneUnit(sc: S.SeqScan, dcs: seq<int>, u: S.Unit)
    requires S.CodableUnits(sc, dcs, [u]) && u.ci < |sc.comps| == |dcs| && sc.se <= 63
    ensures S.UnitsItems(sc, dcs, [u]) == S.UnitItems(sc, dcs, u)
    ensures S.LastDcs(sc, dcs, [u]) == dcs[u.ci := S.DcPoint(sc, u.z)]
  {
    hide S.UnitItems, S.DcPoint;
    assert [u][1..] == [];
    assert S.UnitItems(sc, dcs, u) + [] == S.UnitItems(sc, dcs, u);
  }

  lemma AppendUnit(sc: S.SeqScan, us: seq<S.Unit>, u: S.Unit)
    requires sc.se <= 63 && u.ci < |sc.comps| && forall i :: 0 <= i < |us| ==> us[i].ci < |sc.comps|
    ensures IntervalCode(sc, us + [u]) == IntervalCode(sc, us) + UnitCode(sc, us + [u], |us|)
  {
    hide UnitCode;
    var all, n := us + [u], |us|;
    var codes := seq(n, i requires 0 <= i < n => UnitCode(sc, us, i));
    forall i | 0 <= i < n ensures UnitCode(sc, all, i) == UnitCode(sc, us, i) { UnitCodeStays(sc, us, u, i); }
    assert seq(n + 1, i requires 0 <= i < n + 1 => UnitCode(sc, all, i)) == codes + [UnitCode(sc, all, n)];
    FlatSnoc(codes, UnitCode(sc, all, n));
  }
}
