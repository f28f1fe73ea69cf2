/** What a progressive AC scan sends in Huffman mode, laid out from the coefficients alone, as section G.1.2 of
    ITU-T T.81 describes it: bands with end-of-band runs that stretch over blocks, and refined bands with their
    correction bits. The functions of HuffmanFirst and HuffmanEobRuns come to the same symbols and bits. */
module StandardBands {
  import opened Arithmetic
  import opened PointTransform
  import opened HuffmanCode
  import opened HuffmanItems
  import opened HuffmanEobRuns
  import opened StandardItems
  import opened Seqs
  import F = HuffmanFirst
  import Ac = HuffmanAcScans

  // ---------------------------------------------------------------- end-of-band runs

  /** A run of `run` blocks: its number of binary digits less one in the symbol, then the digits below the highest. */
  function RunCode(tbl: nat, run: nat): seq<Item> {
    if run == 0 then []
    else
      var n := Width(run) - 1;
      [Sym(tbl, 16 * n)] + if n == 0 then [] else [Raw(run, n)]
  }

  function BitCode(b: bool): Item { Raw(if b then 1 else 0, 1) }

  function PendingCode(tbl: nat, e: Pending): seq<Item> {
    if e.run == 0 then [] else RunCode(tbl, e.run) + seq(|e.bits|, i requires 0 <= i < |e.bits| => BitCode(e.bits[i]))
  }

  lemma FlushIsStandard(tbl: nat, e: Pending)
    ensures FlushItems(tbl, e) == PendingCode(tbl, e)
  {
    NumBitsIsWidth(e.run);
    hide Width, NumBits;
  }

  /** A block that ends early joins the run; the run goes out when it cannot be counted any further, or when the next
      block might have more correction bits than the buffer has room for. */
  function Joined(tbl: nat, e: Pending, bits: seq<bool>): Sent {
    var run, all := e.run + 1, e.bits + bits;
    if run == 32767 || |all| > 937 then Sent(PendingCode(tbl, Pending(run, all)), Pending(0, []))
    else Sent([], Pending(run, all))
  }

  lemma EndIsStandard(p: Band, r: nat, br: seq<bool>, e: Pending)
    ensures EndOfBand(p, r, br, e) == if r > 0 || br != [] then Joined(p.tbl, e, br) else Sent([], e)
  {
    FlushIsStandard(p.tbl, Pending(e.run + 1, e.bits + br));
    hide FlushItems, PendingCode;
  }

  // ---------------------------------------------------------------- first scans

  /** Some coefficient from `k` on is not zero after the point transform. */
  predicate AnyFrom(p: Band, z: Block, k: nat)
    requires p.se <= 63
  {
    exists j :: k <= j <= p.se && Truncated(z[j], p.al) != 0
  }

  /** A block: a pending run goes out in front of its first coefficient, and it joins the run if its last coefficient is
      zero. */
  function FirstCode(p: Band, z: Block, e: Pending): Sent
    requires ValidBand(p)
  {
    var any, early := AnyFrom(p, z, p.ss), Truncated(z[p.se], p.al) == 0;
    var codes := if any then PendingCode(p.tbl, e) + Flat(Pieces(p.tbl, z, p.al, p.ss, p.ss, p.se)) else [];
    var after := if any then Pending(0, []) else e;
    if early then Before(codes, Joined(p.tbl, after, [])) else Sent(codes, after)
  }

  lemma BeforeTwice(a: seq<Item>, b: seq<Item>, s: Sent)
    ensures Before(a, Before(b, s)) == Before(a + b, s) && Before([], s) == s
  {
    Assoc(a, b, s.items);
    assert [] + s.items == s.items;
  }

  /** At a nonzero coefficient with nothing pending, sixteens of zeros are sent first. */
  lemma {:induction false} CoefficientFirst(p: Band, z: Block, k: nat, r: nat)
    requires ValidBand(p) && p.ss <= k <= p.se && Truncated(z[k], p.al) != 0
    ensures F.FirstItems(p, z, k, r, NONE)
            == Before(Coefficient(p.tbl, Truncated(z[k], p.al), r), F.FirstItems(p, z, k + 1, 0, NONE))
    decreases r
  {
    hide Coefficient, NumBits, ValueItem, Truncated;
    var v, more := Truncated(z[k], p.al), F.FirstItems(p, z, k + 1, 0, NONE);
    CoefficientStep(p.tbl, v, r);
    if r > 15 {
      CoefficientFirst(p, z, k, r - 16);
      BeforeTwice([Sym(p.tbl, ZRL)], Coefficient(p.tbl, v, r - 16), more);
    }
  }

  /** The rest of a block from `k` on with nothing pending. */
  lemma {:induction false} FirstItemsAre(p: Band, z: Block, k: nat)
    requires ValidBand(p) && p.ss <= k <= p.se + 1
    ensures F.FirstItems(p, z, k, ZerosBefore(z, p.al, p.ss, k), NONE)
            == Before(Flat(Pieces(p.tbl, z, p.al, p.ss, k, p.se)),
                      EndOfBand(p, ZerosBefore(z, p.al, p.ss, p.se + 1), [], NONE))
    decreases p.se + 1 - k
  {
    hide Truncated, Pieces, Coefficient, EndOfBand, NumBits, ValueItem;
    var last := EndOfBand(p, ZerosBefore(z, p.al, p.ss, p.se + 1), [], NONE);
    if k > p.se {
      NoPieces(p.tbl, z, p.al, p.ss, p.se);
      BeforeTwice([], [], last);
    } else {
      var v, r := Truncated(z[k], p.al), ZerosBefore(z, p.al, p.ss, k);
      FirstPiece(p.tbl, z, p.al, p.ss, k, p.se);
      FirstItemsAre(p, z, k + 1);
      BeforeTwice(Piece(p.tbl, z, p.al, p.ss, k), Flat(Pieces(p.tbl, z, p.al, p.ss, k + 1, p.se)), last);
      if v != 0 { CoefficientFirst(p, z, k, r); }
    }
  }

  /** With something pending, nothing is sent until the first nonzero coefficient. */
  lemma {:induction false} FirstItemsAfter(p: Band, z: Block, k: nat, r: nat, e: Pending)
    requires ValidBand(p) && p.ss <= k <= p.se + 1 && e.run > 0
    ensures F.FirstItems(p, z, k, r, e)
            == if AnyFrom(p, z, k) then Before(FlushItems(p.tbl, e), F.FirstItems(p, z, k, r, NONE))
               else EndOfBand(p, r + (p.se + 1 - k), [], e)
    decreases p.se + 1 - k
  {
    hide Truncated, EndOfBand, NumBits, ValueItem, FlushItems;
    if k <= p.se && Truncated(z[k], p.al) == 0 {
      FirstItemsAfter(p, z, k + 1, r + 1, e);
      assert AnyFrom(p, z, k) <==> AnyFrom(p, z, k + 1);
    }
  }

  lemma {:induction false} AllZeros(p: Band, z: Block, k: nat)
    requires ValidBand(p) && p.ss <= k <= p.se + 1 && !AnyFrom(p, z, p.ss)
    ensures ZerosBefore(z, p.al, p.ss, k) == k - p.ss
    ensures Flat(Pieces(p.tbl, z, p.al, p.ss, p.ss, k - 1)) == []
    decreases k
  {
    hide Truncated, Coefficient;
    if k == p.ss {
      NoPieces(p.tbl, z, p.al, p.ss, p.ss - 1);
    } else {
      AllZeros(p, z, k - 1);
      var ps := Pieces(p.tbl, z, p.al, p.ss, p.ss, k - 1);
      assert ps == Pieces(p.tbl, z, p.al, p.ss, p.ss, k - 2) + [Piece(p.tbl, z, p.al, p.ss, k - 1)];
      FlatSnoc(Pieces(p.tbl, z, p.al, p.ss, p.ss, k - 2), Piece(p.tbl, z, p.al, p.ss, k - 1));
    }
  }

  /** A block of a first scan is sent as the standard says, and leaves the same run pending. */
  lemma FirstBlockIsStandard(p: Band, z: Block, e: Pending)
    requires ValidBand(p) && F.ValidRun(e)
    ensures F.FirstItems(p, z, p.ss, 0, e) == FirstCode(p, z, e)
  {
    hide F.FirstItems, Truncated, Pieces, EndOfBand, Joined, FlushItems, PendingCode;
    FlushIsStandard(p.tbl, e);
    FirstItemsAre(p, z, p.ss);
    var any, codes := AnyFrom(p, z, p.ss), Flat(Pieces(p.tbl, z, p.al, p.ss, p.ss, p.se));
    var r := ZerosBefore(z, p.al, p.ss, p.se + 1);
    EndIsStandard(p, r, [], NONE);
    if e.run > 0 {
      FirstItemsAfter(p, z, p.ss, 0, e);
      EndIsStandard(p, p.se + 1 - p.ss, [], e);
    } else {
      assert e == NONE;
    }
    assert PendingCode(p.tbl, NONE) == [] by { NothingPending(p.tbl); }
    if !any { AllZeros(p, z, p.se + 1); }
    BeforeTwice(PendingCode(p.tbl, e), codes, EndOfBand(p, r, [], NONE));
    BeforeTwice([], [], Joined(p.tbl, e, []));
  }

  lemma NothingPending(tbl: nat)
    ensures PendingCode(tbl, NONE) == []
  {
  }

  // ---------------------------------------------------------------- refined bands

  /** How many coefficients directly before `k` are zero, those that were nonzero before not counted, since the last one
      that becomes nonzero. */
  function Gap(p: Band, z: Block, k: nat): (r: nat)
    requires ValidBand(p) && p.ss <= k <= 64
    ensures r <= k - p.ss
  {
    if k == p.ss then 0
    else if Mag(z, p, k - 1) == 1 then 0
    else if Mag(z, p, k - 1) == 0 then Gap(p, z, k - 1) + 1
    else Gap(p, z, k - 1)
  }

  /** How many sixteens of this gap have been sent before `k`: they are sent at the next coefficient that is nonzero. */
  function Sixteens(p: Band, z: Block, k: nat): (n: nat)
    requires ValidBand(p) && p.ss <= k <= 64
    ensures 16 * n <= Gap(p, z, k)
  {
    if k == p.ss then 0
    else if Mag(z, p, k - 1) == 1 then 0
    else if Mag(z, p, k - 1) == 0 then Sixteens(p, z, k - 1)
    else Gap(p, z, k - 1) / 16
  }

  /** Where the correction bits begin that wait for the next symbol. */
  function WaitingFrom(p: Band, z: Block, k: nat): (i: nat)
    requires ValidBand(p) && p.ss <= k <= 64
    ensures p.ss <= i <= k
  {
    if k == p.ss then p.ss
    else if Mag(z, p, k - 1) == 1 then k
    else if Mag(z, p, k - 1) > 1 && Gap(p, z, k - 1) / 16 > Sixteens(p, z, k - 1) then k - 1
    else WaitingFrom(p, z, k - 1)
  }

  /** The lowest bits of the coefficients from `i` up to, but without, `j` that were nonzero before. */
  function Corrections(p: Band, z: Block, i: nat, j: nat): seq<bool>
    requires i <= j <= 64
    decreases j
  {
    if i == j then []
    else Corrections(p, z, i, j - 1) + if Mag(z, p, j - 1) > 1 then [Mag(z, p, j - 1) % 2 == 1] else []
  }

  function BitCodes(bs: seq<bool>): seq<Item> { seq(|bs|, i requires 0 <= i < |bs| => BitCode(bs[i])) }

  /** The symbol of a coefficient that becomes nonzero, and its sign. */
  function ArrivalCode(p: Band, z: Block, k: nat): seq<Item>
    requires ValidBand(p) && p.ss <= k <= 63
  {
    [Sym(p.tbl, 16 * (Gap(p, z, k) % 16) + 1), BitCode(z[k] > 0)]
  }

  /** A coefficient: sixteens of zeros if it is nonzero, and if it becomes nonzero its symbol and its sign; the waiting
      correction bits follow the first symbol. */
  function RefinedPiece(p: Band, z: Block, k: nat): seq<Item>
    requires ValidBand(p) && p.ss <= k <= 63
  {
    var q, bits := Gap(p, z, k) / 16 - Sixteens(p, z, k), BitCodes(Corrections(p, z, WaitingFrom(p, z, k), k));
    var arrival := ArrivalCode(p, z, k);
    if Mag(z, p, k) == 0 then []
    else if q > 0 then [Sym(p.tbl, 0xF0)] + bits + (Zrls(p.tbl, q - 1) + if Mag(z, p, k) == 1 then arrival else [])
    else if Mag(z, p, k) == 1 then arrival + bits
    else []
  }

  function RefinedPieces(p: Band, z: Block, k: nat, last: nat): seq<seq<Item>>
    requires ValidBand(p) && p.ss <= k <= last + 1 && last <= 63
  {
    seq(last + 1 - k, i requires 0 <= i < last + 1 - k => RefinedPiece(p, z, k + i))
  }

  /** A refined block: what is pending goes out in front of its first symbol, and it joins the run if anything is left
      behind the last coefficient that becomes nonzero. */
  function RefineCode(p: Band, z: Block, e: Pending): Sent
    requires ValidBand(p)
  {
    var last := LastNew(z, p, p.se);
    var codes := if last > 0 then PendingCode(p.tbl, e) + Flat(RefinedPieces(p, z, p.ss, last)) else [];
    var after := if last > 0 then Pending(0, []) else e;
    var tail := if last > 0 then last + 1 else p.ss;
    if tail <= p.se then Before(codes, Joined(p.tbl, after, Corrections(p, z, tail, p.se + 1))) else Sent(codes, after)
  }

  lemma FirstRefinedPiece(p: Band, z: Block, k: nat, last: nat)
    requires ValidBand(p) && p.ss <= k <= last <= 63
    ensures Flat(RefinedPieces(p, z, k, last)) == RefinedPiece(p, z, k) + Flat(RefinedPieces(p, z, k + 1, last))
  {
    hide RefinedPiece;
    var ps := RefinedPieces(p, z, k, last);
    assert ps[0] == RefinedPiece(p, z, k) && ps[1..] == RefinedPieces(p, z, k + 1, last);
  }

  /** The loop that sends sixteens of zeros, with nothing pending and no bits waiting. */
  lemma {:induction false} MoreSixteens(p: Band, z: Block, k: nat, r: nat)
    requires ValidBand(p) && p.ss <= k <= LastNew(z, p, p.se) && Mag(z, p, k) != 0
    ensures RefineItems(p, z, k, r, [], NONE) == Before(Zrls(p.tbl, r / 16), RefineItems(p, z, k, r % 16, [], NONE))
    decreases r
  {
    hide Mag, LastNew;
    var more := RefineItems(p, z, k, r % 16, [], NONE);
    if r > 15 {
      MoreSixteens(p, z, k, r - 16);
      assert (r - 16) / 16 == r / 16 - 1 && (r - 16) % 16 == r % 16;
      assert Zrls(p.tbl, r / 16) == [Sym(p.tbl, ZRL)] + Zrls(p.tbl, r / 16 - 1);
      BeforeTwice([Sym(p.tbl, ZRL)], Zrls(p.tbl, r / 16 - 1), more);
      assert [] + ([Sym(p.tbl, ZRL)] + []) == [Sym(p.tbl, ZRL)];
    } else {
      BeforeTwice([], [], more);
    }
  }

  /** The first of the sixteens takes what is pending and the waiting bits along. */
  lemma FirstSixteen(p: Band, z: Block, k: nat, r: nat, br: seq<bool>, e: Pending)
    requires ValidBand(p) && p.ss <= k <= LastNew(z, p, p.se) && Mag(z, p, k) != 0 && r >= 16
    ensures RefineItems(p, z, k, r, br, e)
            == Before(FlushItems(p.tbl, e) + ([Sym(p.tbl, ZRL)] + BitItems(br) + Zrls(p.tbl, r / 16 - 1)),
                      RefineItems(p, z, k, r % 16, [], NONE))
  {
    hide Mag, LastNew, FlushItems;
    MoreSixteens(p, z, k, r - 16);
    assert (r - 16) / 16 == r / 16 - 1 && (r - 16) % 16 == r % 16;
    var head, zrls, more := [Sym(p.tbl, ZRL)] + BitItems(br), Zrls(p.tbl, r / 16 - 1), RefineItems(p, z, k, r % 16, [], NONE);
    BeforeTwice(FlushItems(p.tbl, e) + head, zrls, more);
    Assoc(FlushItems(p.tbl, e), head, zrls);
  }

  lemma BitItemsAre(bs: seq<bool>)
    ensures BitItems(bs) == BitCodes(bs)
  {
  }

  /** The zeros that have been passed and not been sent, and the waiting bits. */
  function Passed(p: Band, z: Block, k: nat): nat
    requires ValidBand(p) && p.ss <= k <= 64
  {
    Gap(p, z, k) - 16 * Sixteens(p, z, k)
  }

  function Waiting(p: Band, z: Block, k: nat): seq<bool>
    requires ValidBand(p) && p.ss <= k <= 64
  {
    Corrections(p, z, WaitingFrom(p, z, k), k)
  }

  /** There are sixteens to be sent at `k`. */
  predicate SendsSixteens(p: Band, z: Block, k: nat)
    requires ValidBand(p) && p.ss <= k <= 64
  {
    Gap(p, z, k) / 16 > Sixteens(p, z, k)
  }

  lemma PassedNext(p: Band, z: Block, k: nat)
    requires ValidBand(p) && p.ss <= k <= 63
    ensures var m, odd, g := Mag(z, p, k), [Mag(z, p, k) % 2 == 1], Gap(p, z, k) % 16;
            && (m == 0 ==> Passed(p, z, k + 1) == Passed(p, z, k) + 1 && Waiting(p, z, k + 1) == Waiting(p, z, k))
            && (m == 1 ==> Passed(p, z, k + 1) == 0 && Waiting(p, z, k + 1) == [])
            && (m > 1 && !SendsSixteens(p, z, k) ==> Waiting(p, z, k + 1) == Waiting(p, z, k) + odd)
            && (m > 1 ==> Passed(p, z, k + 1) == g)
            && (m > 1 && SendsSixteens(p, z, k) ==> Waiting(p, z, k + 1) == odd)
            && (!SendsSixteens(p, z, k) ==> Passed(p, z, k) == g)
            && (SendsSixteens(p, z, k) ==> Passed(p, z, k) >= 16 && Passed(p, z, k) % 16 == g
                                           && Passed(p, z, k) / 16 == Gap(p, z, k) / 16 - Sixteens(p, z, k))
  {
    hide Mag;
    assert Corrections(p, z, k + 1, k + 1) == [];
    assert Corrections(p, z, k, k) == [];
  }

  /** A coefficient that is nonzero now, and what comes after it. */
  lemma Arrival(p: Band, z: Block, k: nat, br: seq<bool>, e: Pending)
    requires ValidBand(p) && p.ss <= k <= p.se && Mag(z, p, k) == 1
    ensures RefineItems(p, z, k, Gap(p, z, k) % 16, br, e)
            == Before(FlushItems(p.tbl, e) + (ArrivalCode(p, z, k) + BitCodes(br)), RefineItems(p, z, k + 1, 0, [], NONE))
  {
    BitItemsAre(br);
    assert z[k] != 0 by { assert Truncated(0, p.al) == 0; }
    hide LastNew, FlushItems, Mag, Gap;
    var r := Gap(p, z, k) % 16;
    Assoc([Sym(p.tbl, 16 * r + 1)], [BitItem(z[k] >= 0)], BitItems(br));
    assert [Sym(p.tbl, 16 * r + 1)] + [BitItem(z[k] >= 0)] == [Sym(p.tbl, 16 * r + 1), BitCode(z[k] > 0)];
  }

  lemma ArrivalAlone(p: Band, z: Block, k: nat)
    requires ValidBand(p) && p.ss <= k <= p.se && Mag(z, p, k) == 1
    ensures RefineItems(p, z, k, Gap(p, z, k) % 16, [], NONE)
            == Before(ArrivalCode(p, z, k), RefineItems(p, z, k + 1, 0, [], NONE))
  {
    Arrival(p, z, k, [], NONE);
    FlushIsStandard(p.tbl, NONE);
    NothingPending(p.tbl);
    NoBitCodes();
    hide RefineItems, Gap, Mag, BitCodes;
    var code := ArrivalCode(p, z, k);
    assert [] + (code + []) == code;
  }

  /** Sixteens of zeros, and what comes of the coefficient then. */
  lemma SixteensThenArrival(p: Band, z: Block, k: nat, e: Pending)
    requires ValidBand(p) && p.ss <= k <= LastNew(z, p, p.se) && Mag(z, p, k) == 1
    requires SendsSixteens(p, z, k)
    ensures RefineItems(p, z, k, Passed(p, z, k), Waiting(p, z, k), e)
            == Before(FlushItems(p.tbl, e) + RefinedPiece(p, z, k), RefineItems(p, z, k + 1, 0, [], NONE))
  {
    PassedNext(p, z, k);
    FirstSixteen(p, z, k, Passed(p, z, k), Waiting(p, z, k), e);
    ArrivalAlone(p, z, k);
    PieceOfSixteens(p, z, k);
    BitItemsAre(Waiting(p, z, k));
    hide LastNew, FlushItems, Mag, Gap, Sixteens, BitCodes, BitItems, RefineItems, RefinedPiece, ArrivalCode, Passed, Waiting,
         Zrls, Before, SendsSixteens;
    FourParts(FlushItems(p.tbl, e), [Sym(p.tbl, ZRL)] + BitCodes(Waiting(p, z, k)),
              Zrls(p.tbl, Gap(p, z, k) / 16 - Sixteens(p, z, k) - 1), ArrivalCode(p, z, k),
              RefineItems(p, z, k + 1, 0, [], NONE));
  }

  lemma PieceOfSixteens(p: Band, z: Block, k: nat)
    requires ValidBand(p) && p.ss <= k <= 63 && Mag(z, p, k) != 0 && SendsSixteens(p, z, k)
    ensures var zrls := Zrls(p.tbl, Gap(p, z, k) / 16 - Sixteens(p, z, k) - 1);
            RefinedPiece(p, z, k)
            == [Sym(p.tbl, ZRL)] + BitCodes(Waiting(p, z, k)) + (zrls + if Mag(z, p, k) == 1 then ArrivalCode(p, z, k) else [])
  {
    hide Mag, Gap, Sixteens, BitCodes, Zrls, Corrections, WaitingFrom;
  }

  lemma SixteensThenCorrection(p: Band, z: Block, k: nat, e: Pending)
    requires ValidBand(p) && p.ss <= k <= LastNew(z, p, p.se) && Mag(z, p, k) > 1
    requires SendsSixteens(p, z, k)
    ensures RefineItems(p, z, k, Passed(p, z, k), Waiting(p, z, k), e)
            == Before(FlushItems(p.tbl, e) + RefinedPiece(p, z, k),
                      RefineItems(p, z, k + 1, Passed(p, z, k + 1), Waiting(p, z, k + 1), NONE))
  {
    PassedNext(p, z, k);
    FirstSixteen(p, z, k, Passed(p, z, k), Waiting(p, z, k), e);
    OneCorrection(p, z, k, Gap(p, z, k) % 16, [], NONE);
    PieceOfSixteens(p, z, k);
    BitItemsAre(Waiting(p, z, k));
    hide LastNew, FlushItems, Mag, Gap, Sixteens, BitCodes, BitItems, RefineItems, RefinedPiece, Passed, Waiting, Zrls, Before,
         SendsSixteens;
    var zrls := Zrls(p.tbl, Gap(p, z, k) / 16 - Sixteens(p, z, k) - 1);
    assert zrls + [] == zrls;
  }

  lemma FourParts(a: seq<Item>, b: seq<Item>, c: seq<Item>, d: seq<Item>, s: Sent)
    ensures Before(a + (b + c), Before(d, s)) == Before(a + (b + (c + d)), s)
  {
    BeforeTwice(a + (b + c), d, s);
    Assoc(a, b + c, d);
    Assoc(b, c, d);
  }

  lemma OneCorrection(p: Band, z: Block, k: nat, r: nat, br: seq<bool>, e: Pending)
    requires ValidBand(p) && p.ss <= k <= p.se && Mag(z, p, k) > 1 && r < 16
    ensures RefineItems(p, z, k, r, br, e) == RefineItems(p, z, k + 1, r, br + [Mag(z, p, k) % 2 == 1], e)
    ensures br == [] ==> br + [Mag(z, p, k) % 2 == 1] == [Mag(z, p, k) % 2 == 1]
  {
    hide LastNew, Mag;
  }

  lemma OneZero(p: Band, z: Block, k: nat, r: nat, br: seq<bool>, e: Pending)
    requires ValidBand(p) && p.ss <= k <= p.se && Mag(z, p, k) == 0
    ensures RefineItems(p, z, k, r, br, e) == RefineItems(p, z, k + 1, r + 1, br, e)
  {
    hide LastNew, Mag;
  }

  lemma NoBitCodes()
    ensures BitCodes([]) == []
  {
  }

  lemma PieceCases(p: Band, z: Block, k: nat)
    requires ValidBand(p) && p.ss <= k <= 63
    ensures var piece, m, sends := RefinedPiece(p, z, k), Mag(z, p, k), SendsSixteens(p, z, k);
            && (piece == [] <==> m == 0 || (m > 1 && !sends))
            && (m == 1 && !sends ==>
                  piece == ArrivalCode(p, z, k) + BitCodes(Waiting(p, z, k)))
  {
    hide Mag, Gap, Sixteens, Corrections, WaitingFrom;
  }

  lemma LastIsNew(p: Band, z: Block)
    requires ValidBand(p) && LastNew(z, p, p.se) > 0
    ensures LastNew(z, p, p.se) <= p.se && Mag(z, p, LastNew(z, p, p.se)) == 1
  {
    hide Mag;
  }

  /** A coefficient that sends something: what is pending goes out in front. */
  lemma RefinedSends(p: Band, z: Block, k: nat, e: Pending)
    requires ValidBand(p) && p.ss <= k <= LastNew(z, p, p.se) && RefinedPiece(p, z, k) != []
    ensures RefineItems(p, z, k, Passed(p, z, k), Waiting(p, z, k), e)
            == Before(FlushItems(p.tbl, e) + RefinedPiece(p, z, k),
                      RefineItems(p, z, k + 1, Passed(p, z, k + 1), Waiting(p, z, k + 1), NONE))
  {
    PassedNext(p, z, k);
    PieceCases(p, z, k);
    hide *;
    if Mag(z, p, k) == 1 {
      if SendsSixteens(p, z, k) {
        SixteensThenArrival(p, z, k, e);
      } else {
        Arrival(p, z, k, Waiting(p, z, k), e);
      }
    } else {
      SixteensThenCorrection(p, z, k, e);
    }
  }

  /** A coefficient that sends nothing. */
  lemma RefinedIsSilent(p: Band, z: Block, k: nat, e: Pending)
    requires ValidBand(p) && p.ss <= k <= LastNew(z, p, p.se) && RefinedPiece(p, z, k) == []
    ensures k < LastNew(z, p, p.se)
    ensures RefineItems(p, z, k, Passed(p, z, k), Waiting(p, z, k), e)
            == RefineItems(p, z, k + 1, Passed(p, z, k + 1), Waiting(p, z, k + 1), e)
  {
    PassedNext(p, z, k);
    PieceCases(p, z, k);
    LastIsNew(p, z);
    hide *;
    if Mag(z, p, k) == 0 {
      OneZero(p, z, k, Passed(p, z, k), Waiting(p, z, k), e);
    } else {
      OneCorrection(p, z, k, Passed(p, z, k), Waiting(p, z, k), e);
    }
  }

  /** From `k` on the pieces are sent, with what is pending in front. */
  ghost predicate SendsPieces(p: Band, z: Block, k: nat, e: Pending)
    requires ValidBand(p) && p.ss <= k <= LastNew(z, p, p.se) + 1
  {
    var last := LastNew(z, p, p.se);
    RefineItems(p, z, k, Passed(p, z, k), Waiting(p, z, k), e)
    == Before(FlushItems(p.tbl, e) + Flat(RefinedPieces(p, z, k, last)), RefineItems(p, z, last + 1, 0, [], NONE))
  }

  lemma NoneLeft(p: Band, z: Block)
    requires ValidBand(p) && LastNew(z, p, p.se) > 0
    ensures SendsPieces(p, z, LastNew(z, p, p.se) + 1, NONE)
  {
    RefinedLast(p, z);
    FlushOfNone(p.tbl);
    LastIsNew(p, z);
    NoRefinedPieces(p, z, LastNew(z, p, p.se));
    hide LastNew, Passed, Waiting, RefinedPieces, RefineItems, FlushItems;
    BeforeTwice([], [], RefineItems(p, z, LastNew(z, p, p.se) + 1, 0, [], NONE));
  }

  lemma PieceSent(p: Band, z: Block, k: nat, e: Pending)
    requires ValidBand(p) && p.ss <= k <= LastNew(z, p, p.se) && RefinedPiece(p, z, k) != []
    requires SendsPieces(p, z, k + 1, NONE)
    ensures SendsPieces(p, z, k, e)
  {
    var last := LastNew(z, p, p.se);
    hide LastNew, Passed, Waiting, RefinedPieces, RefinedPiece, RefineItems, FlushItems, Before, Flat;
    RefinedSends(p, z, k, e);
    FirstRefinedPiece(p, z, k, last);
    FlushOfNone(p.tbl);
    ThreeParts(FlushItems(p.tbl, e), RefinedPiece(p, z, k), Flat(RefinedPieces(p, z, k + 1, last)),
               RefineItems(p, z, last + 1, 0, [], NONE));
  }

  lemma NoPieceSent(p: Band, z: Block, k: nat, e: Pending)
    requires ValidBand(p) && p.ss <= k < LastNew(z, p, p.se) && RefinedPiece(p, z, k) == []
    requires SendsPieces(p, z, k + 1, e)
    ensures SendsPieces(p, z, k, e)
  {
    var last := LastNew(z, p, p.se);
    hide LastNew, Passed, Waiting, RefinedPieces, RefinedPiece, RefineItems, FlushItems, Before;
    RefinedIsSilent(p, z, k, e);
    FirstRefinedPiece(p, z, k, last);
    assert [] + Flat(RefinedPieces(p, z, k + 1, last)) == Flat(RefinedPieces(p, z, k + 1, last));
  }

  /** All coefficients up to the last one that becomes nonzero. */
  lemma {:induction false} RefineItemsAre(p: Band, z: Block, k: nat, e: Pending)
    requires ValidBand(p) && p.ss <= k <= LastNew(z, p, p.se)
    ensures SendsPieces(p, z, k, e)
    decreases p.se + 1 - k
  {
    hide LastNew, RefinedPiece, SendsPieces;
    if RefinedPiece(p, z, k) == [] {
      RefinedIsSilent(p, z, k, e);
      RefineItemsAre(p, z, k + 1, e);
      NoPieceSent(p, z, k, e);
    } else {
      if k < LastNew(z, p, p.se) { RefineItemsAre(p, z, k + 1, NONE); } else { NoneLeft(p, z); }
      PieceSent(p, z, k, e);
    }
  }

  lemma FlushOfNone(tbl: nat)
    ensures FlushItems(tbl, NONE) == []
  {
  }

  lemma ThreeParts(a: seq<Item>, b: seq<Item>, c: seq<Item>, s: Sent)
    ensures Before(a + b, Before([] + c, s)) == Before(a + (b + c), s)
    ensures b == [] ==> b + c == c
    ensures c == [] ==> b + c == b
  {
    assert [] + c == c;
    BeforeTwice(a + b, c, s);
    Assoc(a, b, c);
  }

  lemma RefinedLast(p: Band, z: Block)
    requires ValidBand(p) && LastNew(z, p, p.se) > 0
    ensures var last := LastNew(z, p, p.se);
            Passed(p, z, last + 1) == 0 && Waiting(p, z, last + 1) == []
  {
    LastIsNew(p, z);
    PassedNext(p, z, LastNew(z, p, p.se));
    hide Passed, Waiting, Mag;
  }

  lemma NoRefinedPieces(p: Band, z: Block, last: nat)
    requires ValidBand(p) && p.ss <= last <= 63
    ensures Flat(RefinedPieces(p, z, last + 1, last)) == []
  {
  }

  /** Behind the last coefficient that becomes nonzero, nothing is sent until the band ends. */
  lemma {:induction false} TailItemsAre(p: Band, z: Block, i: nat, k: nat, r: nat, e: Pending)
    requires ValidBand(p) && p.ss <= i <= k <= p.se + 1 && LastNew(z, p, p.se) < i
    requires (r > 0 || Corrections(p, z, i, k) != []) <==> i < k
    ensures RefineItems(p, z, k, r, Corrections(p, z, i, k), e)
            == if i <= p.se then Joined(p.tbl, e, Corrections(p, z, i, p.se + 1)) else Sent([], e)
    decreases p.se + 1 - k
  {
    hide LastNew, Mag, FlushItems, Joined, EndOfBand;
    var br := Corrections(p, z, i, k);
    if k > p.se {
      EndIsStandard(p, r, br, e);
    } else {
      assert Mag(z, p, k) != 1;
      var next := Corrections(p, z, i, k + 1);
      assert next == br + if Mag(z, p, k) > 1 then [Mag(z, p, k) % 2 == 1] else [];
      if Mag(z, p, k) == 0 {
        assert next == br;
        OneZero(p, z, k, r, br, e);
        TailItemsAre(p, z, i, k + 1, r + 1, e);
      } else {
        TailCorrection(p, z, k, r, br, e);
        TailItemsAre(p, z, i, k + 1, r, e);
      }
    }
  }

  lemma TailCorrection(p: Band, z: Block, k: nat, r: nat, br: seq<bool>, e: Pending)
    requires ValidBand(p) && p.ss <= k <= p.se && Mag(z, p, k) > 1 && LastNew(z, p, p.se) < k
    ensures RefineItems(p, z, k, r, br, e) == RefineItems(p, z, k + 1, r, br + [Mag(z, p, k) % 2 == 1], e)
  {
    hide LastNew, Mag;
  }

  /** A block of a refining scan is sent as the standard says, and leaves the same run and the same bits pending. */
  lemma RefinedBlockIsStandard(p: Band, z: Block, e: Pending)
    requires ValidBand(p)
    ensures RefineItems(p, z, p.ss, 0, [], e) == RefineCode(p, z, e)
  {
    var last := LastNew(z, p, p.se);
    var tail := if last > 0 then last + 1 else p.ss;
    assert Corrections(p, z, tail, tail) == [];
    assert Passed(p, z, p.ss) == 0 && Waiting(p, z, p.ss) == [];
    hide LastNew, Mag, FlushItems, PendingCode, Joined, RefineItems, Corrections, RefinedPieces, Passed, Waiting, Gap;
    FlushIsStandard(p.tbl, e);
    if last > 0 {
      RefineItemsAre(p, z, p.ss, e);
      TailItemsAre(p, z, tail, tail, 0, NONE);
      var codes := PendingCode(p.tbl, e) + Flat(RefinedPieces(p, z, p.ss, last));
      assert codes + [] == codes;
    } else {
      TailItemsAre(p, z, tail, tail, 0, e);
      BeforeTwice([], [], Joined(p.tbl, e, Corrections(p, z, tail, p.se + 1)));
    }
  }

  // ---------------------------------------------------------------- intervals

  /** The blocks of a restart interval, and at its end what is still pending. */
  function BandCode(p: Band, first: bool, zs: seq<Block>, e: Pending): seq<Item>
    requires ValidBand(p)
    decreases |zs|
  {
    if zs == [] then PendingCode(p.tbl, e)
    else
      var s := if first then FirstCode(p, zs[0], e) else RefineCode(p, zs[0], e);
      s.items + BandCode(p, first, zs[1..], s.pending)
  }

  lemma {:induction false} FirstAllIsStandard(p: Band, zs: seq<Block>, e: Pending)
    requires ValidBand(p) && F.ValidRun(e)
    ensures F.FirstAll(p, zs, e) == BandCode(p, true, zs, e)
    decreases |zs|
  {
    hide F.FirstItems, FirstCode, FlushItems, PendingCode;
    if zs == [] {
      FlushIsStandard(p.tbl, e);
    } else {
      FirstBlockIsStandard(p, zs[0], e);
      F.RunStaysValid(p, zs[0], p.ss, 0, e);
      FirstAllIsStandard(p, zs[1..], F.FirstItems(p, zs[0], p.ss, 0, e).pending);
    }
  }

  lemma {:induction false} RefineAllIsStandard(p: Band, zs: seq<Block>, e: Pending)
    requires ValidBand(p)
    ensures RefineAll(p, zs, e) == BandCode(p, false, zs, e)
    decreases |zs|
  {
    hide RefineItems, RefineCode, FlushItems, PendingCode;
    if zs == [] {
      FlushIsStandard(p.tbl, e);
    } else {
      RefinedBlockIsStandard(p, zs[0], e);
      RefineAllIsStandard(p, zs[1..], RefineItems(p, zs[0], p.ss, 0, [], e).pending);
    }
  }

  /** What the encoder of AC scans sends for an interval is the standard's. */
  lemma BandIntervalIsStandard(a: Ac.AcScan, zs: seq<Block>)
    requires Ac.ValidAcScan(a)
    ensures Ac.IntervalItems(a, zs) == BandCode(a.p, a.first, zs, NONE)
  {
    hide F.FirstAll, RefineAll, Ac.IntervalItems;
    Ac.IntervalIsAll(a, zs);
    if a.first { FirstAllIsStandard(a.p, zs, NONE); } else { RefineAllIsStandard(a.p, zs, NONE); }
  }
}
