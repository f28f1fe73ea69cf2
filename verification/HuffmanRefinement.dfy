/** The AC refinement scan of the Huffman decoder (decode_mcu_AC_refine in jdhuff.c), and why it undoes the encoder's
    end-of-band runs and deferred correction bits. */
module HuffmanRefinement {
  import opened Arithmetic
  import opened PointTransform
  import opened HuffmanCode
  import opened HuffmanTables
  import opened BitWriting
  import opened HuffmanItems
  import opened HuffmanEobRuns
  import opened Seqs

  // ---------------------------------------------------------------- the decoder

  /** Add the bit to the magnitude, unless it is there already. */
  function Corrected(c: int, al: nat): int {
    if BitIsSet(c, al) then c else if c >= 0 then Short(c + Pow2(al)) else Short(c - Pow2(al))
  }

  /** A correction bit for the coefficient at `k`. */
  function CorrectAt(b: Block, k: nat, al: nat, bit: nat): Block
    requires k <= 63
  {
    if bit == 1 then b[k := Corrected(b[k], al)] else b
  }

  /** Advance over coefficients that are nonzero, taking a bit for each, and over `r` that are zero. Gives the position
      of the zero after them, or the one behind the band. */
  function Advance(p: Band, s: seq<bool>, b: Block, k: nat, r: nat): (x: BitRead<(nat, Block)>)
    requires ValidBand(p) && p.ss <= k <= p.se
    ensures x.Done? ==> k <= x.v.0 <= p.se + 1
    decreases p.se + 1 - k
  {
    if b[k] != 0 then
      var (s1, bit) :- ReadBits(1, s);
      var b1 := CorrectAt(b, k, p.al, bit);
      if k == p.se then Done(s1, (k + 1, b1)) else Advance(p, s1, b1, k + 1, r)
    else if r == 0 then Done(s, (k, b))
    else if k == p.se then Done(s, (k + 1, b))
    else Advance(p, s, b, k + 1, r - 1)
  }

  /** After the end of the band: a bit for every coefficient that is nonzero. */
  function Tail(p: Band, s: seq<bool>, b: Block, k: nat): BitRead<Block>
    requires ValidBand(p)
    decreases p.se + 1 - k
  {
    if k > p.se then Done(s, b)
    else if b[k] != 0 then
      var (s1, bit) :- ReadBits(1, s);
      Tail(p, s1, CorrectAt(b, k, p.al, bit), k + 1)
    else Tail(p, s, b, k + 1)
  }

  /** The length of a run: 2^r and `r` more bits. */
  function ReadRun(r: nat, s: seq<bool>): (x: BitRead<nat>)
    ensures x.Done? ==> x.v >= 1
  {
    var (s1, low) :- ReadBits(r, s);
    Done(s1, Pow2(r) + low)
  }

  /** No run is active: symbols from position `k` on. Gives what is left of a run that starts here. */
  function Symbols(p: Band, t: HuffTable, s: seq<bool>, b: Block, k: nat): BitRead<(nat, Block)>
    requires ValidBand(p) && Reads(t) && p.ss <= k
    decreases p.se + 1 - k
  {
    if k > p.se then Done(s, (0, b))
    else
      var (s1, sym) :- ReadSymbol(t, s);
      var r, n := sym / 16, sym % 16;
      if n != 0 then
        var (s2, positive) :- ReadBits(1, s1);
        var v := if positive == 1 then Pow2(p.al) else -Pow2(p.al);
        var (s3, x) :- Advance(p, s2, b, k, r);
        Symbols(p, t, s3, x.1[Place(x.0) := Short(v)], x.0 + 1)
      else if r != 15 then
        var (s2, run) :- ReadRun(r, s1);
        var (s3, b3) :- Tail(p, s2, b, k);
        Done(s3, (run - 1, b3))
      else
        var (s3, x) :- Advance(p, s1, b, k, 15);
        Symbols(p, t, s3, x.1, x.0 + 1)
  }

  /** One block, when `run` blocks, this one included, are still in a run. */
  function ReadBlock(p: Band, t: HuffTable, s: seq<bool>, b: Block, k: nat, run: nat): BitRead<(nat, Block)>
    requires ValidBand(p) && Reads(t) && p.ss <= k
  {
    if run == 0 then Symbols(p, t, s, b, k)
    else
      var (s1, b1) :- Tail(p, s, b, k);
      Done(s1, (run - 1, b1))
  }

  function ReadBlocks(p: Band, t: HuffTable, s: seq<bool>, bs: seq<Block>, run: nat): BitRead<seq<Block>>
    requires ValidBand(p) && Reads(t)
    decreases |bs|, 0
  {
    if bs == [] then Done(s, []) else ReadFrom(p, t, s, bs[0], p.ss, run, bs[1..])
  }

  /** The rest of a block from `k` on, and the blocks after it. */
  function ReadFrom(p: Band, t: HuffTable, s: seq<bool>, b: Block, k: nat, run: nat, bs: seq<Block>): BitRead<seq<Block>>
    requires ValidBand(p) && Reads(t) && p.ss <= k
    decreases |bs|, 1
  {
    hide Symbols, Tail;
    var (s1, x) :- ReadBlock(p, t, s, b, k, run);
    var (s2, more) :- ReadBlocks(p, t, s1, bs, x.0);
    Done(s2, [x.1] + more)
  }

  // ---------------------------------------------------------------- what a block carries

  /** The correction bits of positions `i` to `j` - 1. */
  function Corr(p: Band, z: Block, i: nat, j: nat): seq<bool>
    requires j <= 64
    decreases j
  {
    if j <= i then []
    else
      var a := Mag(z, p, j - 1);
      Corr(p, z, i, j - 1) + if a > 1 then [a % 2 == 1] else []
  }

  /** How many of them stay zero. */
  function Zeros(p: Band, z: Block, i: nat, j: nat): (n: nat)
    requires j <= 64
    ensures n <= if j <= i then 0 else j - i
    decreases j
  {
    if j <= i then 0 else Zeros(p, z, i, j - 1) + if Mag(z, p, j - 1) == 0 then 1 else 0
  }

  predicate NoneNew(p: Band, z: Block, i: nat, j: nat)
    requires j <= 64
  {
    forall m :: i <= m < j ==> Mag(z, p, m) != 1
  }

  lemma {:induction false} CorrFront(p: Band, z: Block, i: nat, j: nat)
    requires i < j <= 64
    ensures Corr(p, z, i, j) == (if Mag(z, p, i) > 1 then [Mag(z, p, i) % 2 == 1] else []) + Corr(p, z, i + 1, j)
    decreases j
  {
    hide Mag;
    if i + 1 < j {
      CorrFront(p, z, i, j - 1);
      var first := if Mag(z, p, i) > 1 then [Mag(z, p, i) % 2 == 1] else [];
      var last := if Mag(z, p, j - 1) > 1 then [Mag(z, p, j - 1) % 2 == 1] else [];
      Assoc(first, Corr(p, z, i + 1, j - 1), last);
    } else {
      assert Corr(p, z, i, i) == [] && Corr(p, z, i + 1, j) == [];
    }
  }

  lemma {:induction false} ZerosFront(p: Band, z: Block, i: nat, j: nat)
    requires i < j <= 64
    ensures Zeros(p, z, i, j) == (if Mag(z, p, i) == 0 then 1 else 0) + Zeros(p, z, i + 1, j)
    decreases j
  {
    hide Mag;
    if i + 1 < j { ZerosFront(p, z, i, j - 1); }
  }

  /** What the decoder knows of position `j` before the scan. */
  predicate Previous(p: Band, z: Block, b: Block, i: nat) {
    p.se <= 63 && forall j :: i <= j <= p.se ==> b[j] == Approx(z[j], p.al + 1)
  }

  /** A block whose positions `i` to `j` - 1 have been refined. */
  function Refined(p: Band, b: Block, z: Block, i: nat, j: nat): Block {
    seq(64, m requires 0 <= m < 64 => if i <= m < j then Approx(z[m], p.al) else b[m])
  }

  /** A coefficient that is nonzero before the scan is one whose magnitude is at least two now; its correction bit
      makes it right. */
  lemma CorrectionIsRight(p: Band, z: Block, k: nat)
    requires k <= 63 && IsShort(z[k])
    ensures Approx(z[k], p.al + 1) != 0 <==> Mag(z, p, k) > 1
    ensures Mag(z, p, k) > 1 ==>
              Approx(z[k], p.al) == if Mag(z, p, k) % 2 == 1 then Corrected(Approx(z[k], p.al + 1), p.al)
                                    else Approx(z[k], p.al + 1)
    ensures Mag(z, p, k) == 0 ==> Approx(z[k], p.al) == 0
    ensures Mag(z, p, k) == 1 ==> Approx(z[k], p.al) == Short(if z[k] >= 0 then Pow2(p.al) else -Pow2(p.al))
  {
    var v, al := z[k], p.al;
    ApproxOfZero(v, al + 1);
    ApproxOfZero(v, al);
    ApproxRefines(v, al);
    ApproxIsShort(v, al);
    ApproxByMagnitude(v, al);
    NextBitIsClear(v, al);
    SignOfApprox(v, al);
    hide Approx, Truncated, Short, Pow2, BitIsSet;
  }

  /** The bit that the scan sends is not set before. */
  lemma NextBitIsClear(v: int, al: nat)
    ensures !BitIsSet(Approx(v, al + 1), al)
  {
    var q := Truncated(v, al + 1);
    assert Pow2(al + 1) == 2 * Pow2(al);
    assert q * (2 * Pow2(al)) == (2 * q) * Pow2(al);
    Quotient(q * Pow2(al + 1), 2 * q, Pow2(al), 0);
    EvenDouble(q);
  }

  lemma EvenDouble(q: int)
    ensures (2 * q) % 2 == 0
  {
  }

  lemma SignOfApprox(v: int, al: nat)
    ensures Approx(v, al) < 0 ==> v < 0
    ensures Approx(v, al) > 0 ==> v >= 0
    ensures Approx(v, al + 1) < 0 ==> v < 0
    ensures Approx(v, al + 1) > 0 ==> v >= 0
    ensures Abs(Truncated(v, al)) == 1 ==> Approx(v, al) == if v >= 0 then Pow2(al) else -Pow2(al)
  {
    ApproxByMagnitude(v, al);
    ApproxByMagnitude(v, al + 1);
    ApproxOfZero(v, al);
    ApproxOfZero(v, al + 1);
    hide Pow2;
  }

  // ---------------------------------------------------------------- pieces of a block are read back

  lemma OneBitReads(bit: bool, rest: seq<bool>)
    ensures ReadBits(1, [bit] + rest) == Done(rest, if bit then 1 else 0)
  {
    var s := [bit] + rest;
    assert s[1..] == rest && s[..1] == [bit] && [bit][..0] == [];
  }

  lemma {:induction false} BitItemsBits(tables: seq<HuffTable>, bs: seq<bool>)
    ensures Sendable(tables, BitItems(bs)) && Bits(tables, BitItems(bs)) == bs
    decreases |bs|
  {
    if bs != [] {
      BitItemsBits(tables, bs[1..]);
      assert BitItems(bs) == [BitItem(bs[0])] + BitItems(bs[1..]);
      BitsNext(tables, BitItem(bs[0]), BitItems(bs[1..]));
      assert BitsOf(1, 1) == [true] && BitsOf(0, 1) == [false];
      assert bs == [bs[0]] + bs[1..];
    }
  }

  /** The correction bits of a stretch bring its coefficients up to date. */
  lemma {:induction false} TailReads(p: Band, z: Block, b: Block, k: nat, rest: seq<bool>)
    requires ValidBand(p) && IsShortBlock(z) && Previous(p, z, b, k) && NoneNew(p, z, k, p.se + 1)
    ensures Tail(p, Corr(p, z, k, p.se + 1) + rest, b, k) == Done(rest, Refined(p, b, z, k, p.se + 1))
    decreases p.se + 1 - k
  {
    hide Mag, Corrected, Approx, Corr;
    if k > p.se {
      assert Corr(p, z, k, p.se + 1) == [] by { NoCorr(p, z, k, p.se + 1); }
      assert [] + rest == rest && Refined(p, b, z, k, p.se + 1) == b;
    } else {
      CorrFront(p, z, k, p.se + 1);
      CorrectionIsRight(p, z, k);
      var a, more := Mag(z, p, k), Corr(p, z, k + 1, p.se + 1);
      if a > 1 {
        Assoc([a % 2 == 1], more, rest);
        OneBitReads(a % 2 == 1, more + rest);
      } else {
        assert [] + more == more;
      }
      var b1 := b[k := Approx(z[k], p.al)];
      assert b[k := b[k]] == b;
      TailReads(p, z, b1, k + 1, rest);
      assert Refined(p, b1, z, k + 1, p.se + 1) == Refined(p, b, z, k, p.se + 1);
    }
  }

  lemma NoCorr(p: Band, z: Block, i: nat, j: nat)
    requires j <= i && j <= 64
    ensures Corr(p, z, i, j) == []
  {
  }

  /** Position `m` is the zero that the writer counted up to: the reader stops there. */
  lemma {:induction false} AdvanceReads(p: Band, z: Block, b: Block, k: nat, m: nat, rest: seq<bool>)
    requires ValidBand(p) && IsShortBlock(z) && Previous(p, z, b, k) && p.ss <= k <= m <= p.se
    requires NoneNew(p, z, k, m) && Mag(z, p, m) < 2
    ensures Advance(p, Corr(p, z, k, m) + rest, b, k, Zeros(p, z, k, m)) == Done(rest, (m, Refined(p, b, z, k, m)))
    decreases m - k
  {
    hide Mag, Corrected, Approx, Corr, Zeros;
    CorrectionIsRight(p, z, k);
    if k == m {
      assert Corr(p, z, k, m) == [] && Zeros(p, z, k, m) == 0 by { NoCorr(p, z, k, m); NoZeros(p, z, k, m); }
      assert [] + rest == rest && Refined(p, b, z, k, m) == b;
    } else {
      CorrFront(p, z, k, m);
      ZerosFront(p, z, k, m);
      var a, more := Mag(z, p, k), Corr(p, z, k + 1, m);
      if a > 1 {
        Assoc([a % 2 == 1], more, rest);
        OneBitReads(a % 2 == 1, more + rest);
      } else {
        assert [] + more == more;
      }
      var b1 := b[k := Approx(z[k], p.al)];
      assert b[k := b[k]] == b;
      AdvanceReads(p, z, b1, k + 1, m, rest);
      assert Refined(p, b1, z, k + 1, m) == Refined(p, b, z, k, m);
    }
  }

  lemma NoZeros(p: Band, z: Block, i: nat, j: nat)
    requires j <= i && j <= 64
    ensures Zeros(p, z, i, j) == 0
  {
  }

  lemma {:induction false} HighestBit(v: nat)
    requires v > 0
    ensures v == Pow2(NumBits(v) - 1) + Low(v, NumBits(v) - 1)
    decreases v
  {
    if v / 2 != 0 { HighestBit(v / 2); }
  }

  /** The run symbol and its bits, as bits. */
  function RunBits(tables: seq<HuffTable>, tbl: nat, run: nat): seq<bool>
    requires run > 0 && Sendable(tables, RunItems(tbl, run))
  {
    Bits(tables, RunItems(tbl, run))
  }

  lemma RunBitsAre(tables: seq<HuffTable>, tbl: nat, run: nat)
    requires run > 0 && Sendable(tables, RunItems(tbl, run))
    ensures tbl < |tables| && Sends(tables[tbl], 16 * (NumBits(run) - 1))
    ensures RunBits(tables, tbl, run)
         == SymbolWord(tables[tbl], 16 * (NumBits(run) - 1)) + BitsOf(run, NumBits(run) - 1)
  {
    hide SymbolWord, Sends, NumBits, BitsOf, Bits;
    var n := NumBits(run) - 1;
    var sym := Sym(tbl, 16 * n);
    assert ItemSendable(tables, RunItems(tbl, run)[0]);
    if n > 0 {
      BitsOfOne(tables, Raw(run, n));
      BitsNext(tables, sym, [Raw(run, n)]);
    } else {
      assert RunItems(tbl, run) == [sym];
      BitsOfOne(tables, sym);
      assert SymbolWord(tables[tbl], 0) + [] == SymbolWord(tables[tbl], 0);
      assert BitsOf(run, 0) == [];
    }
  }

  /** A run symbol ends the block: the correction bits behind it are those from here to the end of the band. */
  lemma RunReads(p: Band, tables: seq<HuffTable>, z: Block, b: Block, k: nat, run: nat, rest: seq<bool>)
    requires ValidBand(p) && p.ss <= k <= p.se && IsShortBlock(z) && Previous(p, z, b, k) && NoneNew(p, z, k, p.se + 1)
    requires 1 <= run < 0x8000 && Sendable(tables, RunItems(p.tbl, run))
    ensures p.tbl < |tables| && Reads(tables[p.tbl])
    ensures Symbols(p, tables[p.tbl], RunBits(tables, p.tbl, run) + (Corr(p, z, k, p.se + 1) + rest), b, k)
         == Done(rest, (run - 1, Refined(p, b, z, k, p.se + 1)))
  {
    hide Mag, Corr, Refined, SymbolWord, Sends, NumBits, BitsOf, Bits, Tail, ReadSymbol, ReadBits, RunBits, Reads, Low,
         Pow2, RunItems, Advance;
    RunBitsAre(tables, p.tbl, run);
    var n, corr := NumBits(run) - 1, Corr(p, z, k, p.se + 1);
    RunIsShort(run);
    var w, low := SymbolWord(tables[p.tbl], 16 * n), BitsOf(run, n);
    Assoc(w, low, corr + rest);
    SymbolReads(tables[p.tbl], 16 * n, low + (corr + rest));
    BitsRead(run, n, corr + rest);
    HighestBit(run);
    TailReads(p, z, b, k, rest);
  }

  lemma RunIsShort(run: nat)
    requires 1 <= run < 0x8000
    ensures 1 <= NumBits(run) <= 15
  {
    Pow2Of15();
    NumBitsBound(run, 15);
  }

  /** A run of sixteen zeros: the sixteenth is at `m`. */
  lemma ZrlReads(p: Band, tables: seq<HuffTable>, z: Block, b: Block, k: nat, m: nat, rest: seq<bool>)
    requires ValidBand(p) && p.ss <= k <= m <= p.se && IsShortBlock(z) && Previous(p, z, b, k)
    requires NoneNew(p, z, k, m) && Zeros(p, z, k, m) == 15 && Mag(z, p, m) == 0
    requires p.tbl < |tables| && Sends(tables[p.tbl], ZRL)
    ensures Reads(tables[p.tbl])
    ensures Symbols(p, tables[p.tbl], SymbolWord(tables[p.tbl], ZRL) + (Corr(p, z, k, m) + rest), b, k)
         == Symbols(p, tables[p.tbl], rest, Refined(p, b, z, k, m + 1), m + 1)
  {
    hide Mag, Corr, SymbolWord, Sends, Tail, ReadSymbol, ReadBits, Reads, Pow2, Advance, Approx, Zeros;
    SymbolReads(tables[p.tbl], ZRL, Corr(p, z, k, m) + rest);
    AdvanceReads(p, z, b, k, m, rest);
    CorrectionIsRight(p, z, m);
    assert Refined(p, b, z, k, m + 1) == Refined(p, b, z, k, m);
  }

  /** A new coefficient at `m`, with its sign, after `r` coefficients that stay zero. */
  lemma NewReads(p: Band, tables: seq<HuffTable>, z: Block, b: Block, k: nat, m: nat, r: nat, rest: seq<bool>)
    requires ValidBand(p) && p.ss <= k <= m <= p.se && IsShortBlock(z) && Previous(p, z, b, k)
    requires NoneNew(p, z, k, m) && r == Zeros(p, z, k, m) <= 15 && Mag(z, p, m) == 1
    requires p.tbl < |tables| && Sends(tables[p.tbl], 16 * r + 1)
    ensures Reads(tables[p.tbl])
    ensures Symbols(p, tables[p.tbl],
                    SymbolWord(tables[p.tbl], 16 * r + 1) + ([z[m] >= 0] + (Corr(p, z, k, m) + rest)), b, k)
         == Symbols(p, tables[p.tbl], rest, Refined(p, b, z, k, m + 1), m + 1)
  {
    hide Mag, Corr, SymbolWord, Sends, Tail, ReadSymbol, ReadBits, Reads, Pow2, Advance, Approx, Zeros, Short;
    SymbolReads(tables[p.tbl], 16 * r + 1, [z[m] >= 0] + (Corr(p, z, k, m) + rest));
    OneBitReads(z[m] >= 0, Corr(p, z, k, m) + rest);
    AdvanceReads(p, z, b, k, m, rest);
    CorrectionIsRight(p, z, m);
    assert Refined(p, b, z, k, m)[m := Approx(z[m], p.al)] == Refined(p, b, z, k, m + 1);
  }

  // ---------------------------------------------------------------- whole sequences of blocks

  /** All of positions `i` to `j` - 1 stay zero. */
  predicate AllZero(p: Band, z: Block, i: nat, j: nat)
    requires j <= 64
  {
    forall m :: i <= m < j ==> Mag(z, p, m) == 0
  }

  lemma {:induction false} CountAllZero(p: Band, z: Block, i: nat, c: nat, j: nat)
    requires i <= c <= j <= 64 && AllZero(p, z, c, j)
    ensures Zeros(p, z, i, j) == Zeros(p, z, i, c) + (j - c) && Corr(p, z, i, j) == Corr(p, z, i, c)
    decreases j
  {
    hide Mag;
    if c < j {
      CountAllZero(p, z, i, c, j - 1);
      assert Corr(p, z, i, j - 1) + [] == Corr(p, z, i, j - 1);
    }
  }

  /** Where the writer stands: it has passed positions `k0` to `k` - 1 since its last symbol. Up to the last new
      coefficient, no correction bit comes after a sixteenth zero: position `c` is behind the last one. */
  predicate Midway(p: Band, z: Block, k0: nat, c: nat, k: nat, r: nat, br: seq<bool>)
    requires ValidBand(p)
  {
    && p.ss <= k0 <= c <= k <= p.se + 1 && NoneNew(p, z, k0, k)
    && r == Zeros(p, z, k0, k) && br == Corr(p, z, k0, k)
    && (k <= LastNew(z, p, p.se) ==> AllZero(p, z, c, k) && Zeros(p, z, k0, c) <= 15)
  }

  /** What is pending goes out as part of a run of `total` blocks, and then `rest`. */
  predicate Flushed(tables: seq<HuffTable>, tbl: nat, e: Pending, total: nat, out: seq<bool>, rest: seq<bool>) {
    && 1 <= e.run <= total < 0x8000 && Sendable(tables, RunItems(tbl, total))
    && out == RunBits(tables, tbl, total) + (e.bits + rest)
  }

  /** The bits `out` make the reader produce `result`, be it that the pending blocks wait for their run symbol. */
  ghost predicate FromReads(p: Band, tables: seq<HuffTable>, e: Pending, out: seq<bool>, b: Block, k: nat, bs: seq<Block>,
                            rest: seq<bool>, result: seq<Block>)
    requires ValidBand(p) && p.tbl < |tables| && Reads(tables[p.tbl]) && p.ss <= k
  {
    if e.run == 0 then ReadFrom(p, tables[p.tbl], out, b, k, 0, bs) == Done(rest, result)
    else exists total: nat, more: seq<bool> ::
      && Flushed(tables, p.tbl, e, total, out, more)
      && ReadFrom(p, tables[p.tbl], more, b, k, total - e.run, bs) == Done(rest, result)
  }

  ghost predicate BlocksRead(p: Band, tables: seq<HuffTable>, e: Pending, out: seq<bool>, bs: seq<Block>,
                             rest: seq<bool>, result: seq<Block>)
    requires ValidBand(p) && p.tbl < |tables| && Reads(tables[p.tbl])
  {
    if e.run == 0 then ReadBlocks(p, tables[p.tbl], out, bs, 0) == Done(rest, result)
    else exists total: nat, more: seq<bool> ::
      && Flushed(tables, p.tbl, e, total, out, more)
      && ReadBlocks(p, tables[p.tbl], more, bs, total - e.run) == Done(rest, result)
  }

  predicate AllPrevious(p: Band, zs: seq<Block>, bs: seq<Block>) {
    |zs| == |bs| && forall i :: 0 <= i < |zs| ==> IsShortBlock(zs[i]) && Previous(p, zs[i], bs[i], p.ss)
  }

  function AllRefined(p: Band, zs: seq<Block>, bs: seq<Block>): (r: seq<Block>)
    requires ValidBand(p) && |zs| == |bs|
    ensures |r| == |zs|
  {
    seq(|zs|, i requires 0 <= i < |zs| => Refined(p, bs[i], zs[i], p.ss, p.se + 1))
  }

  /** If the block reads behind what was pending, it reads. */
  lemma PendingGoesFirst(p: Band, tables: seq<HuffTable>, e: Pending, out: seq<bool>, b: Block, k: nat, bs: seq<Block>,
                         rest: seq<bool>, result: seq<Block>)
    requires ValidBand(p) && p.tbl < |tables| && Reads(tables[p.tbl]) && p.ss <= k && ValidPending(e)
    requires Sendable(tables, FlushItems(p.tbl, e))
    requires ReadFrom(p, tables[p.tbl], out, b, k, 0, bs) == Done(rest, result)
    ensures FromReads(p, tables, e, Bits(tables, FlushItems(p.tbl, e)) + out, b, k, bs, rest, result)
  {
    hide ReadFrom, RunItems, Bits, Sendable, Reads;
    if e.run == 0 {
      NoItems(tables, out);
    } else {
      SendableConcat(tables, RunItems(p.tbl, e.run), BitItems(e.bits));
      BitsConcat(tables, RunItems(p.tbl, e.run), BitItems(e.bits));
      BitItemsBits(tables, e.bits);
      Assoc(RunBits(tables, p.tbl, e.run), e.bits, out);
      assert Flushed(tables, p.tbl, e, e.run, Bits(tables, FlushItems(p.tbl, e)) + out, out);
    }
  }

  lemma NoItems(tables: seq<HuffTable>, out: seq<bool>)
    ensures Bits(tables, []) + out == out
  {
  }

  /** A step inside the block. */
  lemma StepInside(p: Band, t: HuffTable, s: seq<bool>, b: Block, k: nat, s1: seq<bool>, b1: Block, k1: nat, bs: seq<Block>)
    requires ValidBand(p) && Reads(t) && p.ss <= k && p.ss <= k1
    requires Symbols(p, t, s, b, k) == Symbols(p, t, s1, b1, k1)
    ensures ReadFrom(p, t, s, b, k, 0, bs) == ReadFrom(p, t, s1, b1, k1, 0, bs)
  {
    hide Symbols, Tail, Reads;
  }

  lemma RefinedTwice(p: Band, b: Block, z: Block, i: nat, j: nat)
    requires ValidBand(p) && i <= j <= p.se + 1
    ensures Refined(p, Refined(p, b, z, i, j), z, j, p.se + 1) == Refined(p, b, z, i, p.se + 1)
    ensures Previous(p, z, b, i) ==> Previous(p, z, Refined(p, b, z, i, j), j)
  {
  }

  /** The items before the rest of the block, as bits. */
  lemma ItemsFirst(tables: seq<HuffTable>, flush: seq<Item>, head: Item, tail: seq<Item>, items: seq<Item>, rest: seq<bool>)
    requires Sendable(tables, (flush + ([head] + tail)) + items)
    ensures Sendable(tables, flush) && ItemSendable(tables, head) && Sendable(tables, tail) && Sendable(tables, items)
    ensures Bits(tables, (flush + ([head] + tail)) + items) + rest
         == Bits(tables, flush) + (ItemBits(tables, head) + (Bits(tables, tail) + (Bits(tables, items) + rest)))
  {
    hide ItemBits, Bits, Sendable;
    SendableConcat(tables, flush + ([head] + tail), items);
    SendableConcat(tables, flush, [head] + tail);
    SendableConcat(tables, [head], tail);
    OneIsSendable(tables, head);
    BitsConcat(tables, flush + ([head] + tail), items);
    BitsConcat(tables, flush, [head] + tail);
    BitsNext(tables, head, tail);
    var f, h, t, m := Bits(tables, flush), ItemBits(tables, head), Bits(tables, tail), Bits(tables, items);
    Assoc(f + (h + t), m, rest);
    Assoc(f, h + t, m + rest);
    Assoc(h, t, m + rest);
  }

  lemma OneIsSendable(tables: seq<HuffTable>, item: Item)
    ensures Sendable(tables, [item]) <==> ItemSendable(tables, item)
  {
    hide ItemSendable;
    assert Sendable(tables, [item]) ==> ItemSendable(tables, [item][0]);
  }

  // ---------------------------------------------------------------- the four cases

  /** The sixteenth zero behind `k0`. */
  lemma SixteenthZero(p: Band, z: Block, k0: nat, c: nat, k: nat, r: nat, br: seq<bool>) returns (m: nat)
    requires ValidBand(p) && Midway(p, z, k0, c, k, r, br) && r > 15 && k <= LastNew(z, p, p.se)
    ensures c <= m < k && Mag(z, p, m) == 0 && Zeros(p, z, k0, m) == 15 && br == Corr(p, z, k0, m)
    ensures NoneNew(p, z, k0, m) && Midway(p, z, m + 1, m + 1, k, r - 16, [])
  {
    hide Mag, Corr, Zeros, LastNew;
    CountAllZero(p, z, k0, c, k);
    m := c + (15 - Zeros(p, z, k0, c));
    CountAllZero(p, z, k0, c, m);
    CountAllZero(p, z, k0, c, k);
    CountAllZero(p, z, m + 1, m + 1, k);
    NoZeros(p, z, m + 1, m + 1);
    NoCorr(p, z, m + 1, m + 1);
  }

  lemma MidwayNext(p: Band, z: Block, k0: nat, c: nat, k: nat, r: nat, br: seq<bool>)
    requires ValidBand(p) && Midway(p, z, k0, c, k, r, br) && k <= p.se
    ensures Mag(z, p, k) == 0 ==> Midway(p, z, k0, c, k + 1, r + 1, br)
    ensures Mag(z, p, k) > 1 && !(r > 15 && k <= LastNew(z, p, p.se)) ==>
              Midway(p, z, k0, k + 1, k + 1, r, br + [Mag(z, p, k) % 2 == 1])
    ensures Mag(z, p, k) == 1 ==> k <= LastNew(z, p, p.se) && Midway(p, z, k + 1, k + 1, k + 1, 0, [])
  {
    hide Mag, LastNew;
    assert br + [] == br;
    NoZeros(p, z, k + 1, k + 1);
    NoCorr(p, z, k + 1, k + 1);
  }

  /** The writer at the end of the band with something left: the reader, in a run or at a run symbol, finds it. */
  lemma RunEndsBlock(p: Band, tables: seq<HuffTable>, z: Block, b: Block, k0: nat, e: Pending, total: nat, more: seq<bool>,
                     bs: seq<Block>, rest: seq<bool>, results: seq<Block>, out: seq<bool>)
    requires ValidBand(p) && p.tbl < |tables| && Reads(tables[p.tbl]) && IsShortBlock(z) && Previous(p, z, b, k0)
    requires p.ss <= k0 <= p.se && NoneNew(p, z, k0, p.se + 1)
    requires ValidPending(e) && (e.run > 0 ==> k0 == p.ss) && e.run + 1 <= total < 0x8000
    requires Sendable(tables, RunItems(p.tbl, total))
    requires out == RunBits(tables, p.tbl, total) + ((e.bits + Corr(p, z, k0, p.se + 1)) + more)
    requires ReadBlocks(p, tables[p.tbl], more, bs, total - e.run - 1) == Done(rest, results)
    ensures FromReads(p, tables, e, out, b, k0, bs, rest, [Refined(p, b, z, k0, p.se + 1)] + results)
  {
    hide Mag, Corr, Refined, Symbols, Tail, RunBits, RunItems, Reads, ReadBlocks;
    var corr := Corr(p, z, k0, p.se + 1);
    Assoc(e.bits, corr, more);
    if e.run == 0 {
      assert [] + (corr + more) == corr + more;
      RunReads(p, tables, z, b, k0, total, more);
    } else {
      TailReads(p, z, b, k0, more);
      assert Flushed(tables, p.tbl, e, total, out, corr + more);
    }
  }

  /** A stretch without new coefficients has zeros or correction bits. */
  lemma SomethingThere(p: Band, z: Block, k0: nat, k: nat)
    requires k0 < k <= 64 && NoneNew(p, z, k0, k)
    ensures Zeros(p, z, k0, k) > 0 || Corr(p, z, k0, k) != []
  {
    assert Mag(z, p, k - 1) != 1;
  }

  /** From any point within a block, what the writer still sends makes the reader finish the block and the blocks after
      it. */
  lemma {:induction false} MidwayReads(p: Band, tables: seq<HuffTable>, z: Block, zs: seq<Block>, k0: nat, c: nat, k: nat,
                                       r: nat, br: seq<bool>, e: Pending, b: Block, bs: seq<Block>, rest: seq<bool>)
    requires ValidBand(p) && p.tbl < |tables| && Reads(tables[p.tbl])
    requires IsShortBlock(z) && Previous(p, z, b, k0) && AllPrevious(p, zs, bs)
    requires Midway(p, z, k0, c, k, r, br) && |br| <= k - p.ss && ValidPending(e) && (e.run > 0 ==> k0 == p.ss)
    requires Sendable(tables, RefineItems(p, z, k, r, br, e).items)
    requires Sendable(tables, RefineAll(p, zs, RefineItems(p, z, k, r, br, e).pending))
    ensures var s := RefineItems(p, z, k, r, br, e);
            FromReads(p, tables, e, Bits(tables, s.items) + (Bits(tables, RefineAll(p, zs, s.pending)) + rest), b, k0, bs,
                      rest, [Refined(p, b, z, k0, p.se + 1)] + AllRefined(p, zs, bs))
    decreases |zs|, 1, p.se + 1 - k, r, 1
  {
    hide Mag, Corr, Refined, Symbols, Tail, RunBits, RunItems, Reads, ReadBlocks, LastNew, Zeros, RefineAll, Sendable,
         Bits, FlushItems, FromReads, Midway, Previous, AllRefined, EndOfBand;
    var s := RefineItems(p, z, k, r, br, e);
    MidwayStart(p, z, k0, c, k, r, br);
    if k > p.se {
      EndOfBlockReads(p, tables, z, zs, k0, c, r, br, e, b, bs, rest);
    } else {
      MidwayNext(p, z, k0, c, k, r, br);
      if Mag(z, p, k) == 0 {
        MidwayReads(p, tables, z, zs, k0, c, k + 1, r + 1, br, e, b, bs, rest);
      } else if r > 15 && k <= LastNew(z, p, p.se) {
        ZrlCaseReads(p, tables, z, zs, k0, c, k, r, br, e, b, bs, rest);
      } else if Mag(z, p, k) > 1 {
        MidwayReads(p, tables, z, zs, k0, k + 1, k + 1, r, br + [Mag(z, p, k) % 2 == 1], e, b, bs, rest);
      } else {
        NewCoefficientReads(p, tables, z, zs, k0, c, k, r, br, e, b, bs, rest);
      }
    }
  }

  lemma MidwayStart(p: Band, z: Block, k0: nat, c: nat, k: nat, r: nat, br: seq<bool>)
    requires ValidBand(p) && Midway(p, z, k0, c, k, r, br)
    ensures p.ss <= k0 <= c <= k <= p.se + 1 && NoneNew(p, z, k0, k) && r == Zeros(p, z, k0, k) && br == Corr(p, z, k0, k)
  {
  }

  /** The reader takes a symbol and goes on inside the block. */
  lemma AfterSymbol(p: Band, tables: seq<HuffTable>, e: Pending, flush: seq<Item>, head: seq<bool>, b: Block, k: nat,
                    inner: seq<bool>, b1: Block, k1: nat, bs: seq<Block>, rest: seq<bool>, result: seq<Block>)
    requires ValidBand(p) && p.tbl < |tables| && Reads(tables[p.tbl]) && p.ss <= k && p.ss <= k1 && ValidPending(e)
    requires flush == FlushItems(p.tbl, e) && Sendable(tables, flush)
    requires Symbols(p, tables[p.tbl], head, b, k) == Symbols(p, tables[p.tbl], inner, b1, k1)
    requires FromReads(p, tables, NONE, inner, b1, k1, bs, rest, result)
    ensures FromReads(p, tables, e, Bits(tables, flush) + head, b, k, bs, rest, result)
  {
    hide Symbols, Reads, Bits, Sendable, FlushItems, ReadFrom;
    StepInside(p, tables[p.tbl], head, b, k, inner, b1, k1, bs);
    PendingGoesFirst(p, tables, e, head, b, k, bs, rest, result);
  }

  /** More than fifteen zeros before a coefficient that is not behind the last new one. */
  lemma {:induction false} ZrlCaseReads(p: Band, tables: seq<HuffTable>, z: Block, zs: seq<Block>, k0: nat, c: nat, k: nat,
                                        r: nat, br: seq<bool>, e: Pending, b: Block, bs: seq<Block>, rest: seq<bool>)
    requires ValidBand(p) && p.tbl < |tables| && Reads(tables[p.tbl])
    requires IsShortBlock(z) && Previous(p, z, b, k0) && AllPrevious(p, zs, bs)
    requires Midway(p, z, k0, c, k, r, br) && |br| <= k - p.ss && ValidPending(e) && (e.run > 0 ==> k0 == p.ss)
    requires k <= p.se && Mag(z, p, k) != 0 && r > 15 && k <= LastNew(z, p, p.se)
    requires Sendable(tables, RefineItems(p, z, k, r, br, e).items)
    requires Sendable(tables, RefineAll(p, zs, RefineItems(p, z, k, r, br, e).pending))
    ensures var s := RefineItems(p, z, k, r, br, e);
            FromReads(p, tables, e, Bits(tables, s.items) + (Bits(tables, RefineAll(p, zs, s.pending)) + rest), b, k0, bs,
                      rest, [Refined(p, b, z, k0, p.se + 1)] + AllRefined(p, zs, bs))
    decreases |zs|, 1, p.se + 1 - k, r, 0
  {
    hide Mag, Corr, Refined, Symbols, Tail, RunBits, RunItems, Reads, ReadBlocks, LastNew, Zeros, RefineAll, Sendable,
         Bits, FlushItems, FromReads, Midway, Previous, AllRefined, EndOfBand;
    var s := RefineItems(p, z, k, r, br, e);
    MidwayStart(p, z, k0, c, k, r, br);
    var m := SixteenthZero(p, z, k0, c, k, r, br);
    var s1 := RefineItems(p, z, k, r - 16, [], NONE);
    var flush, out := FlushItems(p.tbl, e), Bits(tables, RefineAll(p, zs, s.pending)) + rest;
    ItemsFirst(tables, flush, Sym(p.tbl, ZRL), BitItems(br), s1.items, out);
    BitItemsBits(tables, br);
    var b1 := Refined(p, b, z, k0, m + 1);
    RefinedTwice(p, b, z, k0, m + 1);
    MidwayReads(p, tables, z, zs, m + 1, m + 1, k, r - 16, [], NONE, b1, bs, rest);
    var inner := Bits(tables, s1.items) + out;
    ZrlReads(p, tables, z, b, k0, m, inner);
    AfterSymbol(p, tables, e, flush, SymbolWord(tables[p.tbl], ZRL) + (br + inner), b, k0, inner, b1, m + 1, bs, rest,
                [Refined(p, b, z, k0, p.se + 1)] + AllRefined(p, zs, bs));
  }

  /** A coefficient becomes nonzero. */
  lemma {:induction false} NewCoefficientReads(p: Band, tables: seq<HuffTable>, z: Block, zs: seq<Block>, k0: nat, c: nat,
                                               k: nat, r: nat, br: seq<bool>, e: Pending, b: Block, bs: seq<Block>, rest: seq<bool>)
    requires ValidBand(p) && p.tbl < |tables| && Reads(tables[p.tbl])
    requires IsShortBlock(z) && Previous(p, z, b, k0) && AllPrevious(p, zs, bs)
    requires Midway(p, z, k0, c, k, r, br) && |br| <= k - p.ss && ValidPending(e) && (e.run > 0 ==> k0 == p.ss)
    requires k <= p.se && Mag(z, p, k) == 1 && !(r > 15 && k <= LastNew(z, p, p.se))
    requires Sendable(tables, RefineItems(p, z, k, r, br, e).items)
    requires Sendable(tables, RefineAll(p, zs, RefineItems(p, z, k, r, br, e).pending))
    ensures var s := RefineItems(p, z, k, r, br, e);
            FromReads(p, tables, e, Bits(tables, s.items) + (Bits(tables, RefineAll(p, zs, s.pending)) + rest), b, k0, bs,
                      rest, [Refined(p, b, z, k0, p.se + 1)] + AllRefined(p, zs, bs))
    decreases |zs|, 1, p.se + 1 - k, r, 0
  {
    hide Mag, Corr, Refined, Symbols, Tail, RunBits, RunItems, Reads, ReadBlocks, LastNew, Zeros, RefineAll, Sendable,
         Bits, FlushItems, FromReads, Midway, Previous, AllRefined, EndOfBand;
    var s := RefineItems(p, z, k, r, br, e);
    MidwayNext(p, z, k0, c, k, r, br);
    MidwayStart(p, z, k0, c, k, r, br);
    var s1 := RefineItems(p, z, k + 1, 0, [], NONE);
    var flush, out := FlushItems(p.tbl, e), Bits(tables, RefineAll(p, zs, s.pending)) + rest;
    var sign := BitItem(z[k] >= 0);
    ItemsFirst(tables, flush, Sym(p.tbl, 16 * r + 1), [sign] + BitItems(br), s1.items, out);
    BitItemsBits(tables, br);
    BitsNext(tables, sign, BitItems(br));
    SignBit(tables, z[k] >= 0);
    var b1 := Refined(p, b, z, k0, k + 1);
    RefinedTwice(p, b, z, k0, k + 1);
    MidwayReads(p, tables, z, zs, k + 1, k + 1, k + 1, 0, [], NONE, b1, bs, rest);
    var inner := Bits(tables, s1.items) + out;
    Assoc([z[k] >= 0], br, inner);
    NewReads(p, tables, z, b, k0, k, r, inner);
    AfterSymbol(p, tables, e, flush, SymbolWord(tables[p.tbl], 16 * r + 1) + ([z[k] >= 0] + (br + inner)), b, k0, inner, b1,
                k + 1, bs, rest, [Refined(p, b, z, k0, p.se + 1)] + AllRefined(p, zs, bs));
  }

  lemma SignBit(tables: seq<HuffTable>, bit: bool)
    ensures ItemBits(tables, BitItem(bit)) == [bit]
  {
    assert BitsOf(1, 1) == [true] && BitsOf(0, 1) == [false];
  }

  /** The end of the band. */
  lemma {:induction false} EndOfBlockReads(p: Band, tables: seq<HuffTable>, z: Block, zs: seq<Block>, k0: nat, c: nat, r: nat,
                                           br: seq<bool>, e: Pending, b: Block, bs: seq<Block>, rest: seq<bool>)
    requires ValidBand(p) && p.tbl < |tables| && Reads(tables[p.tbl])
    requires IsShortBlock(z) && Previous(p, z, b, k0) && AllPrevious(p, zs, bs)
    requires Midway(p, z, k0, c, p.se + 1, r, br) && ValidPending(e) && (e.run > 0 ==> k0 == p.ss)
    requires |br| <= p.se + 1 - p.ss
    requires Sendable(tables, EndOfBand(p, r, br, e).items)
    requires Sendable(tables, RefineAll(p, zs, EndOfBand(p, r, br, e).pending))
    ensures var s := EndOfBand(p, r, br, e);
            FromReads(p, tables, e, Bits(tables, s.items) + (Bits(tables, RefineAll(p, zs, s.pending)) + rest), b, k0, bs,
                      rest, [Refined(p, b, z, k0, p.se + 1)] + AllRefined(p, zs, bs))
    decreases |zs|, 0, 1
  {
    hide Mag, Corr, Refined, Symbols, Tail, RunBits, RunItems, Reads, ReadBlocks, LastNew, Zeros, RefineAll, Sendable,
         Bits, FromReads, Midway, Previous, AllRefined, Flushed, FlushItems, BlocksRead;
    MidwayStart(p, z, k0, c, p.se + 1, r, br);
    var s := EndOfBand(p, r, br, e);
    var out := Bits(tables, RefineAll(p, zs, s.pending)) + rest;
    BlocksAreRead(p, tables, zs, s.pending, bs, rest);
    if r == 0 && br == [] {
      if k0 <= p.se { SomethingThere(p, z, k0, p.se + 1); }
      NothingToSend(p, tables, z, b, e, out, bs, rest, AllRefined(p, zs, bs));
    } else {
      SomethingLeft(p, z, k0);
      var e1 := Pending(e.run + 1, e.bits + br);
      if s.pending == NONE {
        ForcedOut(p, tables, z, b, k0, e, out, bs, rest, AllRefined(p, zs, bs));
      } else {
        NoItems(tables, out);
        StillPending(p, tables, z, b, k0, e, out, bs, rest, AllRefined(p, zs, bs));
      }
    }
  }

  lemma SomethingLeft(p: Band, z: Block, k0: nat)
    requires ValidBand(p) && p.ss <= k0 <= p.se + 1
    requires Zeros(p, z, k0, p.se + 1) > 0 || Corr(p, z, k0, p.se + 1) != []
    ensures k0 <= p.se
  {
    hide Mag;
  }

  lemma NothingToSend(p: Band, tables: seq<HuffTable>, z: Block, b: Block, e: Pending, out: seq<bool>, bs: seq<Block>,
                      rest: seq<bool>, results: seq<Block>)
    requires ValidBand(p) && p.tbl < |tables| && Reads(tables[p.tbl]) && e == NONE
    requires BlocksRead(p, tables, NONE, out, bs, rest, results)
    ensures FromReads(p, tables, e, Bits(tables, []) + out, b, p.se + 1, bs, rest,
                      [Refined(p, b, z, p.se + 1, p.se + 1)] + results)
  {
    hide Reads, ReadBlocks;
    NoItems(tables, out);
    assert Refined(p, b, z, p.se + 1, p.se + 1) == b;
  }

  /** The counter or the buffer would overflow: the run goes out at once. */
  lemma ForcedOut(p: Band, tables: seq<HuffTable>, z: Block, b: Block, k0: nat, e: Pending, out: seq<bool>,
                  bs: seq<Block>, rest: seq<bool>, results: seq<Block>)
    requires ValidBand(p) && p.tbl < |tables| && Reads(tables[p.tbl]) && IsShortBlock(z) && Previous(p, z, b, k0)
    requires p.ss <= k0 <= p.se && NoneNew(p, z, k0, p.se + 1) && ValidPending(e) && (e.run > 0 ==> k0 == p.ss)
    requires BlocksRead(p, tables, NONE, out, bs, rest, results)
    requires var e1 := Pending(e.run + 1, e.bits + Corr(p, z, k0, p.se + 1));
             Sendable(tables, FlushItems(p.tbl, e1))
    ensures var e1 := Pending(e.run + 1, e.bits + Corr(p, z, k0, p.se + 1));
            FromReads(p, tables, e, Bits(tables, FlushItems(p.tbl, e1)) + out, b, k0, bs, rest,
                      [Refined(p, b, z, k0, p.se + 1)] + results)
  {
    hide Mag, Corr, Refined, RunItems, Reads, ReadBlocks, Bits, Sendable, FromReads, Previous;
    var e1 := Pending(e.run + 1, e.bits + Corr(p, z, k0, p.se + 1));
    SendableConcat(tables, RunItems(p.tbl, e1.run), BitItems(e1.bits));
    BitsConcat(tables, RunItems(p.tbl, e1.run), BitItems(e1.bits));
    BitItemsBits(tables, e1.bits);
    Assoc(RunBits(tables, p.tbl, e1.run), e1.bits, out);
    RunEndsBlock(p, tables, z, b, k0, e, e1.run, out, bs, rest, results, Bits(tables, FlushItems(p.tbl, e1)) + out);
  }

  /** The run goes on: what the reader finds is the run that it will be part of. */
  lemma StillPending(p: Band, tables: seq<HuffTable>, z: Block, b: Block, k0: nat, e: Pending, out: seq<bool>,
                     bs: seq<Block>, rest: seq<bool>, results: seq<Block>)
    requires ValidBand(p) && p.tbl < |tables| && Reads(tables[p.tbl]) && IsShortBlock(z) && Previous(p, z, b, k0)
    requires p.ss <= k0 <= p.se && NoneNew(p, z, k0, p.se + 1) && ValidPending(e) && (e.run > 0 ==> k0 == p.ss)
    requires BlocksRead(p, tables, Pending(e.run + 1, e.bits + Corr(p, z, k0, p.se + 1)), out, bs, rest, results)
    ensures FromReads(p, tables, e, out, b, k0, bs, rest, [Refined(p, b, z, k0, p.se + 1)] + results)
  {
    hide Mag, Corr, Refined, RunItems, Reads, ReadBlocks, Bits, Sendable, FromReads, Previous, RunBits;
    var e1 := Pending(e.run + 1, e.bits + Corr(p, z, k0, p.se + 1));
    var total: nat, more: seq<bool> :|
      && Flushed(tables, p.tbl, e1, total, out, more)
      && ReadBlocks(p, tables[p.tbl], more, bs, total - e1.run) == Done(rest, results);
    RunEndsBlock(p, tables, z, b, k0, e, total, more, bs, rest, results, out);
  }

  /** Any sequence of blocks, from any pending run on. */
  lemma {:induction false} BlocksAreRead(p: Band, tables: seq<HuffTable>, zs: seq<Block>, e: Pending, bs: seq<Block>,
                                         rest: seq<bool>)
    requires ValidBand(p) && p.tbl < |tables| && Reads(tables[p.tbl]) && AllPrevious(p, zs, bs) && ValidPending(e)
    requires Sendable(tables, RefineAll(p, zs, e))
    ensures BlocksRead(p, tables, e, Bits(tables, RefineAll(p, zs, e)) + rest, bs, rest, AllRefined(p, zs, bs))
    decreases |zs|, 0, 0
  {
    hide Mag, Corr, Refined, RunItems, Reads, Bits, Sendable, FromReads, Previous, RunBits, RefineItems, Midway, FlushItems;
    if zs == [] {
      LastRunReads(p, tables, e, rest);
    } else {
      var z := zs[0];
      var s := RefineItems(p, z, p.ss, 0, [], e);
      var after := RefineAll(p, zs[1..], s.pending);
      SendableConcat(tables, s.items, after);
      BitsConcat(tables, s.items, after);
      Assoc(Bits(tables, s.items), Bits(tables, after), rest);
      PendingStaysValid(p, z, p.ss, 0, [], e);
      MidwayAtStart(p, z);
      RestIsPrevious(p, zs, bs);
      MidwayReads(p, tables, z, zs[1..], p.ss, p.ss, p.ss, 0, [], e, bs[0], bs[1..], rest);
      FromStart(p, tables, e, Bits(tables, RefineAll(p, zs, e)) + rest, bs, rest, AllRefined(p, zs, bs));
    }
  }

  lemma RestIsPrevious(p: Band, zs: seq<Block>, bs: seq<Block>)
    requires ValidBand(p) && AllPrevious(p, zs, bs) && zs != []
    ensures AllPrevious(p, zs[1..], bs[1..]) && bs != []
    ensures AllRefined(p, zs, bs) == [Refined(p, bs[0], zs[0], p.ss, p.se + 1)] + AllRefined(p, zs[1..], bs[1..])
  {
    hide Refined, Previous;
  }

  lemma MidwayAtStart(p: Band, z: Block)
    requires ValidBand(p)
    ensures Midway(p, z, p.ss, p.ss, p.ss, 0, [])
  {
    NoZeros(p, z, p.ss, p.ss);
    NoCorr(p, z, p.ss, p.ss);
    hide Zeros, Corr, Mag, LastNew;
  }

  lemma FromStart(p: Band, tables: seq<HuffTable>, e: Pending, out: seq<bool>, bs: seq<Block>, rest: seq<bool>,
                  result: seq<Block>)
    requires ValidBand(p) && p.tbl < |tables| && Reads(tables[p.tbl]) && bs != []
    requires FromReads(p, tables, e, out, bs[0], p.ss, bs[1..], rest, result)
    ensures BlocksRead(p, tables, e, out, bs, rest, result)
  {
    hide Reads, ReadFrom, RunBits, RunItems, Sendable;
    if e.run > 0 {
      var total: nat, more: seq<bool> :|
        && Flushed(tables, p.tbl, e, total, out, more)
        && ReadFrom(p, tables[p.tbl], more, bs[0], p.ss, total - e.run, bs[1..]) == Done(rest, result);
      assert ReadBlocks(p, tables[p.tbl], more, bs, total - e.run) == Done(rest, result);
    }
  }

  /** At the end of the interval the pending run goes out. */
  lemma LastRunReads(p: Band, tables: seq<HuffTable>, e: Pending, rest: seq<bool>)
    requires ValidBand(p) && p.tbl < |tables| && Reads(tables[p.tbl]) && ValidPending(e)
    requires Sendable(tables, FlushItems(p.tbl, e))
    ensures BlocksRead(p, tables, e, Bits(tables, FlushItems(p.tbl, e)) + rest, [], rest, [])
  {
    hide Reads, RunItems, Bits, Sendable;
    if e.run == 0 {
      NoItems(tables, rest);
    } else {
      SendableConcat(tables, RunItems(p.tbl, e.run), BitItems(e.bits));
      BitsConcat(tables, RunItems(p.tbl, e.run), BitItems(e.bits));
      BitItemsBits(tables, e.bits);
      Assoc(RunBits(tables, p.tbl, e.run), e.bits, rest);
      assert Flushed(tables, p.tbl, e, e.run, Bits(tables, FlushItems(p.tbl, e)) + rest, rest);
    }
  }

  /** Refining any sequence of blocks is undone: every coefficient gets its next bit, new coefficients appear with
      their sign, and nothing of the bits that follow is taken. */
  lemma RefinementIsLossless(p: Band, tables: seq<HuffTable>, zs: seq<Block>, bs: seq<Block>, rest: seq<bool>)
    requires ValidBand(p) && p.tbl < |tables| && Reads(tables[p.tbl]) && AllPrevious(p, zs, bs)
    requires Sendable(tables, RefineAll(p, zs, NONE))
    ensures ReadBlocks(p, tables[p.tbl], Bits(tables, RefineAll(p, zs, NONE)) + rest, bs, 0)
         == Done(rest, AllRefined(p, zs, bs))
  {
    hide Reads, ReadBlocks, RefineAll, AllRefined, AllPrevious, Sendable, Bits;
    BlocksAreRead(p, tables, zs, NONE, bs, rest);
  }
}
