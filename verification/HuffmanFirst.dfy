/** The first AC scan of a band in Huffman mode (encode_mcu_AC_first in jchuff.c, decode_mcu_AC_first in jdhuff.c):
    run lengths and magnitudes as in a sequential scan, but blocks that end early are counted in runs. */
module HuffmanFirst {
  import opened Arithmetic
  import opened PointTransform
  import opened HuffmanCode
  import opened HuffmanTables
  import opened BitWriting
  import opened HuffmanItems
  import opened HuffmanEobRuns
  import opened Seqs
  import R = HuffmanRefinement

  /** What the encoder does not refuse as out of range. */
  predicate CodableBand(p: Band, z: Block)
    requires ValidBand(p)
  {
    forall k :: p.ss <= k <= p.se ==> NumBits(Mag(z, p, k)) <= MAX_COEF_BITS
  }

  // ---------------------------------------------------------------- writing

  /** The coefficients from `k` on, after `r` zeros. */
  function FirstItems(p: Band, z: Block, k: nat, r: nat, e: Pending): Sent
    requires ValidBand(p)
    decreases p.se + 1 - k, r, e.run
  {
    if k > p.se then EndOfBand(p, r, [], e)
    else
      var v := Truncated(z[k], p.al);
      if v == 0 then FirstItems(p, z, k + 1, r + 1, e)
      else if e.run > 0 then Before(FlushItems(p.tbl, e), FirstItems(p, z, k, r, NONE))
      else if r > 15 then Before([Sym(p.tbl, ZRL)], FirstItems(p, z, k, r - 16, NONE))
      else Before([Sym(p.tbl, 16 * r + NumBits(Abs(v)))] + [ValueItem(v)], FirstItems(p, z, k + 1, 0, NONE))
  }

  function FirstAll(p: Band, zs: seq<Block>, e: Pending): seq<Item>
    requires ValidBand(p)
    decreases |zs|
  {
    if zs == [] then FlushItems(p.tbl, e)
    else
      var s := FirstItems(p, zs[0], p.ss, 0, e);
      s.items + FirstAll(p, zs[1..], s.pending)
  }

  predicate ValidRun(e: Pending) { e.bits == [] && e.run < 0x7FFF }

  lemma {:induction false} RunStaysValid(p: Band, z: Block, k: nat, r: nat, e: Pending)
    requires ValidBand(p) && ValidRun(e)
    ensures ValidRun(FirstItems(p, z, k, r, e).pending)
    decreases p.se + 1 - k, r, e.run
  {
    hide Truncated, FlushItems;
    if k <= p.se {
      if Truncated(z[k], p.al) == 0 {
        RunStaysValid(p, z, k + 1, r + 1, e);
      } else if e.run > 0 {
        RunStaysValid(p, z, k, r, NONE);
      } else if r > 15 {
        RunStaysValid(p, z, k, r - 16, NONE);
      } else {
        RunStaysValid(p, z, k + 1, 0, NONE);
      }
    }
  }

  // ---------------------------------------------------------------- reading

  /** No run is active: symbols from position `k` on. Gives what is left of a run that starts here. */
  function Symbols(p: Band, t: HuffTable, s: seq<bool>, b: Block, k: nat): BitRead<(nat, Block)>
    requires ValidBand(p) && Reads(t) && p.ss <= k
    decreases p.se + 1 - k
  {
    if k > p.se then Done(s, (0, b))
    else
      var (s1, sym) :- ReadSymbol(t, s);
      var r, n := sym / 16, sym % 16;
      if n != 0 then
        var (s2, v) :- ReadValue(n, s1);
        Symbols(p, t, s2, b[Place(k + r) := Short(v * Pow2(p.al))], k + r + 1)
      else if r == 15 then Symbols(p, t, s1, b, k + 16)
      else
        var (s2, run) :- R.ReadRun(r, s1);
        Done(s2, (run - 1, b))
  }

  /** One block, when `run` blocks, this one included, are still in a run; a block in a run is passed over. */
  function ReadBlock(p: Band, t: HuffTable, s: seq<bool>, b: Block, k: nat, run: nat): BitRead<(nat, Block)>
    requires ValidBand(p) && Reads(t) && p.ss <= k
  {
    if run > 0 then Done(s, (run - 1, b)) else Symbols(p, t, s, b, k)
  }

  function ReadBlocks(p: Band, t: HuffTable, s: seq<bool>, bs: seq<Block>, run: nat): BitRead<seq<Block>>
    requires ValidBand(p) && Reads(t)
    decreases |bs|, 0
  {
    if bs == [] then Done(s, []) else ReadFrom(p, t, s, bs[0], p.ss, run, bs[1..])
  }

  /** The rest of a block from `k` on, and the blocks after it. */
  function ReadFrom(p: Band, t: HuffTable, s: seq<bool>, b: Block, k: nat, run: nat, bs: seq<Block>): BitRead<seq<Block>>
    requires ValidBand(p) && Reads(t) && p.ss <= k
    decreases |bs|, 1
  {
    hide Symbols;
    var (s1, x) :- ReadBlock(p, t, s, b, k, run);
    var (s2, more) :- ReadBlocks(p, t, s1, bs, x.0);
    Done(s2, [x.1] + more)
  }

  // ---------------------------------------------------------------- writing is undone by reading

  predicate ZeroBand(p: Band, b: Block, k: nat) { p.se <= 63 && forall j :: k <= j <= p.se ==> b[j] == 0 }

  predicate Passed(p: Band, z: Block, k0: nat, k: nat)
    requires ValidBand(p)
  {
    p.ss <= k0 <= k <= p.se + 1 && forall j :: k0 <= j < k ==> Truncated(z[j], p.al) == 0
  }

  /** The bits `out` make the reader produce `result`, be it that the pending blocks wait for their run symbol. */
  ghost predicate FromReads(p: Band, tables: seq<HuffTable>, e: Pending, out: seq<bool>, b: Block, k: nat, bs: seq<Block>,
                            rest: seq<bool>, result: seq<Block>)
    requires ValidBand(p) && p.tbl < |tables| && Reads(tables[p.tbl]) && p.ss <= k
  {
    if e.run == 0 then ReadFrom(p, tables[p.tbl], out, b, k, 0, bs) == Done(rest, result)
    else exists total: nat, more: seq<bool> ::
      && R.Flushed(tables, p.tbl, e, total, out, more)
      && ReadFrom(p, tables[p.tbl], more, b, k, total - e.run, bs) == Done(rest, result)
  }

  ghost predicate BlocksRead(p: Band, tables: seq<HuffTable>, e: Pending, out: seq<bool>, bs: seq<Block>,
                             rest: seq<bool>, result: seq<Block>)
    requires ValidBand(p) && p.tbl < |tables| && Reads(tables[p.tbl])
  {
    if e.run == 0 then ReadBlocks(p, tables[p.tbl], out, bs, 0) == Done(rest, result)
    else exists total: nat, more: seq<bool> ::
      && R.Flushed(tables, p.tbl, e, total, out, more)
      && ReadBlocks(p, tables[p.tbl], more, bs, total - e.run) == Done(rest, result)
  }

  predicate AllReady(p: Band, zs: seq<Block>, bs: seq<Block>)
    requires ValidBand(p)
  {
    |zs| == |bs| && forall i :: 0 <= i < |zs| ==>
      IsShortBlock(zs[i]) && CodableBand(p, zs[i]) && ZeroBand(p, bs[i], p.ss)
  }

  lemma StepInside(p: Band, t: HuffTable, s: seq<bool>, b: Block, k: nat, s1: seq<bool>, b1: Block, k1: nat, bs: seq<Block>)
    requires ValidBand(p) && Reads(t) && p.ss <= k && p.ss <= k1
    requires Symbols(p, t, s, b, k) == Symbols(p, t, s1, b1, k1)
    ensures ReadFrom(p, t, s, b, k, 0, bs) == ReadFrom(p, t, s1, b1, k1, 0, bs)
  {
    hide Symbols, Reads;
  }

  lemma PendingGoesFirst(p: Band, tables: seq<HuffTable>, e: Pending, out: seq<bool>, b: Block, k: nat, bs: seq<Block>,
                         rest: seq<bool>, result: seq<Block>)
    requires ValidBand(p) && p.tbl < |tables| && Reads(tables[p.tbl]) && p.ss <= k && ValidRun(e) && e.run > 0
    requires Sendable(tables, FlushItems(p.tbl, e))
    requires ReadFrom(p, tables[p.tbl], out, b, k, 0, bs) == Done(rest, result)
    ensures FromReads(p, tables, e, Bits(tables, FlushItems(p.tbl, e)) + out, b, k, bs, rest, result)
  {
    hide ReadFrom, RunItems, Bits, Sendable, Reads;
    assert RunItems(p.tbl, e.run) + BitItems([]) == RunItems(p.tbl, e.run);
    assert [] + out == out;
    assert R.Flushed(tables, p.tbl, e, e.run, Bits(tables, FlushItems(p.tbl, e)) + out, out);
  }

  /** A run symbol ends the block. */
  /** A run symbol and its bits end a block. */
  lemma RunEnds(p: Band, t: HuffTable, s: seq<bool>, b: Block, k: nat, s1: seq<bool>, sym: nat)
    requires ValidBand(p) && Reads(t) && p.ss <= k <= p.se
    requires sym % 16 == 0 && sym / 16 != 15 && ReadSymbol(t, s) == Done(s1, sym)
    ensures var x := R.ReadRun(sym / 16, s1);
            Symbols(p, t, s, b, k) == if x.Suspend? then Suspend else Done(x.rest, (x.v - 1, b))
  {
    hide ReadSymbol, ReadValue, Reads, Short, Pow2, R.ReadRun;
  }

  lemma RunReads(p: Band, tables: seq<HuffTable>, b: Block, k: nat, run: nat, rest: seq<bool>)
    requires ValidBand(p) && p.ss <= k <= p.se && 1 <= run < 0x8000 && Sendable(tables, RunItems(p.tbl, run))
    ensures p.tbl < |tables| && Reads(tables[p.tbl])
    ensures Symbols(p, tables[p.tbl], R.RunBits(tables, p.tbl, run) + rest, b, k) == Done(rest, (run - 1, b))
  {
    hide SymbolWord, Sends, NumBits, BitsOf, Bits, ReadSymbol, ReadBits, R.RunBits, Reads, Low, Pow2, RunItems, Symbols;
    R.RunBitsAre(tables, p.tbl, run);
    var n := NumBits(run) - 1;
    R.RunIsShort(run);
    var w, low := SymbolWord(tables[p.tbl], 16 * n), BitsOf(run, n);
    Assoc(w, low, rest);
    SymbolReads(tables[p.tbl], 16 * n, low + rest);
    RunEnds(p, tables[p.tbl], w + (low + rest), b, k, low + rest, 16 * n);
    BitsRead(run, n, rest);
    R.HighestBit(run);
  }

  lemma ZrlReads(p: Band, tables: seq<HuffTable>, b: Block, k: nat, rest: seq<bool>)
    requires ValidBand(p) && p.ss <= k <= p.se && p.tbl < |tables| && Sends(tables[p.tbl], ZRL)
    ensures Reads(tables[p.tbl])
    ensures Symbols(p, tables[p.tbl], SymbolWord(tables[p.tbl], ZRL) + rest, b, k) == Symbols(p, tables[p.tbl], rest, b, k + 16)
  {
    hide SymbolWord, Sends, ReadSymbol, Reads;
    SymbolReads(tables[p.tbl], ZRL, rest);
  }

  lemma ValueIsRead(p: Band, tables: seq<HuffTable>, z: Block, b: Block, k: nat, r: nat, rest: seq<bool>)
    requires ValidBand(p) && p.ss <= k && k + r <= p.se && r <= 15 && IsShortBlock(z)
    requires Truncated(z[k + r], p.al) != 0 && NumBits(Mag(z, p, k + r)) <= MAX_COEF_BITS
    requires var v := Truncated(z[k + r], p.al);
             Sendable(tables, [Sym(p.tbl, 16 * r + NumBits(Abs(v)))] + [ValueItem(v)])
    ensures p.tbl < |tables| && Reads(tables[p.tbl])
    ensures var v := Truncated(z[k + r], p.al);
            Symbols(p, tables[p.tbl], Bits(tables, [Sym(p.tbl, 16 * r + NumBits(Abs(v)))] + [ValueItem(v)]) + rest, b, k)
            == Symbols(p, tables[p.tbl], rest, b[k + r := Approx(z[k + r], p.al)], k + r + 1)
  {
    hide Sends, ReadSymbol, ReadValue, Reads, NumBits, Bits, Sendable, Truncated, Short, Pow2, ValueItem;
    var v := Truncated(z[k + r], p.al);
    var n := NumBits(Abs(v));
    ValueSize(v);
    SymbolThenValue(tables, p.tbl, 16 * r + n, v, rest);
    ApproxIsShort(z[k + r], p.al);
    DigitsOf(16 * r + n, r, n);
  }

  /** Positions that are zero need not be written. */
  lemma ZerosAreThere(p: Band, z: Block, b: Block, k0: nat, k: nat)
    requires ValidBand(p) && Passed(p, z, k0, k) && ZeroBand(p, b, k0)
    ensures R.Refined(p, b, z, k, p.se + 1) == R.Refined(p, b, z, k0, p.se + 1)
    ensures k > p.se ==> R.Refined(p, b, z, k0, p.se + 1) == b
    ensures k <= p.se ==>
              R.Refined(p, b[k := Approx(z[k], p.al)], z, k + 1, p.se + 1) == R.Refined(p, b, z, k0, p.se + 1)
  {
    hide Approx, Truncated;
    forall j | k0 <= j < k ensures Approx(z[j], p.al) == 0 {
      ApproxOfZero(z[j], p.al);
    }
  }

  /** From any point within a block, what the writer still sends makes the reader finish the block and the blocks after
      it. */
  lemma {:induction false} MidwayReads(p: Band, tables: seq<HuffTable>, z: Block, zs: seq<Block>, k0: nat, k: nat, e: Pending,
                                       b: Block, bs: seq<Block>, rest: seq<bool>)
    requires ValidBand(p) && p.tbl < |tables| && Reads(tables[p.tbl])
    requires IsShortBlock(z) && CodableBand(p, z) && ZeroBand(p, b, k0) && AllReady(p, zs, bs) && |zs| == |bs|
    requires Passed(p, z, k0, k) && ValidRun(e) && (e.run > 0 ==> k0 == p.ss)
    requires Sendable(tables, FirstItems(p, z, k, k - k0, e).items)
    requires Sendable(tables, FirstAll(p, zs, FirstItems(p, z, k, k - k0, e).pending))
    ensures var s := FirstItems(p, z, k, k - k0, e);
            FromReads(p, tables, e, Bits(tables, s.items) + (Bits(tables, FirstAll(p, zs, s.pending)) + rest), b, k0, bs,
                      rest, [R.Refined(p, b, z, k0, p.se + 1)] + R.AllRefined(p, zs, bs))
    decreases |zs|, 1, p.se + 1 - k, k - k0, e.run, 1
  {
    hide R.Refined, Symbols, R.RunBits, RunItems, Reads, ReadBlocks, FirstAll, Sendable, Truncated, NumBits, Approx,
         Bits, FlushItems, FromReads, R.AllRefined, EndOfBand, CodableBand, ReadFrom, ValueItem, Sends, SymbolWord, AllReady;
    var r := k - k0;
    var s := FirstItems(p, z, k, r, e);
    var out := Bits(tables, FirstAll(p, zs, s.pending)) + rest;
    ZerosAreThere(p, z, b, k0, k);
    if k > p.se {
      EndOfBlockReads(p, tables, z, zs, k0, e, b, bs, rest);
    } else if Truncated(z[k], p.al) == 0 {
      MidwayReads(p, tables, z, zs, k0, k + 1, e, b, bs, rest);
    } else if e.run > 0 {
      var s1, flush := FirstItems(p, z, k, r, NONE), FlushItems(p.tbl, e);
      HeadFirst(tables, flush, s1.items, out);
      MidwayReads(p, tables, z, zs, k0, k, NONE, b, bs, rest);
      ReadsDirectly(p, tables, Bits(tables, s1.items) + out, b, k0, bs, rest, [R.Refined(p, b, z, k0, p.se + 1)] + R.AllRefined(p, zs, bs));
      PendingGoesFirst(p, tables, e, Bits(tables, s1.items) + out, b, k0, bs, rest,
                       [R.Refined(p, b, z, k0, p.se + 1)] + R.AllRefined(p, zs, bs));
    } else if r > 15 {
      var s1 := FirstItems(p, z, k, r - 16, NONE);
      HeadFirst(tables, [Sym(p.tbl, ZRL)], s1.items, out);
      R.OneIsSendable(tables, Sym(p.tbl, ZRL));
      BitsOfOne(tables, Sym(p.tbl, ZRL));
      ZrlReads(p, tables, b, k0, Bits(tables, s1.items) + out);
      ZerosAreThere(p, z, b, k0, k0 + 16);
      MidwayReads(p, tables, z, zs, k0 + 16, k, NONE, b, bs, rest);
      AfterSymbol(p, tables, Bits(tables, [Sym(p.tbl, ZRL)]) + (Bits(tables, s1.items) + out), b, k0,
                  Bits(tables, s1.items) + out, b, k0 + 16, bs, rest,
                  [R.Refined(p, b, z, k0, p.se + 1)] + R.AllRefined(p, zs, bs));
      assert e == NONE;
    } else {
      CoefficientCase(p, tables, z, zs, k0, k, b, bs, rest);
      assert e == NONE;
    }
  }

  lemma HeadFirst(tables: seq<HuffTable>, head: seq<Item>, items: seq<Item>, out: seq<bool>)
    requires Sendable(tables, head + items)
    ensures Sendable(tables, head) && Sendable(tables, items)
    ensures Bits(tables, head + items) + out == Bits(tables, head) + (Bits(tables, items) + out)
  {
    hide Bits, Sendable;
    SendableConcat(tables, head, items);
    BitsConcat(tables, head, items);
    Assoc(Bits(tables, head), Bits(tables, items), out);
  }

  lemma ReadsDirectly(p: Band, tables: seq<HuffTable>, out: seq<bool>, b: Block, k: nat, bs: seq<Block>, rest: seq<bool>,
                      result: seq<Block>)
    requires ValidBand(p) && p.tbl < |tables| && Reads(tables[p.tbl]) && p.ss <= k
    ensures FromReads(p, tables, NONE, out, b, k, bs, rest, result)
       <==> ReadFrom(p, tables[p.tbl], out, b, k, 0, bs) == Done(rest, result)
  {
    hide ReadFrom, Reads;
  }

  lemma AfterSymbol(p: Band, tables: seq<HuffTable>, out: seq<bool>, b: Block, k: nat, inner: seq<bool>, b1: Block, k1: nat,
                    bs: seq<Block>, rest: seq<bool>, result: seq<Block>)
    requires ValidBand(p) && p.tbl < |tables| && Reads(tables[p.tbl]) && p.ss <= k && p.ss <= k1
    requires Symbols(p, tables[p.tbl], out, b, k) == Symbols(p, tables[p.tbl], inner, b1, k1)
    requires FromReads(p, tables, NONE, inner, b1, k1, bs, rest, result)
    ensures FromReads(p, tables, NONE, out, b, k, bs, rest, result)
  {
    hide Symbols, Reads, ReadFrom;
    StepInside(p, tables[p.tbl], out, b, k, inner, b1, k1, bs);
  }

  lemma {:induction false} CoefficientCase(p: Band, tables: seq<HuffTable>, z: Block, zs: seq<Block>, k0: nat, k: nat, b: Block,
                                           bs: seq<Block>, rest: seq<bool>)
    requires ValidBand(p) && p.tbl < |tables| && Reads(tables[p.tbl])
    requires IsShortBlock(z) && CodableBand(p, z) && ZeroBand(p, b, k0) && AllReady(p, zs, bs) && |zs| == |bs|
    requires Passed(p, z, k0, k) && k <= p.se && Truncated(z[k], p.al) != 0 && k - k0 <= 15
    requires Sendable(tables, FirstItems(p, z, k, k - k0, NONE).items)
    requires Sendable(tables, FirstAll(p, zs, FirstItems(p, z, k, k - k0, NONE).pending))
    ensures var s := FirstItems(p, z, k, k - k0, NONE);
            FromReads(p, tables, NONE, Bits(tables, s.items) + (Bits(tables, FirstAll(p, zs, s.pending)) + rest), b, k0, bs,
                      rest, [R.Refined(p, b, z, k0, p.se + 1)] + R.AllRefined(p, zs, bs))
    decreases |zs|, 1, p.se + 1 - k, k - k0, 0, 0
  {
    hide R.Refined, Symbols, Reads, ReadBlocks, FirstAll, Sendable, Truncated, NumBits, Approx, Bits, FlushItems, FromReads,
         R.AllRefined, EndOfBand, ReadFrom, ValueItem, AllReady;
    var r, v := k - k0, Truncated(z[k], p.al);
    var s, s1 := FirstItems(p, z, k, r, NONE), FirstItems(p, z, k + 1, 0, NONE);
    var out := Bits(tables, FirstAll(p, zs, s.pending)) + rest;
    var head := [Sym(p.tbl, 16 * r + NumBits(Abs(v)))] + [ValueItem(v)];
    HeadFirst(tables, head, s1.items, out);
    var inner := Bits(tables, s1.items) + out;
    assert NumBits(Mag(z, p, k)) <= MAX_COEF_BITS;
    ValueIsRead(p, tables, z, b, k0, r, inner);
    var b1 := b[k := Approx(z[k], p.al)];
    MidwayReads(p, tables, z, zs, k + 1, k + 1, NONE, b1, bs, rest);
    ZerosAreThere(p, z, b, k0, k);
    AfterSymbol(p, tables, Bits(tables, head) + inner, b, k0, inner, b1, k + 1, bs, rest,
                [R.Refined(p, b, z, k0, p.se + 1)] + R.AllRefined(p, zs, bs));
  }

  /** The writer at the end of the band with zeros left: the reader, in a run or at a run symbol, finds it. */
  lemma RunEndsBlock(p: Band, tables: seq<HuffTable>, b: Block, k0: nat, e: Pending, total: nat, more: seq<bool>, bs: seq<Block>,
                     rest: seq<bool>, results: seq<Block>, out: seq<bool>)
    requires ValidBand(p) && p.tbl < |tables| && Reads(tables[p.tbl]) && p.ss <= k0 <= p.se
    requires ValidRun(e) && (e.run > 0 ==> k0 == p.ss) && e.run + 1 <= total < 0x8000
    requires Sendable(tables, RunItems(p.tbl, total)) && out == R.RunBits(tables, p.tbl, total) + more
    requires ReadBlocks(p, tables[p.tbl], more, bs, total - e.run - 1) == Done(rest, results)
    ensures FromReads(p, tables, e, out, b, k0, bs, rest, [b] + results)
  {
    hide Symbols, R.RunBits, RunItems, Reads, ReadBlocks;
    if e.run == 0 {
      RunReads(p, tables, b, k0, total, more);
    } else {
      assert [] + more == more;
      assert R.Flushed(tables, p.tbl, e, total, out, more);
    }
  }

  lemma {:induction false} EndOfBlockReads(p: Band, tables: seq<HuffTable>, z: Block, zs: seq<Block>, k0: nat, e: Pending,
                                           b: Block, bs: seq<Block>, rest: seq<bool>)
    requires ValidBand(p) && p.tbl < |tables| && Reads(tables[p.tbl])
    requires AllReady(p, zs, bs) && |zs| == |bs| && p.ss <= k0 <= p.se + 1 && ValidRun(e) && (e.run > 0 ==> k0 == p.ss)
    requires Sendable(tables, EndOfBand(p, p.se + 1 - k0, [], e).items)
    requires Sendable(tables, FirstAll(p, zs, EndOfBand(p, p.se + 1 - k0, [], e).pending))
    ensures var s := EndOfBand(p, p.se + 1 - k0, [], e);
            FromReads(p, tables, e, Bits(tables, s.items) + (Bits(tables, FirstAll(p, zs, s.pending)) + rest), b, k0, bs,
                      rest, [b] + R.AllRefined(p, zs, bs))
    decreases |zs|, 0, 1
  {
    hide Symbols, R.RunBits, RunItems, Reads, ReadBlocks, FirstAll, Sendable, Bits, FromReads, R.AllRefined, BlocksRead, AllReady;
    var s := EndOfBand(p, p.se + 1 - k0, [], e);
    var out := Bits(tables, FirstAll(p, zs, s.pending)) + rest;
    BlocksAreRead(p, tables, zs, s.pending, bs, rest);
    if k0 == p.se + 1 {
      R.NoItems(tables, out);
      NothingToSend(p, tables, b, out, bs, rest, R.AllRefined(p, zs, bs));
    } else if s.pending == NONE {
      ForcedOut(p, tables, b, k0, e, out, bs, rest, R.AllRefined(p, zs, bs));
    } else {
      R.NoItems(tables, out);
      StillPending(p, tables, b, k0, e, out, bs, rest, R.AllRefined(p, zs, bs));
    }
  }

  lemma NothingToSend(p: Band, tables: seq<HuffTable>, b: Block, out: seq<bool>, bs: seq<Block>, rest: seq<bool>,
                      results: seq<Block>)
    requires ValidBand(p) && p.tbl < |tables| && Reads(tables[p.tbl])
    requires BlocksRead(p, tables, NONE, out, bs, rest, results)
    ensures FromReads(p, tables, NONE, out, b, p.se + 1, bs, rest, [b] + results)
  {
    hide Reads, ReadBlocks;
  }

  lemma ForcedOut(p: Band, tables: seq<HuffTable>, b: Block, k0: nat, e: Pending, out: seq<bool>, bs: seq<Block>,
                  rest: seq<bool>, results: seq<Block>)
    requires ValidBand(p) && p.tbl < |tables| && Reads(tables[p.tbl]) && p.ss <= k0 <= p.se
    requires ValidRun(e) && (e.run > 0 ==> k0 == p.ss) && BlocksRead(p, tables, NONE, out, bs, rest, results)
    requires Sendable(tables, FlushItems(p.tbl, Pending(e.run + 1, e.bits + [])))
    ensures FromReads(p, tables, e, Bits(tables, FlushItems(p.tbl, Pending(e.run + 1, e.bits + []))) + out, b, k0, bs, rest,
                      [b] + results)
  {
    hide RunItems, Reads, ReadBlocks, Bits, Sendable, FromReads;
    var items := RunItems(p.tbl, e.run + 1);
    assert items + BitItems(e.bits + []) == items;
    RunEndsBlock(p, tables, b, k0, e, e.run + 1, out, bs, rest, results, R.RunBits(tables, p.tbl, e.run + 1) + out);
  }

  lemma StillPending(p: Band, tables: seq<HuffTable>, b: Block, k0: nat, e: Pending, out: seq<bool>, bs: seq<Block>,
                     rest: seq<bool>, results: seq<Block>)
    requires ValidBand(p) && p.tbl < |tables| && Reads(tables[p.tbl]) && p.ss <= k0 <= p.se
    requires ValidRun(e) && (e.run > 0 ==> k0 == p.ss)
    requires BlocksRead(p, tables, Pending(e.run + 1, e.bits + []), out, bs, rest, results)
    ensures FromReads(p, tables, e, out, b, k0, bs, rest, [b] + results)
  {
    hide RunItems, Reads, ReadBlocks, Bits, Sendable, FromReads, R.RunBits;
    var e1 := Pending(e.run + 1, e.bits + []);
    var total: nat, more: seq<bool> :|
      && R.Flushed(tables, p.tbl, e1, total, out, more)
      && ReadBlocks(p, tables[p.tbl], more, bs, total - e1.run) == Done(rest, results);
    assert e1.bits + more == more;
    RunEndsBlock(p, tables, b, k0, e, total, more, bs, rest, results, out);
  }

  lemma {:induction false} BlocksAreRead(p: Band, tables: seq<HuffTable>, zs: seq<Block>, e: Pending, bs: seq<Block>,
                                         rest: seq<bool>)
    requires ValidBand(p) && p.tbl < |tables| && Reads(tables[p.tbl]) && AllReady(p, zs, bs) && |zs| == |bs| && ValidRun(e)
    requires Sendable(tables, FirstAll(p, zs, e))
    ensures BlocksRead(p, tables, e, Bits(tables, FirstAll(p, zs, e)) + rest, bs, rest, R.AllRefined(p, zs, bs))
    decreases |zs|, 0, 0
  {
    hide R.Refined, RunItems, Reads, Bits, Sendable, FromReads, R.RunBits, FirstItems, FlushItems, CodableBand, ZeroBand;
    if zs == [] {
      LastRunReads(p, tables, e, rest);
    } else {
      var z := zs[0];
      var s := FirstItems(p, z, p.ss, 0, e);
      HeadFirst(tables, s.items, FirstAll(p, zs[1..], s.pending), rest);
      RunStaysValid(p, z, p.ss, 0, e);
      assert AllReady(p, zs[1..], bs[1..]);
      assert R.AllRefined(p, zs, bs) == [R.Refined(p, bs[0], z, p.ss, p.se + 1)] + R.AllRefined(p, zs[1..], bs[1..]);
      MidwayReads(p, tables, z, zs[1..], p.ss, p.ss, e, bs[0], bs[1..], rest);
      FromStart(p, tables, e, Bits(tables, FirstAll(p, zs, e)) + rest, bs, rest, R.AllRefined(p, zs, bs));
    }
  }

  lemma FromStart(p: Band, tables: seq<HuffTable>, e: Pending, out: seq<bool>, bs: seq<Block>, rest: seq<bool>,
                  result: seq<Block>)
    requires ValidBand(p) && p.tbl < |tables| && Reads(tables[p.tbl]) && bs != []
    requires FromReads(p, tables, e, out, bs[0], p.ss, bs[1..], rest, result)
    ensures BlocksRead(p, tables, e, out, bs, rest, result)
  {
    hide Reads, ReadFrom, R.RunBits, RunItems, Sendable;
    if e.run > 0 {
      var total: nat, more: seq<bool> :|
        && R.Flushed(tables, p.tbl, e, total, out, more)
        && ReadFrom(p, tables[p.tbl], more, bs[0], p.ss, total - e.run, bs[1..]) == Done(rest, result);
      assert ReadBlocks(p, tables[p.tbl], more, bs, total - e.run) == Done(rest, result);
    }
  }

  lemma LastRunReads(p: Band, tables: seq<HuffTable>, e: Pending, rest: seq<bool>)
    requires ValidBand(p) && p.tbl < |tables| && Reads(tables[p.tbl]) && ValidRun(e)
    requires Sendable(tables, FlushItems(p.tbl, e))
    ensures BlocksRead(p, tables, e, Bits(tables, FlushItems(p.tbl, e)) + rest, [], rest, [])
  {
    hide Reads, RunItems, Bits, Sendable;
    if e.run == 0 {
      R.NoItems(tables, rest);
    } else {
      assert RunItems(p.tbl, e.run) + BitItems([]) == RunItems(p.tbl, e.run);
      assert [] + rest == rest;
      assert R.Flushed(tables, p.tbl, e, e.run, Bits(tables, FlushItems(p.tbl, e)) + rest, rest);
    }
  }

  /** Any sequence of blocks in range is read back at the precision of the scan. */
  lemma FirstScanIsLossless(p: Band, tables: seq<HuffTable>, zs: seq<Block>, bs: seq<Block>, rest: seq<bool>)
    requires ValidBand(p) && p.tbl < |tables| && Reads(tables[p.tbl]) && AllReady(p, zs, bs) && |zs| == |bs|
    requires Sendable(tables, FirstAll(p, zs, NONE))
    ensures ReadBlocks(p, tables[p.tbl], Bits(tables, FirstAll(p, zs, NONE)) + rest, bs, 0)
         == Done(rest, R.AllRefined(p, zs, bs))
  {
    hide Reads, ReadBlocks, FirstAll, AllReady, Sendable, Bits, R.AllRefined;
    BlocksAreRead(p, tables, zs, NONE, bs, rest);
  }
}
