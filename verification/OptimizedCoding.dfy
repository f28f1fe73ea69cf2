/** Two-pass Huffman coding (optimize_coding in jcmaster.c, finish_pass_gather in jchuff.c): a pass that only counts
    symbols, tables made from the counts, and a pass that writes the scan with these tables. */
module OptimizedCoding {
  import opened EstimationTable
  import opened Arithmetic
  import opened PointTransform
  import opened HuffmanCode
  import opened HuffmanTables
  import opened HuffmanItems
  import opened HuffmanEncoderObject
  import opened GenOptimalTable
  import opened KraftSums
  import opened MergeOrder
  import opened OptimalTable
  import opened Seqs

  // ---------------------------------------------------------------- from items to counts

  /** How many symbols go to a table. */
  function SymbolsIn(items: seq<Item>, tbl: nat): nat {
    if items == [] then 0 else (if items[0].Sym? && items[0].tbl == tbl then 1 else 0) + SymbolsIn(items[1..], tbl)
  }

  /** The symbols of a JPEG file: DC sizes, AC run lengths with sizes up to 11, end-of-band runs. The first `numDc` tables
      are DC tables. */
  predicate IsSymbol(numDc: nat, item: Item) {
    item.Sym? ==> item.sym < 256 && item.sym % 16 <= 11 && (item.tbl < numDc ==> item.sym <= 15)
  }

  predicate AreSymbols(numDc: nat, items: seq<Item>) {
    forall i :: 0 <= i < |items| ==> IsSymbol(numDc, items[i])
  }

  lemma AreSymbolsSum(numDc: nat, a: seq<Item>, b: seq<Item>)
    requires AreSymbols(numDc, a) && AreSymbols(numDc, b)
    ensures AreSymbols(numDc, a + b)
  {
    hide IsSymbol;
  }

  lemma {:induction false} AreSymbolsFlat(numDc: nat, segments: seq<seq<Item>>)
    requires forall i :: 0 <= i < |segments| ==> AreSymbols(numDc, segments[i])
    ensures AreSymbols(numDc, Flat(segments))
    decreases |segments|
  {
    hide AreSymbols;
    if segments == [] {
      NoSymbols(numDc);
    } else {
      AreSymbolsFlat(numDc, segments[1..]);
      AreSymbolsSum(numDc, segments[0], Flat(segments[1..]));
    }
  }

  lemma NoSymbols(numDc: nat)
    ensures AreSymbols(numDc, [])
  {
  }

  lemma {:induction false} RowSum(items: seq<Item>, numDc: nat, tbl: nat)
    requires AreSymbols(numDc, items)
    ensures SumOver(Tally(items, tbl), AllSymbols(), NUM_SYMBOLS) == SymbolsIn(items, tbl)
    decreases |items|
  {
    if items == [] {
      ZeroSum(Tally(items, tbl), NUM_SYMBOLS);
    } else {
      RowSum(items[1..], numDc, tbl);
      assert IsSymbol(numDc, items[0]);
      var hit := if items[0].Sym? && items[0].tbl == tbl then items[0].sym else NUM_SYMBOLS;
      OneMoreInSum(Tally(items[1..], tbl), Tally(items, tbl), hit, NUM_SYMBOLS);
    }
  }

  lemma {:induction false} ZeroSum(count: seq<nat>, n: nat)
    requires n <= |count| && forall i :: 0 <= i < n ==> count[i] == 0
    ensures SumOver(count, AllSymbols(), n) == 0
  {
    if n > 0 { ZeroSum(count, n - 1); }
  }

  lemma {:induction false} OneMoreInSum(count: seq<nat>, more: seq<nat>, hit: nat, n: nat)
    requires n <= |count| == |more| == NUM_SYMBOLS
    requires forall i :: 0 <= i < NUM_SYMBOLS ==> more[i] == count[i] + if i == hit then 1 else 0
    ensures SumOver(more, AllSymbols(), n) == SumOver(count, AllSymbols(), n) + if hit < n then 1 else 0
  {
    if n > 0 {
      OneMoreInSum(count, more, hit, n - 1);
      assert n - 1 in AllSymbols() by { assert seq(NUM_SYMBOLS, i => i)[n - 1] == n - 1; }
    }
  }

  /** Two of the 256 possible symbols are never used, so a byte can count the others. */
  lemma {:induction false} NonZeroBelow(count: seq<nat>, n: nat)
    requires 32 <= n <= |count| && count[15] == 0 && count[31] == 0
    ensures NonZero(count, n) <= n - 2
  {
    if n > 32 {
      NonZeroBelow(count, n - 1);
    } else {
      NonZeroAtMost(count, 15);
      NonZeroFrom(count, 16, 31);
      assert NonZero(count, 16) == NonZero(count, 15);
      assert NonZero(count, 32) == NonZero(count, 31);
    }
  }

  lemma {:induction false} NonZeroAtMost(count: seq<nat>, n: nat)
    requires n <= |count|
    ensures NonZero(count, n) <= n
  {
    if n > 0 { NonZeroAtMost(count, n - 1); }
  }

  lemma {:induction false} NonZeroFrom(count: seq<nat>, m: nat, n: nat)
    requires m <= n <= |count|
    ensures NonZero(count, n) <= NonZero(count, m) + (n - m)
  {
    if n > m { NonZeroFrom(count, m, n - 1); }
  }

  lemma {:induction false} SomeNonZero(count: seq<nat>, sym: nat, n: nat)
    requires sym < n <= |count| && count[sym] > 0
    ensures NonZero(count, n) >= 1
  {
    if n - 1 > sym { SomeNonZero(count, sym, n - 1); }
  }

  lemma {:induction false} NeverCounted(items: seq<Item>, numDc: nat, tbl: nat, sym: nat)
    requires AreSymbols(numDc, items) && (sym >= 256 || sym % 16 > 11)
    ensures CountOf(items, tbl, sym) == 0
    decreases |items|
  {
    if items != [] {
      assert IsSymbol(numDc, items[0]);
      NeverCounted(items[1..], numDc, tbl, sym);
    }
  }

  predicate Sees(items: seq<Item>, tbl: nat) { exists i :: 0 <= i < |items| && items[i].Sym? && items[i].tbl == tbl }

  /** The counts of a table that is in use are such that the optimal table can be made. */
  lemma CountsAreCountable(items: seq<Item>, numDc: nat, tbl: nat)
    requires AreSymbols(numDc, items) && Sees(items, tbl) && SymbolsIn(items, tbl) < MAX_TOTAL
    ensures Countable(Tally(items, tbl))
    ensures Total(WithPseudo(Tally(items, tbl))) == SymbolsIn(items, tbl) + 1
  {
    hide NonZero, SumOver, CountOf;
    var count := Tally(items, tbl);
    var i :| 0 <= i < |items| && items[i].Sym? && items[i].tbl == tbl;
    assert IsSymbol(numDc, items[i]);
    CountedWhereSent(items, i);
    SomeNonZero(count, items[i].sym, PSEUDO);
    NeverCounted(items, numDc, tbl, 15);
    NeverCounted(items, numDc, tbl, 31);
    NeverCounted(items, numDc, tbl, PSEUDO);
    NonZeroBelow(count, PSEUDO);
    RowSum(items, numDc, tbl);
    OneMoreInSum(count, WithPseudo(count), PSEUDO, NUM_SYMBOLS);
  }

  // ---------------------------------------------------------------- tables

  /** Before a table is made there is none: no symbol has a code. */
  const NO_TABLE := EncTable(HuffTable(seq(17, _ => 0), seq(256, _ => 0)), seq(256, _ => 0), seq(256, _ => 0))

  lemma {:induction false} NoCodes(bits: seq<nat>, n: nat)
    requires |bits| == 17 && n <= 16 && forall l :: 0 <= l <= 16 ==> bits[l] == 0
    ensures Count(bits, n) == 0 && (n > 0 ==> Past(bits, n) == 0)
  {
    if n > 0 { NoCodes(bits, n - 1); }
  }

  lemma NoTableIsOne()
    ensures IsEncTable(NO_TABLE)
  {
    var bits := NO_TABLE.pub.bits;
    NoCodes(bits, 16);
    forall l | 1 <= l <= 16 ensures Past(bits, l) < Pow2(l) {
      NoCodes(bits, l);
    }
    hide Count, Past;
  }

  /** One table: from counts to code words. It fails only if a code is longer than the algorithm provides for. */
  method MakeTable(coder: HuffmanEncoder, numDc: nat, tbl: nat) returns (ok: bool, e: EncTable)
    requires coder.Valid() && coder.gatherStatistics && tbl < |coder.derived|
    requires AreSymbols(numDc, coder.Log()) && Sees(coder.Log(), tbl) && SymbolsIn(coder.Log(), tbl) < MAX_TOTAL
    ensures !ok ==> SymbolsIn(coder.Log(), tbl) + 1 >= SAFE_TOTAL
    ensures ok ==> IsEncTable(e) && TableFor(Tally(coder.Log(), tbl), e.pub)
  {
    hide Countable, TableFor, EncoderAccepts, EncoderTable, Total, CountOf, IsSymbol, Sees;
    e := NO_TABLE;
    NoTableIsOne();
    ghost var row := Tally(coder.Log(), tbl);
    CountsAreCountable(coder.Log(), numDc, tbl);
    var freq := new nat[NUM_SYMBOLS];
    for sym := 0 to NUM_SYMBOLS
      invariant forall s :: 0 <= s < sym ==> freq[s] == row[s]
    {
      freq[sym] := coder.counts[tbl, sym];
    }
    assert freq[..] == row;
    var t;
    ok, t := GenerateOptimalTable(freq);
    if !ok { return; }
    TableIsAccepted(coder.Log(), numDc, tbl, t);
    var ehufco, ehufsi;
    ok, ehufco, ehufsi := MakeEncoderTable(t, tbl < numDc);
    e := EncTable(t, ehufco[..], ehufsi[..]);
  }

  /** The encoder takes the table, also where only sizes of DC differences are allowed. */
  lemma TableIsAccepted(items: seq<Item>, numDc: nat, tbl: nat, t: HuffTable)
    requires AreSymbols(numDc, items) && TableFor(Tally(items, tbl), t)
    ensures IsTable(t) && EncoderAccepts(t, tbl < numDc) && EncoderAccepts(t, false)
  {
    hide CountOf, Count;
    assert NumSymbols(t) <= 256;
    forall p | 0 <= p < NumSymbols(t) ensures t.huffval[p] <= MaxSymbol(tbl < numDc) {
      var sym := t.huffval[p];
      assert HasSymbol(t, sym, NumSymbols(t));
      if tbl < numDc && sym > 15 { NotInDcTable(items, numDc, tbl, sym); }
    }
  }

  lemma {:induction false} NotInDcTable(items: seq<Item>, numDc: nat, tbl: nat, sym: nat)
    requires AreSymbols(numDc, items) && tbl < numDc && sym > 15
    ensures CountOf(items, tbl, sym) == 0
    decreases |items|
  {
    if items != [] {
      assert IsSymbol(numDc, items[0]);
      NotInDcTable(items[1..], numDc, tbl, sym);
    }
  }

  predicate Within(items: seq<Item>, tbls: seq<nat>) {
    forall i :: 0 <= i < |items| ==> items[i].Sym? ==> items[i].tbl in tbls
  }

  /** The counts of every table, with that of the pseudo-symbol, stay below a bound. */
  predicate TotalsBelow(items: seq<Item>, tbls: seq<nat>, bound: nat) {
    forall tbl :: tbl in tbls ==> SymbolsIn(items, tbl) + 1 < bound
  }

  /** All tables that the scan uses, each once. */
  method MakeTables(coder: HuffmanEncoder, numDc: nat, tbls: seq<nat>) returns (ok: bool, derived: seq<EncTable>)
    requires coder.Valid() && coder.gatherStatistics && AreSymbols(numDc, coder.Log())
    requires forall tbl :: tbl in tbls ==> tbl < |coder.derived| && Sees(coder.Log(), tbl)
    requires TotalsBelow(coder.Log(), tbls, MAX_TOTAL + 1)
    ensures !ok ==> !TotalsBelow(coder.Log(), tbls, SAFE_TOTAL)
    ensures ok ==> |derived| == |coder.derived| && AllMade(coder.Log(), tbls, derived)
  {
    hide HuffmanEncoder.Valid, TableFor, IsEncTable, AreSymbols, Sees, Tally, SymbolsIn;
    var done := new bool[|coder.derived|](_ => false);
    derived := seq(|coder.derived|, _ => NO_TABLE);
    NoTableIsOne();
    for i := 0 to |tbls|
      invariant |derived| == |coder.derived|
      invariant forall tbl :: 0 <= tbl < |derived| ==> done[tbl] == (tbl in tbls[..i])
      invariant AllMade(coder.Log(), tbls[..i], derived)
    {
      var tbl := tbls[i];
      assert tbl in tbls;
      if !done[tbl] {
        var e;
        ok, e := MakeTable(coder, numDc, tbl);
        if !ok { return; }
        derived := derived[tbl := e];
        done[tbl] := true;
      }
      assert tbls[..i + 1] == tbls[..i] + [tbl];
    }
    assert tbls[..|tbls|] == tbls;
    ok := true;
  }

  ghost predicate AllMade(items: seq<Item>, tbls: seq<nat>, derived: seq<EncTable>) {
    && (forall tbl :: 0 <= tbl < |derived| ==> IsEncTable(derived[tbl]))
    && (forall tbl :: tbl in tbls ==> tbl < |derived| && TableFor(Tally(items, tbl), derived[tbl].pub))
  }

  /** The public part of the tables. */
  function Public(derived: seq<EncTable>): (r: seq<HuffTable>)
    ensures |r| == |derived|
  {
    seq(|derived|, i requires 0 <= i < |derived| => derived[i].pub)
  }

  /** With these tables everything that was counted can be sent, and the reader takes them. */
  lemma MadeTablesSuffice(items: seq<Item>, numDc: nat, tbls: seq<nat>, derived: seq<EncTable>)
    requires AreSymbols(numDc, items) && Within(items, tbls) && AllMade(items, tbls, derived)
    ensures Sendable(Public(derived), items)
    ensures forall tbl :: tbl in tbls ==> Reads(Public(derived)[tbl])
  {
    hide TableFor, IsEncTable, Tally;
    forall i | 0 <= i < |items| && items[i].Sym? ensures items[i].sym < PSEUDO {
      assert IsSymbol(numDc, items[i]);
    }
    GatheredTablesSuffice(Public(derived), items);
    forall tbl | tbl in tbls ensures Reads(Public(derived)[tbl]) {
      assert TableFor(Tally(items, tbl), derived[tbl].pub);
      TableForReads(Tally(items, tbl), derived[tbl].pub);
    }
  }

  lemma TableForReads(counts: seq<nat>, t: HuffTable)
    requires |counts| == NUM_SYMBOLS && TableFor(counts, t)
    ensures Reads(t)
  {
  }
}
