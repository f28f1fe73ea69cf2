/** An input for which a limited table gives the longer code to the symbol that occurs more often: eighteen symbols whose
    tree is seventeen levels high (jpeg_gen_optimal_table in jchuff.c). */
module LimitedTable {
  import opened Arithmetic
  import opened HuffmanCode
  import opened HuffmanTables
  import opened KraftSums
  import opened HuffmanOptimality
  import opened MergeOrder
  import opened OptimalTable
  import opened LengthLimit
  import opened GenOptimalTable
  import opened TableOrder

  /** A count that doubles from symbol to symbol. */
  function Weight(s: nat): (w: nat)
    ensures w >= 22
  {
    if s == 0 then 22 else 2 * Weight(s - 1)
  }

  lemma {:induction false} WeightsGrow(i: nat, j: nat)
    requires i < j
    ensures Weight(i) < Weight(j)
    decreases j
  {
    if i + 1 < j { WeightsGrow(i, j - 1); }
  }

  /** Thirteen symbols whose counts double, and five rare ones. */
  function Sample(): (counts: seq<nat>)
    ensures |counts| == NUM_SYMBOLS
  {
    seq(NUM_SYMBOLS, s requires 0 <= s < NUM_SYMBOLS =>
      if s < 13 then Weight(s) else if s < 18 then [1, 2, 5, 6, 7][s - 13] else 0)
  }

  /** The merging before the doubling symbols take part in it; for symbols 13 to 17 and the pseudo-symbol, the counts, the
      trees and the sizes are given. */
  function Stage(freq: seq<nat>, tree: seq<nat>, size: seq<nat>): (m: Merging)
    requires |freq| == |tree| == |size| == 6
    ensures Sized(m) && |m.freq| == NUM_SYMBOLS
  {
    Merging(seq(NUM_SYMBOLS, s requires 0 <= s < NUM_SYMBOLS =>
              if s < 13 then Weight(s) else if s < 18 then freq[s - 13]
              else if s == PSEUDO then freq[5] else 0),
            seq(NUM_SYMBOLS, s requires 0 <= s < NUM_SYMBOLS =>
              if 13 <= s < 18 then tree[s - 13] else s),
            seq(NUM_SYMBOLS, s requires 0 <= s < NUM_SYMBOLS =>
              if 13 <= s < 18 then size[s - 13] else if s == PSEUDO then size[5] else 0))
  }

  /** The rare symbols are merged with the pseudo-symbol, but for the two heaviest, which first make a tree. */
  function Rare(j: nat): (m: Merging)
    requires j <= 5
    ensures Sized(m) && |m.freq| == NUM_SYMBOLS
  {
    match j
    case 0 => Stage([1, 2, 5, 6, 7, 1], [13, 14, 15, 16, 17, 256], [0, 0, 0, 0, 0, 0])
    case 1 => Stage([0, 2, 5, 6, 7, 2], [256, 14, 15, 16, 17, 256], [1, 0, 0, 0, 0, 1])
    case 2 => Stage([0, 0, 5, 6, 7, 4], [256, 256, 15, 16, 17, 256], [2, 1, 0, 0, 0, 2])
    case 3 => Stage([0, 0, 0, 6, 7, 9], [256, 256, 256, 16, 17, 256], [3, 2, 1, 0, 0, 3])
    case 4 => Stage([0, 0, 0, 13, 0, 9], [256, 256, 256, 16, 16, 256], [3, 2, 1, 1, 1, 3])
    case _ => Stage([0, 0, 0, 0, 0, 22], [256, 256, 256, 256, 256, 256], [4, 3, 2, 2, 2, 4])
  }

  lemma RareMerge0()
    ensures FinalSizes(Rare(0)) == FinalSizes(Rare(1))
  {
    hide FinalSizes, Weight;
    var m := Rare(0);
    assert IsSmallest(m.freq, -1, NUM_SYMBOLS, PSEUDO);
    assert IsSmallest(m.freq, PSEUDO, NUM_SYMBOLS, 13);
    MergeStep(m, PSEUDO, 13);
    assert Merge(m, PSEUDO, 13) == Rare(1);
  }

  lemma RareMerge1()
    ensures FinalSizes(Rare(1)) == FinalSizes(Rare(2))
  {
    hide FinalSizes, Weight;
    var m := Rare(1);
    assert IsSmallest(m.freq, -1, NUM_SYMBOLS, PSEUDO);
    assert IsSmallest(m.freq, PSEUDO, NUM_SYMBOLS, 14);
    MergeStep(m, PSEUDO, 14);
    assert Merge(m, PSEUDO, 14) == Rare(2);
  }

  lemma RareMerge2()
    ensures FinalSizes(Rare(2)) == FinalSizes(Rare(3))
  {
    hide FinalSizes, Weight;
    var m := Rare(2);
    assert IsSmallest(m.freq, -1, NUM_SYMBOLS, PSEUDO);
    assert IsSmallest(m.freq, PSEUDO, NUM_SYMBOLS, 15);
    MergeStep(m, PSEUDO, 15);
    assert Merge(m, PSEUDO, 15) == Rare(3);
  }

  lemma RareMerge3()
    ensures FinalSizes(Rare(3)) == FinalSizes(Rare(4))
  {
    hide FinalSizes, Weight;
    var m := Rare(3);
    assert IsSmallest(m.freq, -1, NUM_SYMBOLS, 16);
    assert IsSmallest(m.freq, 16, NUM_SYMBOLS, 17);
    MergeStep(m, 16, 17);
    assert Merge(m, 16, 17) == Rare(4);
  }

  lemma RareMerge4()
    ensures FinalSizes(Rare(4)) == FinalSizes(Rare(5))
  {
    hide FinalSizes, Weight;
    var m := Rare(4);
    assert IsSmallest(m.freq, -1, NUM_SYMBOLS, PSEUDO);
    assert IsSmallest(m.freq, PSEUDO, NUM_SYMBOLS, 16);
    MergeStep(m, PSEUDO, 16);
    assert Merge(m, PSEUDO, 16) == Rare(5);
  }

  lemma FirstStage()
    ensures Start(WithPseudo(Sample())) == Rare(0)
  {
    hide Weight;
  }

  /** Then the doubling symbols follow one by one; `k` of them are in the tree of the pseudo-symbol. */
  function FreqAt(k: nat, s: nat): nat { if k <= s < 13 then Weight(s) else if s == PSEUDO then Weight(k) else 0 }

  function TreeAt(k: nat, s: nat): nat { if s < k || 13 <= s < 18 then PSEUDO else s }

  function SizeAt(k: nat, s: nat): nat {
    if s < k then k - s
    else if s == 13 || s == PSEUDO then k + 4 else if s == 14 then k + 3 else if 15 <= s < 18 then k + 2 else 0
  }

  function Doubling(k: nat): (m: Merging)
    requires k <= 13
    ensures Sized(m) && |m.freq| == NUM_SYMBOLS
    ensures forall s :: 0 <= s < NUM_SYMBOLS ==>
              m.freq[s] == FreqAt(k, s) && m.tree[s] == TreeAt(k, s) && m.size[s] == SizeAt(k, s)
  {
    Merging(seq(NUM_SYMBOLS, s requires 0 <= s < NUM_SYMBOLS => FreqAt(k, s)),
            seq(NUM_SYMBOLS, s requires 0 <= s < NUM_SYMBOLS => TreeAt(k, s)),
            seq(NUM_SYMBOLS, s requires 0 <= s < NUM_SYMBOLS => SizeAt(k, s)))
  }

  lemma DoublingSmallest(k: nat)
    requires k < 13
    ensures var freq := Doubling(k).freq;
            IsSmallest(freq, -1, NUM_SYMBOLS, PSEUDO) && IsSmallest(freq, PSEUDO, NUM_SYMBOLS, k)
  {
    hide Doubling;
    forall s | k < s < 13 ensures Weight(k) < Weight(s) { WeightsGrow(k, s); }
    hide Weight;
  }

  lemma DoublingMerged(k: nat)
    requires k < 13
    ensures Merge(Doubling(k), PSEUDO, k) == Doubling(k + 1)
  {
    assert Weight(k + 1) == 2 * Weight(k);
    hide Doubling, Weight;
    var r := Merge(Doubling(k), PSEUDO, k);
    assert r.freq == Doubling(k + 1).freq;
    assert r.tree == Doubling(k + 1).tree;
    assert r.size == Doubling(k + 1).size;
  }

  lemma DoublingStep(k: nat)
    requires k < 13
    ensures FinalSizes(Doubling(k)) == FinalSizes(Doubling(k + 1))
  {
    hide FinalSizes, Doubling, Merge, IsSmallest;
    DoublingSmallest(k);
    DoublingMerged(k);
    MergeStep(Doubling(k), PSEUDO, k);
  }

  lemma {:induction false} DoublingEnds(k: nat)
    requires k <= 13
    ensures FinalSizes(Doubling(k)) == FinalSizes(Doubling(13))
    decreases 13 - k
  {
    hide FinalSizes, Doubling;
    if k < 13 {
      DoublingStep(k);
      DoublingEnds(k + 1);
    }
  }

  lemma OneTreeLeft()
    ensures FinalSizes(Doubling(13)) == SampleSizes()
  {
    hide FinalSizes, Weight, Doubling;
    var m := Doubling(13);
    assert IsSmallest(m.freq, -1, NUM_SYMBOLS, PSEUDO);
    assert IsSmallest(m.freq, PSEUDO, NUM_SYMBOLS, -1);
    MergingEnds(m, PSEUDO);
    assert m.size == SampleSizes();
  }

  lemma RareThenDoubling()
    ensures Rare(5) == Doubling(0)
  {
    assert Weight(0) == 22;
    hide Weight;
  }

  /** The sizes: 13 down to 1 for the doubling symbols, 17, 16 and three times 15 for the rare ones. */
  function SampleSizes(): (size: seq<nat>)
    ensures |size| == NUM_SYMBOLS
  {
    seq(NUM_SYMBOLS, s requires 0 <= s < NUM_SYMBOLS =>
      if s < 13 then 13 - s else if s == 13 || s == PSEUDO then 17 else if s == 14 then 16 else if s < 18 then 15 else 0)
  }

  lemma SizesOfSample()
    ensures SizesOf(WithPseudo(Sample())) == SampleSizes()
  {
    hide *;
    FirstStage();
    RareMerge0();
    RareMerge1();
    RareMerge2();
    RareMerge3();
    RareMerge4();
    RareThenDoubling();
    DoublingEnds(0);
    OneTreeLeft();
    assert SizesOf(WithPseudo(Sample())) == FinalSizes(Start(WithPseudo(Sample()))) by { SizesStart(); }
  }

  lemma SizesStart()
    ensures SizesOf(WithPseudo(Sample())) == FinalSizes(Start(WithPseudo(Sample())))
  {
  }

  // ---------------------------------------------------------------- the numbers of codes

  /** How many of the first `n` symbols have size `l`. */
  lemma {:induction false} SampleCounts(l: nat, n: nat)
    requires 1 <= l && n <= NUM_SYMBOLS
    ensures Between(SampleSizes(), l, l + 1, n)
            == (if l <= 13 && 13 - l < n then 1 else 0)
               + (if l == 17 && n > 13 then 1 else 0) + (if l == 17 && n > PSEUDO then 1 else 0)
               + (if l == 16 && n > 14 then 1 else 0)
               + (if l == 15 && n > 15 then (if n < 18 then n - 15 else 3) else 0)
  {
    if n > 0 { SampleCounts(l, n - 1); }
  }

  /** The numbers of codes up to length 17, and after the pair of length 17 has been removed. */
  function Numbers(limited: bool): (bits: seq<nat>)
    ensures |bits| == MAX_CLEN + 1
  {
    seq(MAX_CLEN + 1, l requires 0 <= l <= MAX_CLEN =>
      if 1 <= l <= 13 then 1
      else if l == 15 then (if limited then 2 else 3)
      else if l == 16 then (if limited then 4 else 1)
      else if l == 17 && !limited then 2 else 0)
  }

  lemma NumbersOfSample()
    ensures LengthCounts(SampleSizes()) == Numbers(false)
  {
    hide SampleSizes, Between;
    forall l | 1 <= l <= MAX_CLEN ensures LengthCounts(SampleSizes())[l] == Numbers(false)[l] {
      SampleCounts(l, NUM_SYMBOLS);
    }
  }

  lemma {:induction false} NoneAbove17(bits: seq<nat>, i: nat)
    requires 17 <= i < |bits| && forall k :: 17 < k < |bits| ==> bits[k] == 0
    ensures Limited(bits, i) == Limited(bits, 17)
    decreases i
  {
    if i > 17 {
      ShortenedEnds(bits, i);
      NoneAbove17(bits, i - 1);
    }
  }

  lemma LimitedSample()
    ensures Limited(Numbers(false), MAX_CLEN) == Numbers(true)
  {
    var bits := Numbers(false);
    NoneAbove17(bits, MAX_CLEN);
    ShortenedStep(bits, 17, 15);
    assert Adjusted(bits, 17, 15) == Numbers(true);
    ShortenedEnds(Numbers(true), 17);
    assert Limited(bits, 17) == Limited(Numbers(true), 16);
  }

  // ---------------------------------------------------------------- the codes

  lemma SampleBits() returns (bits: seq<nat>)
    ensures bits == TableBits(SampleSizes()) && |bits| == 17
    ensures forall l :: 1 <= l <= 16 ==> bits[l] == if l <= 13 then 1 else if l == 14 then 0 else if l == 15 then 2 else 3
  {
    hide Limited, Between, SampleSizes, LengthCounts;
    NumbersOfSample();
    LimitedSample();
    LongestIs(Numbers(true), 16, 16);
    bits := TableBits(SampleSizes());
  }

  /** Fifteen codes are no longer than fifteen bits, and eighteen than sixteen. */
  lemma SampleLengths(bits: seq<nat>)
    requires |bits| == 17
    requires forall l :: 1 <= l <= 16 ==> bits[l] == if l <= 13 then 1 else if l == 14 then 0 else if l == 15 then 2 else 3
    ensures Count(bits, 14) == 13 && Count(bits, 15) == 15 && Count(bits, 16) == 18
  {
    FirstThirteen(bits, 13);
    assert Count(bits, 14) == Count(bits, 13) + bits[14];
    assert Count(bits, 15) == Count(bits, 14) + bits[15];
    assert Count(bits, 16) == Count(bits, 15) + bits[16];
  }

  lemma {:induction false} FirstThirteen(bits: seq<nat>, l: nat)
    requires |bits| == 17 && l <= 13 && forall k :: 1 <= k <= 13 ==> bits[k] == 1
    ensures Count(bits, l) == l
  {
    if l > 0 { FirstThirteen(bits, l - 1); }
  }

  lemma {:induction false} ShorterInSample(l: nat)
    requires 1 <= l <= 15
    ensures Between(SampleSizes(), 1, l, PSEUDO) == if l <= 13 then l - 1 else 13
    decreases l
  {
    hide SampleSizes;
    if l == 1 {
      NoneBetween(SampleSizes(), PSEUDO);
    } else {
      ShorterInSample(l - 1);
      BetweenSplits(SampleSizes(), 1, l - 1, l, PSEUDO);
      SampleCounts(l - 1, PSEUDO);
    }
  }

  /** Symbols 15 and 17 both have size 15; they stand at places 13 and 15. */
  lemma SampleRanks()
    ensures Rank(SampleSizes(), 15) == 13 && Rank(SampleSizes(), 17) == 15
  {
    assert SampleSizes()[15] == SampleSizes()[17] == 15;
    hide SampleSizes, Between;
    ShorterInSample(15);
    SampleCounts(15, 15);
    SampleCounts(15, 17);
  }

  lemma IsSymbol(s: nat)
    requires s < NUM_SYMBOLS
    ensures s in AllSymbols()
  {
    assert seq(NUM_SYMBOLS, i => i)[s] == s;
  }

  /** The counts of the first `n` symbols together. */
  function SumUpTo(n: nat): nat {
    if n <= 13 then Weight(n) - 22
    else Weight(13) - 22 + if n == 14 then 1 else if n == 15 then 3 else if n == 16 then 8 else if n == 17 then 14 else 21
  }

  lemma SumStep(n: nat)
    requires 1 <= n <= PSEUDO
    ensures SumUpTo(n) == SumUpTo(n - 1) + WithPseudo(Sample())[n - 1]
  {
    if n <= 13 { assert Weight(n) == 2 * Weight(n - 1); }
    hide Weight;
  }

  lemma {:induction false} SampleSum(n: nat)
    requires n <= PSEUDO
    ensures SumOver(WithPseudo(Sample()), AllSymbols(), n) == SumUpTo(n)
  {
    if n == 0 {
      assert Weight(0) == 22;
    } else {
      hide AllSymbols, SumUpTo, Sample;
      SampleSum(n - 1);
      SumStep(n);
      IsSymbol(n - 1);
    }
  }

  lemma {:induction false} SampleUsed(n: nat)
    requires n <= PSEUDO
    ensures NonZero(Sample(), n) == if n <= 18 then n else 18
  {
    if n > 0 { SampleUsed(n - 1); }
  }

  /** The optimal table for these counts is made without an error. */
  lemma SampleIsCountable()
    ensures Countable(Sample()) && Total(WithPseudo(Sample())) < SAFE_TOTAL
  {
    hide NonZero, AllSymbols;
    SampleUsed(PSEUDO);
    SampleSum(PSEUDO);
    IsSymbol(PSEUDO);
    assert Weight(13) == 180224;
  }

  /** Symbol 17 occurs seven times and gets a code of sixteen bits, symbol 15 occurs five times and gets fifteen. */
  lemma HeavierGetsLongerCode(t: HuffTable, co: seq<nat>, si: seq<nat>)
    requires Generated(Sample(), t) && EncoderTable(t, co, si)
    ensures Sample()[17] == 7 && si[17] == 16
    ensures Sample()[15] == 5 && si[15] == 15
  {
    hide TableBits, SampleSizes, Rank, Count, Length, SizesAreRight, IsOptimal, Listing;
    SizesOfSample();
    var bits := SampleBits();
    SampleLengths(bits);
    SampleRanks();
    SymbolLength(Sample(), t, co, si, 15);
    SymbolLength(Sample(), t, co, si, 17);
    LengthIs(bits, 13, 15);
    LengthIs(bits, 15, 16);
  }
}
