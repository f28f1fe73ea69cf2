/** The optimal table as a whole (jpeg_gen_optimal_table in jchuff.c): from counts of symbols to a legal table that has
    a code for exactly the symbols that were counted. */
module GenOptimalTable {
  import opened Arithmetic
  import opened HuffmanCode
  import opened HuffmanTables
  import opened HuffmanItems
  import opened KraftSums
  import opened HuffmanOptimality
  import opened MergeOrder
  import opened OptimalTable
  import opened LengthLimit

  // ---------------------------------------------------------------- counting code lengths

  /** The part of the code space that codes of length up to `l` take. */
  function Taken(bits: seq<nat>, l: nat): real
    requires l < |bits|
  {
    if l == 0 then 0.0 else Taken(bits, l - 1) + bits[l] as real * Share(l)
  }

  lemma {:induction false} TakenOneMore(bits: seq<nat>, k: nat, l: nat)
    requires l < |bits| && 1 <= k < |bits|
    ensures Taken(bits[k := bits[k] + 1], l) == Taken(bits, l) + if k <= l then Share(k) else 0.0
    decreases l
  {
    if l > 0 { TakenOneMore(bits, k, l - 1); }
  }

  /** Taking the whole code space, in integers. */
  lemma {:induction false} TakenIsFilled(bits: seq<nat>, l: nat)
    requires l < |bits|
    ensures Taken(bits, l) == Filled(bits, l) as real * Share(l)
    decreases l
  {
    if l > 0 {
      TakenIsFilled(bits, l - 1);
      var f, w := Filled(bits, l - 1) as real, Share(l);
      assert Share(l - 1) == 2.0 * w;
      assert f * (2.0 * w) == (2.0 * f) * w;
      assert (2.0 * f) * w + bits[l] as real * w == (2.0 * f + bits[l] as real) * w;
    }
  }

  lemma {:induction false} ShareOfPower(l: nat)
    ensures Pow2(l) as real * Share(l) == 1.0
  {
    if l > 0 { ShareOfPower(l - 1); }
  }

  lemma AllTaken(bits: seq<nat>, l: nat)
    requires l < |bits| && Taken(bits, l) == 1.0
    ensures Filled(bits, l) == Pow2(l)
  {
    TakenIsFilled(bits, l);
    ShareOfPower(l);
    var f, p, w := Filled(bits, l) as real, Pow2(l) as real, Share(l);
    assert (f - p) * w == f * w - p * w;
    PositiveProduct(f - p, w);
    PositiveProduct(p - f, w);
    assert (p - f) * w == p * w - f * w;
  }

  lemma PositiveProduct(d: real, w: real)
    requires w > 0.0
    ensures d > 0.0 ==> d * w > 0.0
  {
  }

  /** How many of the first `n` symbols have a code of a length from `lo` up to, but without, `hi`. */
  function Between(size: seq<nat>, lo: nat, hi: nat, n: nat): nat
    requires n <= |size|
  {
    if n == 0 then 0 else Between(size, lo, hi, n - 1) + if lo <= size[n - 1] < hi then 1 else 0
  }

  /** How many codes there are of each length. */
  function LengthCounts(size: seq<nat>): (bits: seq<nat>)
    ensures |bits| == MAX_CLEN + 1
  {
    seq(MAX_CLEN + 1, l requires 0 <= l <= MAX_CLEN => if l == 0 then 0 else Between(size, l, l + 1, |size|))
  }

  /** One code more, however long. */
  function OneMore(bits: seq<nat>, k: nat): (r: seq<nat>)
    requires k < |bits|
    ensures |r| == |bits|
  {
    bits[k := bits[k] + 1]
  }

  /** Count the symbols of each code length; false if some code is longer than the algorithm provides for. */
  method CountLengths(codesize: array<nat>, ghost count: seq<nat>) returns (ok: bool, bits: array<nat>)
    requires codesize.Length == NUM_SYMBOLS && SizesAreRight(count, codesize[..])
    ensures fresh(bits)
    ensures ok <==> forall s :: 0 <= s < NUM_SYMBOLS ==> codesize[s] <= MAX_CLEN
    ensures ok ==> Full(bits[..], MAX_CLEN, NonZero(count, NUM_SYMBOLS)) && bits[..] == LengthCounts(codesize[..])
  {
    hide KraftOver, Taken, NonZero, Share, Used, Filled, Codes, Between, LengthCounts, SizesAreRight;
    RightSizesMean(count, codesize[..]);
    bits := new nat[MAX_CLEN + 1](_ => 0);
    NothingCounted(count, codesize[..], bits[..]);
    for i := 0 to NUM_SYMBOLS
      invariant Counted(count, codesize[..], bits[..], i)
      invariant forall s :: 0 <= s < i ==> codesize[s] <= MAX_CLEN
      modifies bits
    {
      if codesize[i] != 0 {
        if codesize[i] > MAX_CLEN { return false, bits; }
        CountedNext(count, codesize[..], bits[..], i);
        ghost var before := bits[..];
        bits[codesize[i]] := bits[codesize[i]] + 1;
        assert bits[..] == OneMore(before, codesize[i]);
      } else {
        CountedNext(count, codesize[..], bits[..], i);
      }
    }
    AllCounted(count, codesize[..], bits[..]);
    ok := true;
  }

  ghost predicate Counted(count: seq<nat>, size: seq<nat>, bits: seq<nat>, n: nat) {
    && |count| == |size| == NUM_SYMBOLS && |bits| == MAX_CLEN + 1 && n <= NUM_SYMBOLS
    && Taken(bits, MAX_CLEN) == KraftOver(size, Used(count), n) && Codes(bits, MAX_CLEN) == NonZero(count, n)
    && forall l :: 0 <= l <= MAX_CLEN ==> bits[l] == if l == 0 then 0 else Between(size, l, l + 1, n)
  }

  lemma RightSizesMean(count: seq<nat>, size: seq<nat>)
    requires SizesAreRight(count, size)
    ensures |count| == |size| == NUM_SYMBOLS && forall s :: 0 <= s < NUM_SYMBOLS ==> (size[s] > 0 <==> count[s] > 0)
  {
  }

  lemma NothingCounted(count: seq<nat>, size: seq<nat>, bits: seq<nat>)
    requires |count| == |size| == NUM_SYMBOLS && |bits| == MAX_CLEN + 1 && forall k :: 0 <= k <= MAX_CLEN ==> bits[k] == 0
    ensures Counted(count, size, bits, 0)
  {
    NothingTaken(bits, MAX_CLEN);
    NothingShort(bits, MAX_CLEN);
    hide Taken, Codes;
    assert NonZero(count, 0) == 0;
  }

  lemma {:induction false} NothingTaken(bits: seq<nat>, l: nat)
    requires l < |bits| && forall k :: 0 <= k <= l ==> bits[k] == 0
    ensures Taken(bits, l) == 0.0
  {
    if l > 0 { NothingTaken(bits, l - 1); }
  }

  lemma CountedNext(count: seq<nat>, size: seq<nat>, bits: seq<nat>, i: nat)
    requires Counted(count, size, bits, i) && i < NUM_SYMBOLS && size[i] <= MAX_CLEN && (size[i] > 0 <==> count[i] > 0)
    ensures size[i] > 0 ==> Counted(count, size, OneMore(bits, size[i]), i + 1)
    ensures size[i] == 0 ==> Counted(count, size, bits, i + 1)
  {
    if size[i] > 0 {
      TakenOneMore(bits, size[i], MAX_CLEN);
      OneMoreFills(bits, size[i], MAX_CLEN);
    }
    hide Taken, Codes, Share;
    assert KraftOver(size, Used(count), i + 1)
        == KraftOver(size, Used(count), i) + if i in Used(count) then Share(size[i]) else 0.0;
    assert NonZero(count, i + 1) == NonZero(count, i) + if count[i] > 0 then 1 else 0;
    assert i in Used(count) <==> count[i] > 0;
  }

  lemma AllCounted(count: seq<nat>, size: seq<nat>, bits: seq<nat>)
    requires Counted(count, size, bits, NUM_SYMBOLS) && SizesAreRight(count, size)
    ensures Full(bits, MAX_CLEN, NonZero(count, NUM_SYMBOLS)) && bits == LengthCounts(size)
  {
    hide Taken, Codes, KraftOver, NonZero, Filled, Between;
    AllTaken(bits, MAX_CLEN);
  }

  // ---------------------------------------------------------------- the list of symbols

  lemma {:induction false} BetweenSplits(size: seq<nat>, lo: nat, mid: nat, hi: nat, n: nat)
    requires n <= |size| && lo <= mid <= hi
    ensures Between(size, lo, hi, n) == Between(size, lo, mid, n) + Between(size, mid, hi, n)
  {
    if n > 0 { BetweenSplits(size, lo, mid, hi, n - 1); }
  }

  lemma {:induction false} BetweenIsSmall(size: seq<nat>, lo: nat, hi: nat, n: nat)
    requires n <= |size|
    ensures Between(size, lo, hi, n) <= n
  {
    if n > 0 { BetweenIsSmall(size, lo, hi, n - 1); }
  }

  lemma {:induction false} BetweenGrows(size: seq<nat>, lo: nat, hi: nat, m: nat, n: nat)
    requires m <= n <= |size|
    ensures Between(size, lo, hi, m) <= Between(size, lo, hi, n)
    decreases n
  {
    if m < n { BetweenGrows(size, lo, hi, m, n - 1); }
  }

  /** The symbols listed so far: those with codes shorter than `i`, and those below `j` with codes of length `i`. */
  predicate ListedTo(size: seq<nat>, i: nat, j: nat, s: nat)
    requires s < |size|
  {
    1 <= size[s] < i || (size[s] == i && s < j)
  }

  /** The place of a symbol in a list sorted by size, and by value within a size. */
  function Rank(size: seq<nat>, s: nat): nat
    requires s < PSEUDO <= |size|
  {
    Between(size, 1, size[s], PSEUDO) + Between(size, size[s], size[s] + 1, s)
  }

  ghost predicate Listing(size: seq<nat>, i: nat, j: nat, list: seq<nat>) {
    && |size| == NUM_SYMBOLS && j <= PSEUDO && i >= 1
    && |list| == Between(size, 1, i, PSEUDO) + Between(size, i, i + 1, j)
    && (forall p :: 0 <= p < |list| ==> list[p] < PSEUDO && ListedTo(size, i, j, list[p]))
    && (forall s :: 0 <= s < PSEUDO && ListedTo(size, i, j, s) ==> s in list)
    && (forall p :: 0 <= p < |list| ==> p == Rank(size, list[p]))
  }

  lemma ListingNext(size: seq<nat>, i: nat, j: nat, list: seq<nat>)
    requires Listing(size, i, j, list) && j < PSEUDO
    ensures size[j] == i ==> Listing(size, i, j + 1, list + [j])
    ensures size[j] != i ==> Listing(size, i, j + 1, list)
    ensures size[j] == i ==> |list| < PSEUDO
  {
    assert Between(size, i, i + 1, j + 1) == Between(size, i, i + 1, j) + if size[j] == i then 1 else 0;
    RoomForMore(size, i, j);
    hide Between;
  }

  lemma RoomForMore(size: seq<nat>, i: nat, j: nat)
    requires |size| == NUM_SYMBOLS && j < PSEUDO && i >= 1
    ensures Between(size, 1, i, PSEUDO) + Between(size, i, i + 1, j) < PSEUDO || size[j] != i
    ensures Between(size, 1, i, PSEUDO) + Between(size, i, i + 1, j) <= PSEUDO
  {
    BetweenSplits(size, 1, i, i + 1, PSEUDO);
    BetweenIsSmall(size, 1, i + 1, PSEUDO);
    BetweenGrows(size, i, i + 1, j + 1, PSEUDO);
  }

  lemma ListingLonger(size: seq<nat>, i: nat, list: seq<nat>)
    requires Listing(size, i, PSEUDO, list)
    ensures Listing(size, i + 1, 0, list)
  {
    BetweenSplits(size, 1, i, i + 1, PSEUDO);
    assert Between(size, i + 1, i + 2, 0) == 0;
    hide Between;
  }

  /** A list of the symbols sorted by code length. */
  method ListSymbols(codesize: array<nat>) returns (huffval: array<nat>, p: nat)
    requires codesize.Length == NUM_SYMBOLS && forall s :: 0 <= s < NUM_SYMBOLS ==> codesize[s] <= MAX_CLEN
    ensures fresh(huffval) && huffval.Length == 256 && p <= 256 && forall q :: 0 <= q < 256 ==> huffval[q] < PSEUDO
    ensures Listing(codesize[..], MAX_CLEN + 1, 0, huffval[..p])
  {
    hide Listing, Between;
    huffval := new nat[256](_ => 0);
    p := 0;
    EmptyListing(codesize[..]);
    assert huffval[..0] == [];
    for i := 1 to MAX_CLEN + 1
      invariant p <= 256 && Listing(codesize[..], i, 0, huffval[..p])
      invariant forall q :: 0 <= q < 256 ==> huffval[q] < PSEUDO
      modifies huffval
    {
      for j := 0 to PSEUDO
        invariant p <= 256 && Listing(codesize[..], i, j, huffval[..p])
        invariant forall q :: 0 <= q < 256 ==> huffval[q] < PSEUDO
        modifies huffval
      {
        ListingNext(codesize[..], i, j, huffval[..p]);
        if codesize[j] == i {
          ghost var list := huffval[..p];
          huffval[p] := j;
          p := p + 1;
          assert huffval[..p] == list + [j];
        }
      }
      ListingLonger(codesize[..], i, huffval[..p]);
    }
  }

  lemma EmptyListing(size: seq<nat>)
    requires |size| == NUM_SYMBOLS
    ensures Listing(size, 1, 0, [])
  {
    NoneBetween(size, PSEUDO);
  }

  lemma {:induction false} NoneBetween(size: seq<nat>, n: nat)
    requires n <= |size|
    ensures Between(size, 1, 1, n) == 0
  {
    if n > 0 { NoneBetween(size, n - 1); }
  }

  // ---------------------------------------------------------------- the whole table

  /** The counts with the pseudo-symbol's. */
  function WithPseudo(counts: seq<nat>): (c: seq<nat>)
    requires |counts| == NUM_SYMBOLS
    ensures |c| == NUM_SYMBOLS
  {
    counts[PSEUDO := 1]
  }

  /** At least one symbol has been counted, not so many different ones that a byte could not count them, and not more
      occurrences than the search provides for. */
  predicate Countable(counts: seq<nat>) {
    && |counts| == NUM_SYMBOLS
    && 1 <= NonZero(counts, PSEUDO) <= 254
    && Total(WithPseudo(counts)) <= MAX_TOTAL
  }

  /** A table that the encoder and the decoder take, with a code for exactly the symbols that were counted. */
  ghost predicate TableFor(counts: seq<nat>, t: HuffTable)
    requires |counts| == NUM_SYMBOLS
  {
    && IsTable(t) && EncoderAccepts(t, false)
    && forall sym :: 0 <= sym < PSEUDO ==> (HasSymbol(t, sym, NumSymbols(t)) <==> counts[sym] > 0)
  }

  /** The numbers of codes in the table: those of the sizes, limited to sixteen bits, but for the last of the longest. */
  function TableBits(size: seq<nat>): (bits: seq<nat>)
    ensures |bits| == 17
  {
    var full := Limited(LengthCounts(size), MAX_CLEN);
    var m := LongestUpTo(full, 16);
    if full[m] == 0 then full[..17] else full[m := full[m] - 1][..17]
  }

  /** The table that the counts determine: the sizes of Huffman's algorithm give the numbers of codes and the order of
      the symbols. */
  ghost predicate Generated(counts: seq<nat>, t: HuffTable)
    requires |counts| == NUM_SYMBOLS
  {
    var size := SizesOf(WithPseudo(counts));
    && SizesAreRight(WithPseudo(counts), size) && IsOptimal(WithPseudo(counts), size)
    && (forall s :: 0 <= s < NUM_SYMBOLS ==> size[s] <= MAX_CLEN)
    && IsTable(t) && t.bits == TableBits(size) && NumSymbols(t) <= 256
    && Listing(size, MAX_CLEN + 1, 0, t.huffval[..NumSymbols(t)])
  }

  lemma {:induction false} TwoAreUsed(counts: seq<nat>, n: nat)
    requires n <= PSEUDO < |counts| && NonZero(counts, n) >= 1
    ensures exists s :: 0 <= s < n && counts[s] > 0
  {
    if counts[n - 1] == 0 { TwoAreUsed(counts, n - 1); }
  }

  lemma {:induction false} NonZeroIsBetween(count: seq<nat>, size: seq<nat>, n: nat)
    requires n <= |size| == |count| && forall s :: 0 <= s < |size| ==> size[s] <= MAX_CLEN && (size[s] > 0 <==> count[s] > 0)
    ensures Between(size, 1, MAX_CLEN + 1, n) == NonZero(count, n)
  {
    if n > 0 { NonZeroIsBetween(count, size, n - 1); }
  }

  lemma {:induction false} SameNonZero(a: seq<nat>, b: seq<nat>, n: nat)
    requires n <= |a| == |b| && forall s :: 0 <= s < n ==> a[s] == b[s]
    ensures NonZero(a, n) == NonZero(b, n)
  {
    if n > 0 { SameNonZero(a, b, n - 1); }
  }

  /** The pseudo-symbol is one more. */
  lemma PseudoCounts(counts: seq<nat>)
    requires Countable(counts)
    ensures NonZero(WithPseudo(counts), NUM_SYMBOLS) == NonZero(counts, PSEUDO) + 1
    ensures exists s, t :: 0 <= s < t < NUM_SYMBOLS && WithPseudo(counts)[s] > 0 && WithPseudo(counts)[t] > 0
  {
    hide Total;
    var c := WithPseudo(counts);
    SameNonZero(counts, c, PSEUDO);
    assert NonZero(c, NUM_SYMBOLS) == NonZero(c, PSEUDO) + 1;
    hide NonZero;
    TwoAreUsed(counts, PSEUDO);
    var s :| 0 <= s < PSEUDO && counts[s] > 0;
    assert c[s] > 0 && c[PSEUDO] > 0;
  }

  /** No counter of code lengths exceeds a byte. */
  lemma {:induction false} CodesBoundEach(bits: seq<nat>, k: nat, l: nat)
    requires 1 <= k <= l < |bits|
    ensures bits[k] <= Codes(bits, l)
    decreases l
  {
    if k < l { CodesBoundEach(bits, k, l - 1); }
  }

  /** The 35th Fibonacci number: for smaller totals the check of code lengths cannot fail. */
  const SAFE_TOTAL := 9_227_465

  /** The table for the given counts. It fails only if some code came out longer than 32 bits, and that takes a total
      count of at least the 35th Fibonacci number. */
  method GenerateOptimalTable(freq: array<nat>) returns (ok: bool, t: HuffTable)
    requires freq.Length == NUM_SYMBOLS && Countable(freq[..])
    modifies freq
    ensures ok <==> forall s :: 0 <= s < 257 ==> SizesOf(WithPseudo(old(freq[..])))[s] <= 32
    ensures Total(WithPseudo(old(freq[..]))) < SAFE_TOTAL ==> ok
    ensures ok ==> TableFor(old(freq[..]), t) && Generated(old(freq[..]), t)
  {
    hide Total, NonZero, SizesAreRight, Full, Fib, TableFor, Listing, Generated, Limited, LongestUpTo, LengthCounts,
         IsOptimal, SizesOf;
    ghost var counts, n := freq[..], NonZero(freq[..], PSEUDO) + 1;
    PseudoCounts(counts);
    CountableMeans(counts);
    freq[PSEUDO] := 1;
    ghost var count := WithPseudo(counts);
    assert freq[..] == count;
    var codesize := AssignSizes(freq);
    t := HuffTable(seq(17, _ => 0), seq(256, _ => 0));
    var bits;
    ok, bits := CountLengths(codesize, count);
    if !ok {
      LongCodesNeedLargeCounts(count, codesize[..]);
      Fib35();
      return;
    }
    LimitLengths(bits, n);
    FullSize(bits[..], 16, n);
    ghost var full := bits[..];
    SomeCode(full, n);
    var i := 16;
    ghost var m :| 1 <= m <= 16 && full[m] > 0;
    while bits[i] == 0
      invariant m <= i <= 16 && forall k :: i < k <= 16 ==> bits[k] == 0
      decreases i
    {
      i := i - 1;
    }
    bits[i] := bits[i] - 1;
    assert bits[..] == full[i := full[i] - 1];
    var huffval, p := ListSymbols(codesize);
    t := HuffTable(bits[..17], huffval[..]);
    LongestIs(full, 16, i);
    assert t.bits == TableBits(codesize[..]);
    TableIsRight(counts, codesize[..], full, i, n, t, p);
  }

  lemma CountableMeans(counts: seq<nat>)
    requires Countable(counts)
    ensures NonZero(counts, PSEUDO) <= 254 && Total(WithPseudo(counts)) <= MAX_TOTAL
  {
  }

  lemma LongCodesNeedLargeCounts(count: seq<nat>, size: seq<nat>)
    requires SizesAreRight(count, size) && exists s :: 0 <= s < NUM_SYMBOLS && size[s] > MAX_CLEN
    ensures Total(count) >= Fib(35)
  {
    hide Total, KraftOver, Fib;
    var s :| 0 <= s < NUM_SYMBOLS && size[s] > MAX_CLEN;
    FibMonotone(35, size[s] + 2);
  }

  lemma SomeCode(bits: seq<nat>, n: nat)
    requires Full(bits, 16, n)
    ensures exists m :: 1 <= m <= 16 && bits[m] > 0
  {
    if forall m :: 1 <= m <= 16 ==> bits[m] == 0 { NothingShort(bits, 16); }
  }

  lemma TableIsRight(counts: seq<nat>, size: seq<nat>, full: seq<nat>, m: nat, n: nat, t: HuffTable, p: nat)
    requires |counts| == NUM_SYMBOLS && SizesAreRight(WithPseudo(counts), size)
    requires forall s :: 0 <= s < NUM_SYMBOLS ==> size[s] <= MAX_CLEN
    requires Full(full, 16, n) && 2 <= n <= 255 && n == NonZero(WithPseudo(counts), NUM_SYMBOLS)
    requires 1 <= m <= 16 && full[m] > 0 && forall k :: m < k <= 16 ==> full[k] == 0
    requires t.bits == full[m := full[m] - 1][..17] && |t.huffval| == 256 && p <= 256
    requires (forall q :: 0 <= q < 256 ==> t.huffval[q] < PSEUDO) && Listing(size, MAX_CLEN + 1, 0, t.huffval[..p])
    requires size == SizesOf(WithPseudo(counts)) && IsOptimal(WithPseudo(counts), size) && t.bits == TableBits(size)
    ensures TableFor(counts, t) && Generated(counts, t)
  {
    hide Total, KraftOver, Fib, Filled, Between, Past, Count, SizesOf, TableBits, IsOptimal;
    var count := WithPseudo(counts);
    LastCodeGone(full, m, n);
    ListedAll(counts, size, t.huffval[..p], n);
    var r := full[m := full[m] - 1];
    forall l | 1 <= l <= 16 ensures t.bits[l] <= 255 {
      CodesBoundEach(full, l, 16);
    }
    assert NumSymbols(t) == p == n - 1;
    forall sym | 0 <= sym < PSEUDO ensures HasSymbol(t, sym, p) <==> counts[sym] > 0 {
      HasMeansListed(t, sym, p);
    }
    forall q, q' | 0 <= q < q' < p ensures t.huffval[q] != t.huffval[q'] {
      assert t.huffval[..p][q] != t.huffval[..p][q'];
    }
  }

  lemma HasMeansListed(t: HuffTable, sym: nat, p: nat)
    requires IsTable(t) && p <= 256
    ensures HasSymbol(t, sym, p) <==> sym in t.huffval[..p]
  {
    if HasSymbol(t, sym, p) {
      var q :| 0 <= q < p && t.huffval[q] == sym;
      assert t.huffval[..p][q] == sym;
    }
  }

  lemma ListedAll(counts: seq<nat>, size: seq<nat>, list: seq<nat>, n: nat)
    requires |counts| == NUM_SYMBOLS && SizesAreRight(WithPseudo(counts), size)
    requires forall s :: 0 <= s < NUM_SYMBOLS ==> size[s] <= MAX_CLEN
    requires n == NonZero(WithPseudo(counts), NUM_SYMBOLS) && Listing(size, MAX_CLEN + 1, 0, list)
    ensures |list| == n - 1
    ensures forall s :: 0 <= s < PSEUDO ==> (s in list <==> counts[s] > 0)
  {
    var count := WithPseudo(counts);
    NonZeroIsBetween(count, size, PSEUDO);
    assert NonZero(count, NUM_SYMBOLS) == NonZero(count, PSEUDO) + 1;
    assert Between(size, MAX_CLEN + 1, MAX_CLEN + 2, 0) == 0;
    hide NonZero, Between, KraftOver, Total, Fib;
    forall s | 0 <= s < PSEUDO ensures s in list <==> counts[s] > 0 {
      assert counts[s] == count[s];
      if s in list {
        var p :| 0 <= p < |list| && list[p] == s;
        assert ListedTo(size, MAX_CLEN + 1, 0, list[p]);
      }
    }
  }

  lemma Fib35()
    ensures Fib(35) == SAFE_TOTAL
  {
    assert Fib(10) == 55 && Fib(11) == 89;
    assert Fib(20) == 6765 && Fib(21) == 10946;
    assert Fib(30) == 832040 && Fib(31) == 1346269;
  }
}
