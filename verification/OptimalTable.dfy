/** Optimal Huffman tables (jpeg_gen_optimal_table in jchuff.c, section K.2 of ITU-T T.81): the trees are merged in
    place through a table of links, code lengths are limited to sixteen, and a pseudo-symbol keeps the code word of all
    ones unused. */
module OptimalTable {
  import opened Arithmetic
  import opened HuffmanCode
  import opened HuffmanTables
  import opened KraftSums
  import opened HuffmanOptimality
  import opened MergeOrder

  const MAX_CLEN := 32

  /** One symbol per byte value, and the pseudo-symbol. */
  const NUM_SYMBOLS := 257
  const PSEUDO := 256

  /** No count and no sum of counts may exceed the bound of the search for the smallest. */
  const MAX_TOTAL := 1_000_000_000

  function Fib(n: nat): nat { if n < 2 then n else Fib(n - 1) + Fib(n - 2) }

  // ---------------------------------------------------------------- the forest

  function Members(chain: seq<nat>): set<nat> { set i | i in chain }

  function AllSymbols(): set<nat> { Members(seq(NUM_SYMBOLS, i => i)) }

  function Total(count: seq<nat>): nat
    requires |count| == NUM_SYMBOLS
  {
    SumOver(count, AllSymbols(), NUM_SYMBOLS)
  }

  function Next(chain: seq<nat>, i: nat): int { if i + 1 < |chain| then chain[i + 1] else -1 }

  /** The links follow the chain of a tree from its first symbol to its last. */
  predicate Linked(others: seq<int>, chain: seq<nat>) {
    |others| == NUM_SYMBOLS
    && forall i :: 0 <= i < |chain| ==> chain[i] < NUM_SYMBOLS && others[chain[i]] == Next(chain, i)
  }

  /** The trees that have not been merged, by the symbol that stands for them: the chain of its symbols, and a bound for
      their code lengths so far. */
  datatype Forest = Forest(chains: seq<seq<nat>>, heights: seq<nat>)

  predicate Shape(f: Forest) {
    && |f.chains| == |f.heights| == NUM_SYMBOLS
    && (forall c :: 0 <= c < NUM_SYMBOLS && f.chains[c] != [] ==> f.chains[c][0] == c)
    && (forall c, i :: 0 <= c < NUM_SYMBOLS && 0 <= i < |f.chains[c]| ==> f.chains[c][i] < NUM_SYMBOLS)
    && (forall c, i, j :: 0 <= c < NUM_SYMBOLS && 0 <= i < j < |f.chains[c]| ==> f.chains[c][i] != f.chains[c][j])
    && (forall c, d :: 0 <= c < NUM_SYMBOLS && 0 <= d < NUM_SYMBOLS && c != d ==>
          Members(f.chains[c]) !! Members(f.chains[d]))
  }

  /** Every symbol with a count is in a tree, and no other symbol is. */
  predicate Covers(f: Forest, count: seq<nat>)
    requires Shape(f) && |count| == NUM_SYMBOLS
  {
    && (forall c, i :: 0 <= c < NUM_SYMBOLS && 0 <= i < |f.chains[c]| ==> count[f.chains[c][i]] > 0)
    && (forall s :: 0 <= s < NUM_SYMBOLS && count[s] > 0 ==> InSomeTree(f, s))
  }

  predicate InSomeTree(f: Forest, s: nat)
    requires |f.chains| == NUM_SYMBOLS
  {
    exists c :: 0 <= c < NUM_SYMBOLS && s in f.chains[c]
  }

  /** Every tree has the sum of its symbols' counts, fills the code space exactly, and is as high as its bound says. */
  predicate TreeIsRight(chain: seq<nat>, height: nat, freq: nat, count: seq<nat>, size: seq<nat>)
    requires |count| == |size| == NUM_SYMBOLS
  {
    && (freq == 0 <==> chain == [])
    && freq == SumOver(count, Members(chain), NUM_SYMBOLS)
    && (chain != [] ==> KraftOver(size, Members(chain), NUM_SYMBOLS) == 1.0)
    && (forall i :: 0 <= i < |chain| && chain[i] < NUM_SYMBOLS ==> size[chain[i]] <= height)
    && (|chain| > 1 ==> forall i :: 0 <= i < |chain| && chain[i] < NUM_SYMBOLS ==> size[chain[i]] > 0)
  }

  /** `least` is the larger count of the latest merge: no tree is lighter, and no tree is so high that a lighter one
      would have been merged before. */
  predicate Growth(f: Forest, freq: seq<nat>, least: nat)
    requires Shape(f) && |freq| == NUM_SYMBOLS
  {
    forall c :: 0 <= c < NUM_SYMBOLS && f.chains[c] != [] ==>
      && freq[c] >= least >= Fib(f.heights[c] + 1)
      && freq[c] >= Fib(f.heights[c] + 2)
  }

  predicate ForestIsRight(f: Forest, count: seq<nat>, freq: seq<nat>, size: seq<nat>, others: seq<int>) {
    && |count| == |freq| == |size| == |others| == NUM_SYMBOLS
    && Shape(f) && Covers(f, count)
    && (forall c :: 0 <= c < NUM_SYMBOLS ==> Linked(others, f.chains[c]))
    && (forall c :: 0 <= c < NUM_SYMBOLS ==> TreeIsRight(f.chains[c], f.heights[c], freq[c], count, size))
    && (forall s :: 0 <= s < NUM_SYMBOLS && count[s] == 0 ==> size[s] == 0)
  }

  /** Merge the tree of `c2` into that of `c1`. */
  function Merged(f: Forest, c1: nat, c2: nat): Forest
    requires Shape(f) && c1 < NUM_SYMBOLS && c2 < NUM_SYMBOLS
  {
    Forest(f.chains[c1 := f.chains[c1] + f.chains[c2]][c2 := []],
           f.heights[c1 := 1 + if f.heights[c1] > f.heights[c2] then f.heights[c1] else f.heights[c2]])
  }

  /** Sizes after the merge: one more in both trees. */
  predicate SizesGrew(f: Forest, c1: nat, c2: nat, size: seq<nat>, longer: seq<nat>)
    requires Shape(f) && c1 < NUM_SYMBOLS && c2 < NUM_SYMBOLS && |size| == |longer| == NUM_SYMBOLS
  {
    forall s :: 0 <= s < NUM_SYMBOLS ==>
      longer[s] == size[s] + if s in f.chains[c1] || s in f.chains[c2] then 1 else 0
  }

  lemma MembersOfSum(a: seq<nat>, b: seq<nat>)
    ensures Members(a + b) == Members(a) + Members(b)
  {
  }

  /** A merge keeps the shape of the forest. */
  lemma MergedShape(f: Forest, c1: nat, c2: nat)
    requires Shape(f) && c1 < NUM_SYMBOLS && c2 < NUM_SYMBOLS && c1 != c2 && f.chains[c1] != []
    ensures Shape(Merged(f, c1, c2))
  {
    var a, b := f.chains[c1], f.chains[c2];
    var g := Merged(f, c1, c2);
    MembersOfSum(a, b);
    forall i, j | 0 <= i < j < |a + b| ensures (a + b)[i] != (a + b)[j] {
      if i < |a| && |a| <= j {
        assert (a + b)[i] in Members(a) && (a + b)[j] in Members(b);
      }
    }
    forall c, d | 0 <= c < NUM_SYMBOLS && 0 <= d < NUM_SYMBOLS && c != d
      ensures Members(g.chains[c]) !! Members(g.chains[d])
    {
    }
  }

  lemma MergedCovers(f: Forest, c1: nat, c2: nat, count: seq<nat>)
    requires Shape(f) && c1 < NUM_SYMBOLS && c2 < NUM_SYMBOLS && c1 != c2 && f.chains[c1] != []
    requires |count| == NUM_SYMBOLS && Covers(f, count)
    ensures Shape(Merged(f, c1, c2)) && Covers(Merged(f, c1, c2), count)
  {
    MergedShape(f, c1, c2);
    hide Shape, Members, Merged, InSomeTree;
    var g := Merged(f, c1, c2);
    ChainLengths(f);
    ChainLengths(g);
    forall c, i | 0 <= c < NUM_SYMBOLS && 0 <= i < |g.chains[c]| ensures count[g.chains[c][i]] > 0 {
      MergedChain(f, c1, c2, c, i);
    }
    forall s | 0 <= s < NUM_SYMBOLS && count[s] > 0 ensures InSomeTree(g, s) {
      StillInSomeTree(f, c1, c2, s);
    }
  }

  /** What is in a chain after the merge was in a chain before. */
  lemma MergedChain(f: Forest, c1: nat, c2: nat, c: nat, i: nat)
    requires Shape(f) && c1 < NUM_SYMBOLS && c2 < NUM_SYMBOLS && c1 != c2 && c < NUM_SYMBOLS
    requires i < |Merged(f, c1, c2).chains[c]|
    ensures exists d, j :: 0 <= d < NUM_SYMBOLS && 0 <= j < |f.chains[d]| && f.chains[d][j] == Merged(f, c1, c2).chains[c][i]
  {
    hide Members;
    var a, b := f.chains[c1], f.chains[c2];
    if c == c1 && i >= |a| {
      assert (a + b)[i] == f.chains[c2][i - |a|];
    } else if c == c1 {
      assert (a + b)[i] == f.chains[c1][i];
    } else {
      assert f.chains[c][i] == Merged(f, c1, c2).chains[c][i];
    }
  }

  lemma StillInSomeTree(f: Forest, c1: nat, c2: nat, s: nat)
    requires Shape(f) && c1 < NUM_SYMBOLS && c2 < NUM_SYMBOLS && c1 != c2 && InSomeTree(f, s)
    ensures |Merged(f, c1, c2).chains| == NUM_SYMBOLS && InSomeTree(Merged(f, c1, c2), s)
  {
    hide Members;
    var g := Merged(f, c1, c2);
    var c :| 0 <= c < NUM_SYMBOLS && s in f.chains[c];
    assert s in g.chains[if c == c2 then c1 else c];
  }

  lemma ChainLengths(f: Forest)
    requires Shape(f)
    ensures |f.chains| == |f.heights| == NUM_SYMBOLS
    ensures forall c, i :: 0 <= c < NUM_SYMBOLS && 0 <= i < |f.chains[c]| ==> f.chains[c][i] < NUM_SYMBOLS
  {
  }

  /** The merged tree has the counts of both, and fills the code space again. */
  lemma MergedTree(f: Forest, c1: nat, c2: nat, count: seq<nat>, freq1: nat, freq2: nat, size: seq<nat>, longer: seq<nat>)
    requires Shape(f) && c1 < NUM_SYMBOLS && c2 < NUM_SYMBOLS && c1 != c2 && freq1 > 0 && freq2 > 0
    requires |count| == |size| == |longer| == NUM_SYMBOLS && SizesGrew(f, c1, c2, size, longer)
    requires TreeIsRight(f.chains[c1], f.heights[c1], freq1, count, size)
    requires TreeIsRight(f.chains[c2], f.heights[c2], freq2, count, size)
    ensures TreeIsRight(f.chains[c1] + f.chains[c2], Merged(f, c1, c2).heights[c1], freq1 + freq2, count, longer)
  {
    hide SumOver, KraftOver;
    var a, b := f.chains[c1], f.chains[c2];
    MembersOfSum(a, b);
    SumOfUnion(count, Members(a), Members(b), NUM_SYMBOLS);
    KraftOfUnion(longer, Members(a), Members(b), NUM_SYMBOLS);
    KraftHalves(size, longer, Members(a), NUM_SYMBOLS);
    KraftHalves(size, longer, Members(b), NUM_SYMBOLS);
  }

  /** The other trees are as they were. */
  lemma OtherTree(f: Forest, c1: nat, c2: nat, c: nat, count: seq<nat>, freq: nat, size: seq<nat>, longer: seq<nat>)
    requires Shape(f) && c1 < NUM_SYMBOLS && c2 < NUM_SYMBOLS && c < NUM_SYMBOLS && c != c1 && c != c2
    requires |count| == |size| == |longer| == NUM_SYMBOLS && SizesGrew(f, c1, c2, size, longer)
    requires TreeIsRight(f.chains[c], f.heights[c], freq, count, size)
    ensures TreeIsRight(f.chains[c], f.heights[c], freq, count, longer)
  {
    hide SumOver, KraftOver;
    forall i | i in f.chains[c] ensures i !in f.chains[c1] && i !in f.chains[c2] {
      assert i in Members(f.chains[c]);
      assert i !in Members(f.chains[c1]) && i !in Members(f.chains[c2]);
    }
    KraftSame(size, longer, Members(f.chains[c]), NUM_SYMBOLS);
  }

  /** Merging the two lightest trees keeps Fibonacci growth. */
  lemma MergedGrowth(f: Forest, c1: nat, c2: nat, freq: seq<nat>, least: nat)
    requires Shape(f) && c1 < NUM_SYMBOLS && c2 < NUM_SYMBOLS && c1 != c2 && |freq| == NUM_SYMBOLS
    requires f.chains[c1] != [] && f.chains[c2] != [] && Growth(f, freq, least) && Shape(Merged(f, c1, c2))
    requires forall c :: 0 <= c < NUM_SYMBOLS && f.chains[c] != [] && c != c1 ==> freq[c1] <= freq[c2] <= freq[c]
    ensures Growth(Merged(f, c1, c2), freq[c1 := freq[c1] + freq[c2]][c2 := 0], freq[c2])
  {
    hide Fib, Members;
    var h1, h2 := f.heights[c1], f.heights[c2];
    FibGrows(h1, h2);
    FibStep(if h1 > h2 then h1 else h2);
  }

  lemma FibStep(h: nat)
    ensures Fib(h + 3) == Fib(h + 2) + Fib(h + 1)
  {
  }

  lemma FibGrows(h1: nat, h2: nat)
    ensures h1 <= h2 ==> Fib(h1 + 1) <= Fib(h2 + 1) && Fib(h1 + 2) <= Fib(h2 + 2)
    ensures h2 <= h1 ==> Fib(h2 + 1) <= Fib(h1 + 1) && Fib(h2 + 2) <= Fib(h1 + 2)
  {
    if h1 <= h2 { FibMonotone(h1 + 1, h2 + 1); FibMonotone(h1 + 2, h2 + 2); }
    if h2 <= h1 { FibMonotone(h2 + 1, h1 + 1); FibMonotone(h2 + 2, h1 + 2); }
  }

  lemma {:induction false} FibMonotone(m: nat, n: nat)
    requires m <= n && m >= 1
    ensures Fib(m) <= Fib(n)
    decreases n
  {
    if m < n { FibMonotone(m, n - 1); }
  }

  /** All links after the chain of `c2` has been put behind that of `c1`. */
  lemma MergedLinks(f: Forest, c1: nat, c2: nat, others: seq<int>)
    requires Shape(f) && c1 < NUM_SYMBOLS && c2 < NUM_SYMBOLS && c1 != c2
    requires f.chains[c1] != [] && f.chains[c2] != [] && |others| == NUM_SYMBOLS
    requires forall c :: 0 <= c < NUM_SYMBOLS ==> Linked(others, f.chains[c])
    ensures var a := f.chains[c1];
            a[|a| - 1] < NUM_SYMBOLS
            && forall c :: 0 <= c < NUM_SYMBOLS ==> Linked(others[a[|a| - 1] := c2], Merged(f, c1, c2).chains[c])
  {
    var a, b := f.chains[c1], f.chains[c2];
    var last := a[|a| - 1];
    var linked := others[last := c2];
    var g := Merged(f, c1, c2);
    forall c | 0 <= c < NUM_SYMBOLS ensures Linked(linked, g.chains[c]) {
      if c == c1 {
        ChainsJoined(a, b, others, c2);
        assert last !in b by { assert last in Members(a); assert last !in Members(b); }
      } else if c != c2 {
        assert last !in f.chains[c] by { assert last in Members(a); assert last !in Members(f.chains[c]); }
        LinkElsewhere(f.chains[c], others, last, c2);
      }
    }
  }

  lemma LinkElsewhere(chain: seq<nat>, others: seq<int>, last: nat, v: int)
    requires Linked(others, chain) && last < NUM_SYMBOLS && last !in chain
    ensures Linked(others[last := v], chain)
  {
    assert forall i :: 0 <= i < |chain| ==> chain[i] != last;
  }

  lemma ChainsJoined(a: seq<nat>, b: seq<nat>, others: seq<int>, c2: nat)
    requires a != [] && b != [] && b[0] == c2 && Linked(others, a) && Linked(others, b)
    requires forall i, j :: 0 <= i < j < |a| ==> a[i] != a[j]
    requires Members(a) !! Members(b)
    ensures Linked(others[a[|a| - 1] := c2], a + b)
  {
    var last := a[|a| - 1];
    var linked := others[last := c2];
    forall i | 0 <= i < |a + b| ensures (a + b)[i] < NUM_SYMBOLS && linked[(a + b)[i]] == Next(a + b, i) {
      if i < |a| - 1 {
        assert (a + b)[i] == a[i] && a[i] != last;
        assert others[a[i]] == Next(a, i);
      } else if i == |a| - 1 {
        assert (a + b)[i + 1] == b[0];
      } else {
        var j := i - |a|;
        assert b[j] in Members(b) && last in Members(a);
        assert others[b[j]] == Next(b, j);
      }
    }
  }

  /** A merge keeps the forest right. */
  lemma MergedForest(f: Forest, c1: nat, c2: nat, count: seq<nat>, freq: seq<nat>, size: seq<nat>, longer: seq<nat>,
                     others: seq<int>)
    requires ForestIsRight(f, count, freq, size, others) && c1 < NUM_SYMBOLS && c2 < NUM_SYMBOLS && c1 != c2
    requires freq[c1] > 0 && freq[c2] > 0 && |longer| == NUM_SYMBOLS && SizesGrew(f, c1, c2, size, longer)
    ensures var a := f.chains[c1];
            && a != [] && a[|a| - 1] < NUM_SYMBOLS
            && ForestIsRight(Merged(f, c1, c2), count, freq[c1 := freq[c1] + freq[c2]][c2 := 0], longer,
                             others[a[|a| - 1] := c2])
  {
    hide SumOver, KraftOver, Linked, Covers, Members;
    assert TreeIsRight(f.chains[c1], f.heights[c1], freq[c1], count, size);
    assert TreeIsRight(f.chains[c2], f.heights[c2], freq[c2], count, size);
    MergedCovers(f, c1, c2, count);
    MergedLinks(f, c1, c2, others);
    MergedTree(f, c1, c2, count, freq[c1], freq[c2], size, longer);
    UnusedStay(f, c1, c2, count, size, longer);
    var g, freq' := Merged(f, c1, c2), freq[c1 := freq[c1] + freq[c2]][c2 := 0];
    hide Shape;
    forall c | 0 <= c < NUM_SYMBOLS ensures TreeIsRight(g.chains[c], g.heights[c], freq'[c], count, longer) {
      if c == c2 {
        NoTree(g.heights[c2], count, longer);
      } else if c != c1 {
        assert TreeIsRight(f.chains[c], f.heights[c], freq[c], count, size);
        OtherTree(f, c1, c2, c, count, freq[c], size, longer);
      }
    }
  }

  lemma NoTree(height: nat, count: seq<nat>, size: seq<nat>)
    requires |count| == |size| == NUM_SYMBOLS
    ensures TreeIsRight([], height, 0, count, size)
  {
    SumOfNone(count, NUM_SYMBOLS);
  }

  lemma {:induction false} SumOfNone(count: seq<nat>, n: nat)
    requires n <= |count|
    ensures SumOver(count, Members([]), n) == 0
  {
    if n > 0 { SumOfNone(count, n - 1); }
  }

  lemma UnusedStay(f: Forest, c1: nat, c2: nat, count: seq<nat>, size: seq<nat>, longer: seq<nat>)
    requires Shape(f) && c1 < NUM_SYMBOLS && c2 < NUM_SYMBOLS && |count| == |size| == |longer| == NUM_SYMBOLS
    requires Covers(f, count) && SizesGrew(f, c1, c2, size, longer)
    requires forall s :: 0 <= s < NUM_SYMBOLS && count[s] == 0 ==> size[s] == 0
    ensures forall s :: 0 <= s < NUM_SYMBOLS && count[s] == 0 ==> longer[s] == 0
  {
  }

  // ---------------------------------------------------------------- the merging loop

  /** The tree to merge next. */
  method FindSmallest(freq: array<nat>, except: int) returns (c: int)
    requires freq.Length == NUM_SYMBOLS && forall i :: 0 <= i < NUM_SYMBOLS ==> freq[i] <= MAX_TOTAL
    ensures IsSmallest(freq[..], except, NUM_SYMBOLS, c)
  {
    c := -1;
    var v := MAX_TOTAL;
    for i := 0 to NUM_SYMBOLS
      invariant -1 <= c < i
      invariant c == -1 ==> v == MAX_TOTAL && forall j :: 0 <= j < i && j != except ==> freq[j] == 0
      invariant c >= 0 ==> c != except && v == freq[c] > 0
      invariant c >= 0 ==> forall j :: 0 <= j < i && j != except && freq[j] > 0 ==>
                             v <= freq[j] && (v == freq[j] ==> j <= c)
    {
      if freq[i] != 0 && freq[i] <= v && i != except {
        v := freq[i];
        c := i;
      }
    }
  }

  predicate Lengthened(before: seq<nat>, after: seq<nat>, part: seq<nat>) {
    |before| == |after|
    && forall s :: 0 <= s < |before| ==> after[s] == before[s] + if s in part then 1 else 0
  }

  lemma LengthenedMore(before: seq<nat>, after: seq<nat>, chain: seq<nat>, i: nat)
    requires i < |chain| && Lengthened(before, after, chain[..i]) && chain[i] < |before|
    requires forall j :: 0 <= j < i ==> chain[j] != chain[i]
    ensures Lengthened(before, after[chain[i] := after[chain[i]] + 1], chain[..i + 1])
  {
    assert chain[..i + 1] == chain[..i] + [chain[i]];
  }

  /** Increment the code size of everything in the branch of `c`; gives the last symbol of the branch. */
  method LengthenBranch(c: nat, codesize: array<nat>, others: array<int>, ghost chain: seq<nat>) returns (last: nat)
    requires codesize.Length == others.Length == NUM_SYMBOLS && Linked(others[..], chain)
    requires chain != [] && chain[0] == c && forall i, j :: 0 <= i < j < |chain| ==> chain[i] != chain[j]
    modifies codesize
    ensures last == chain[|chain| - 1] < NUM_SYMBOLS
    ensures Lengthened(old(codesize[..]), codesize[..], chain)
  {
    hide Lengthened, Linked, Next;
    ghost var before, links := codesize[..], others[..];
    NothingLengthened(before, chain);
    LinkAt(links, chain, 0);
    last := c;
    ghost var i := 0;
    LengthenedMore(before, codesize[..], chain, 0);
    Increment(codesize, last);
    while others[last] >= 0
      invariant 0 <= i < |chain| && last == chain[i] < NUM_SYMBOLS && others[..] == links
      invariant Lengthened(before, codesize[..], chain[..i + 1])
      decreases |chain| - i
    {
      LinkAt(links, chain, i);
      NextMeans(chain, i);
      last := others[last];
      i := i + 1;
      LinkAt(links, chain, i);
      LengthenedMore(before, codesize[..], chain, i);
      Increment(codesize, last);
    }
    LinkAt(links, chain, i);
    NextMeans(chain, i);
    assert chain[..i + 1] == chain;
  }

  lemma NextMeans(chain: seq<nat>, i: nat)
    requires i < |chain|
    ensures Next(chain, i) >= 0 <==> i + 1 < |chain|
    ensures i + 1 < |chain| ==> Next(chain, i) == chain[i + 1]
  {
  }

  method Increment(a: array<nat>, i: nat)
    requires i < a.Length
    modifies a
    ensures a[..] == old(a[..])[i := old(a[i]) + 1]
  {
    a[i] := a[i] + 1;
  }

  lemma NothingLengthened(before: seq<nat>, chain: seq<nat>)
    ensures Lengthened(before, before, chain[..0])
  {
  }

  lemma LinkAt(others: seq<int>, chain: seq<nat>, i: nat)
    requires Linked(others, chain) && i < |chain|
    ensures chain[i] < NUM_SYMBOLS && others[chain[i]] == Next(chain, i)
  {
  }

  // ---------------------------------------------------------------- all merges

  /** Merge the two lightest trees. */
  method MergeTrees(freq: array<nat>, codesize: array<nat>, others: array<int>, c1: nat, c2: nat,
                    ghost count: seq<nat>, ghost f: Forest)
    requires freq.Length == codesize.Length == others.Length == NUM_SYMBOLS && freq != codesize
    requires |f.chains| == |f.heights| == NUM_SYMBOLS
    requires ForestIsRight(f, count, freq[..], codesize[..], others[..])
    requires c1 < NUM_SYMBOLS && c2 < NUM_SYMBOLS && c1 != c2 && freq[c1] > 0 && freq[c2] > 0
    modifies freq, codesize, others
    ensures freq[..] == old(freq[..])[c1 := old(freq[c1] + freq[c2])][c2 := 0]
    ensures Shape(f) && ForestIsRight(Merged(f, c1, c2), count, freq[..], codesize[..], others[..])
    ensures SizesGrew(f, c1, c2, old(codesize[..]), codesize[..])
  {
    hide ForestIsRight, Shape, Linked, Lengthened, Merged, SizesGrew;
    ghost var size, links, a, b := codesize[..], others[..], f.chains[c1], f.chains[c2];
    TwoTrees(f, c1, c2, count, freq[..], size, links);
    MoveCount(freq, c1, c2);
    MergeBranches(codesize, others, c1, c2, f);
    MergedForest(f, c1, c2, count, old(freq[..]), size, codesize[..], links);
  }

  method MoveCount(freq: array<nat>, c1: nat, c2: nat)
    requires c1 < freq.Length && c2 < freq.Length && c1 != c2
    modifies freq
    ensures freq[..] == old(freq[..])[c1 := old(freq[c1] + freq[c2])][c2 := 0]
  {
    freq[c1] := freq[c1] + freq[c2];
    freq[c2] := 0;
  }

  method MergeBranches(codesize: array<nat>, others: array<int>, c1: nat, c2: nat, ghost f: Forest)
    requires codesize.Length == others.Length == NUM_SYMBOLS && c1 < NUM_SYMBOLS && c2 < NUM_SYMBOLS && c1 != c2
    requires Shape(f) && |f.chains| == NUM_SYMBOLS
    requires forall c :: c == c1 || c == c2 ==>
               && Linked(others[..], f.chains[c]) && f.chains[c] != [] && f.chains[c][0] == c
               && forall i, j :: 0 <= i < j < |f.chains[c]| ==> f.chains[c][i] != f.chains[c][j]
    modifies codesize, others
    ensures SizesGrew(f, c1, c2, old(codesize[..]), codesize[..])
    ensures var a := f.chains[c1];
            a[|a| - 1] < NUM_SYMBOLS && others[..] == old(others[..])[a[|a| - 1] := c2]
  {
    hide Shape, Linked, Lengthened, SizesGrew;
    ghost var size, links, a, b := codesize[..], others[..], f.chains[c1], f.chains[c2];
    var last := LengthenBranch(c1, codesize, others, a);
    ghost var mid := codesize[..];
    others[last] := c2;
    ghost var changed := others[..];
    assert changed == links[last := c2];
    LinksStay(f, c1, c2, links, changed, last);
    last := LengthenBranch(c2, codesize, others, b);
    BothGrew(f, c1, c2, size, mid, codesize[..]);
  }

  lemma TwoTrees(f: Forest, c1: nat, c2: nat, count: seq<nat>, freq: seq<nat>, size: seq<nat>, others: seq<int>)
    requires ForestIsRight(f, count, freq, size, others) && c1 < NUM_SYMBOLS && c2 < NUM_SYMBOLS && c1 != c2
    requires freq[c1] > 0 && freq[c2] > 0
    ensures Shape(f) && |f.chains| == NUM_SYMBOLS
    ensures forall c :: c == c1 || c == c2 ==>
              && Linked(others, f.chains[c]) && f.chains[c] != [] && f.chains[c][0] == c
              && forall i, j :: 0 <= i < j < |f.chains[c]| ==> f.chains[c][i] != f.chains[c][j]
  {
    hide SumOver, KraftOver, Linked, Covers;
    assert TreeIsRight(f.chains[c1], f.heights[c1], freq[c1], count, size);
    assert TreeIsRight(f.chains[c2], f.heights[c2], freq[c2], count, size);
  }

  lemma LinksStay(f: Forest, c1: nat, c2: nat, links: seq<int>, changed: seq<int>, last: nat)
    requires Shape(f) && c1 < NUM_SYMBOLS && c2 < NUM_SYMBOLS && c1 != c2 && f.chains[c1] != [] && |links| == NUM_SYMBOLS
    requires last == f.chains[c1][|f.chains[c1]| - 1] < NUM_SYMBOLS && changed == links[last := c2]
    requires Linked(links, f.chains[c2])
    ensures Linked(changed, f.chains[c2])
  {
    assert last in Members(f.chains[c1]);
    assert last !in Members(f.chains[c2]);
    LinkElsewhere(f.chains[c2], links, last, c2);
  }

  lemma BothGrew(f: Forest, c1: nat, c2: nat, size: seq<nat>, mid: seq<nat>, longer: seq<nat>)
    requires Shape(f) && c1 < NUM_SYMBOLS && c2 < NUM_SYMBOLS && c1 != c2 && |size| == NUM_SYMBOLS
    requires Lengthened(size, mid, f.chains[c1]) && Lengthened(mid, longer, f.chains[c2])
    ensures |longer| == NUM_SYMBOLS && SizesGrew(f, c1, c2, size, longer)
  {
    var a, b := f.chains[c1], f.chains[c2];
    assert Members(a) !! Members(b);
    forall s | s in a ensures s !in b {
      assert s in Members(a);
      assert s !in Members(b);
    }
  }

  lemma {:induction false} SumOfUsed(count: seq<nat>, n: nat)
    requires n <= |count| == NUM_SYMBOLS
    ensures SumOver(count, Used(count), n) == SumOver(count, AllSymbols(), n)
    decreases n
  {
    if n > 0 {
      SumOfUsed(count, n - 1);
      assert seq(NUM_SYMBOLS, i => i)[n - 1] == n - 1;
      assert n - 1 in AllSymbols();
    }
  }

  /** At the start every symbol with a count is a tree of its own. */
  function Singles(count: seq<nat>): Forest
    requires |count| == NUM_SYMBOLS
  {
    Forest(seq(NUM_SYMBOLS, c requires 0 <= c < NUM_SYMBOLS => if count[c] > 0 then [c] else []), seq(NUM_SYMBOLS, _ => 0))
  }

  lemma SinglesAreRight(count: seq<nat>, size: seq<nat>, others: seq<int>)
    requires |count| == |size| == |others| == NUM_SYMBOLS
    requires forall s :: 0 <= s < NUM_SYMBOLS ==> size[s] == 0 && others[s] == -1
    ensures Shape(Singles(count)) && ForestIsRight(Singles(count), count, count, size, others)
    ensures Growth(Singles(count), count, 1)
  {
    hide SumOver, KraftOver, TreeIsRight, Members, Fib;
    var f := Singles(count);
    SinglesShape(count);
    SinglesCover(count);
    hide Shape, Covers;
    forall c | 0 <= c < NUM_SYMBOLS ensures TreeIsRight(f.chains[c], f.heights[c], count[c], count, size) {
      if count[c] > 0 {
        OneLeaf(c, count, size);
      } else {
        NoTree(0, count, size);
      }
    }
    FirstFibs();
  }

  lemma FirstFibs()
    ensures Fib(1) == 1 && Fib(2) == 1
  {
  }

  lemma SinglesShape(count: seq<nat>)
    requires |count| == NUM_SYMBOLS
    ensures Shape(Singles(count))
  {
  }

  lemma SinglesCover(count: seq<nat>)
    requires |count| == NUM_SYMBOLS && Shape(Singles(count))
    ensures Covers(Singles(count), count)
  {
    hide Shape, Members;
    var f := Singles(count);
    forall s | 0 <= s < NUM_SYMBOLS && count[s] > 0 ensures InSomeTree(f, s) {
      assert s in f.chains[s];
    }
  }

  lemma OneLeaf(c: nat, count: seq<nat>, size: seq<nat>)
    requires |count| == |size| == NUM_SYMBOLS && c < NUM_SYMBOLS && size[c] == 0 && count[c] > 0
    ensures TreeIsRight([c], 0, count[c], count, size)
  {
    hide SumOver, KraftOver;
    assert Members([c]) == {c};
    SumOfOne(count, c, NUM_SYMBOLS);
    KraftOfOne(size, c, NUM_SYMBOLS);
  }

  /** No tree is heavier than all symbols together. */
  lemma TreesAreLight(f: Forest, count: seq<nat>, freq: seq<nat>, size: seq<nat>, others: seq<int>)
    requires ForestIsRight(f, count, freq, size, others)
    ensures forall c :: 0 <= c < NUM_SYMBOLS ==> freq[c] <= Total(count)
  {
    hide SumOver, KraftOver, Covers, Linked;
    forall c | 0 <= c < NUM_SYMBOLS ensures freq[c] <= Total(count) {
      assert TreeIsRight(f.chains[c], f.heights[c], freq[c], count, size);
      forall s | s in Members(f.chains[c]) ensures s in AllSymbols() {
        assert seq(NUM_SYMBOLS, i => i)[s] == s;
      }
      SumOfPart(count, Members(f.chains[c]), AllSymbols(), NUM_SYMBOLS);
    }
  }

  /** What the merging comes to: the used symbols fill the code space, and long codes need large counts. */
  ghost predicate SizesAreRight(count: seq<nat>, size: seq<nat>) {
    && |count| == |size| == NUM_SYMBOLS
    && (forall s :: 0 <= s < NUM_SYMBOLS ==> (size[s] > 0 <==> count[s] > 0))
    && KraftOver(size, Used(count), NUM_SYMBOLS) == 1.0
    && (forall s :: 0 <= s < NUM_SYMBOLS && size[s] > 0 ==> Fib(size[s] + 2) <= Total(count))
  }

  /** With one tree left, it holds everything. */
  lemma LastTreeHolds(f: Forest, count: seq<nat>, freq: seq<nat>, size: seq<nat>, others: seq<int>, c1: nat, s: nat)
    requires ForestIsRight(f, count, freq, size, others)
    requires c1 < NUM_SYMBOLS && forall c :: 0 <= c < NUM_SYMBOLS && c != c1 ==> freq[c] == 0
    requires s < NUM_SYMBOLS
    ensures count[s] > 0 <==> s in f.chains[c1]
  {
    hide SumOver, KraftOver, Linked, Members;
    if count[s] > 0 {
      assert InSomeTree(f, s);
      var c :| 0 <= c < NUM_SYMBOLS && s in f.chains[c];
      assert TreeIsRight(f.chains[c], f.heights[c], freq[c], count, size);
    }
    if s in f.chains[c1] {
      var i :| 0 <= i < |f.chains[c1]| && f.chains[c1][i] == s;
      assert count[f.chains[c1][i]] > 0;
    }
  }

  lemma LastTree(f: Forest, count: seq<nat>, freq: seq<nat>, size: seq<nat>, others: seq<int>, c1: nat, least: nat)
    requires ForestIsRight(f, count, freq, size, others) && Growth(f, freq, least)
    requires c1 < NUM_SYMBOLS && freq[c1] > 0 && forall c :: 0 <= c < NUM_SYMBOLS && c != c1 ==> freq[c] == 0
    requires exists s, t :: 0 <= s < t < NUM_SYMBOLS && count[s] > 0 && count[t] > 0
    ensures SizesAreRight(count, size)
  {
    hide SumOver, KraftOver, Linked, Fib, Covers;
    var chain, h := f.chains[c1], f.heights[c1];
    assert TreeIsRight(chain, h, freq[c1], count, size);
    forall s | 0 <= s < NUM_SYMBOLS ensures count[s] > 0 <==> s in chain {
      LastTreeHolds(f, count, freq, size, others, c1, s);
    }
    assert forall i :: 0 <= i < |chain| ==> chain[i] < NUM_SYMBOLS;
    assert chain != [];
    assert freq[c1] >= Fib(h + 2);
    assert forall s :: 0 <= s < NUM_SYMBOLS && count[s] == 0 ==> size[s] == 0;
    hide ForestIsRight, Growth, Shape;
    OnlyTree(chain, h, freq[c1], count, size);
  }

  lemma OnlyTree(chain: seq<nat>, h: nat, freq: nat, count: seq<nat>, size: seq<nat>)
    requires |count| == |size| == NUM_SYMBOLS && TreeIsRight(chain, h, freq, count, size) && chain != []
    requires forall s :: 0 <= s < NUM_SYMBOLS ==> (count[s] > 0 <==> s in chain)
    requires forall i :: 0 <= i < |chain| ==> chain[i] < NUM_SYMBOLS
    requires forall s :: 0 <= s < NUM_SYMBOLS && count[s] == 0 ==> size[s] == 0
    requires freq >= Fib(h + 2)
    requires exists s, t :: 0 <= s < t < NUM_SYMBOLS && count[s] > 0 && count[t] > 0
    ensures SizesAreRight(count, size)
  {
    hide SumOver, KraftOver, Fib;
    assert Members(chain) == Used(count);
    SumOfUsed(count, NUM_SYMBOLS);
    var s, t :| 0 <= s < t < NUM_SYMBOLS && count[s] > 0 && count[t] > 0;
    assert s in chain && t in chain && |chain| > 1;
    forall s | 0 <= s < NUM_SYMBOLS && size[s] > 0 ensures Fib(size[s] + 2) <= Total(count) {
      var i :| 0 <= i < |chain| && chain[i] == s;
      FibMonotone(size[s] + 2, h + 2);
    }
  }

  /** How far the merging has come: the forest, its account in the order of merges, and the larger count of the latest
      merge. */
  datatype Progress = Progress(f: Forest, m: Merging, least: nat)

  ghost predicate Underway(p: Progress, count: seq<nat>, freq: seq<nat>, size: seq<nat>, others: seq<int>) {
    && ForestIsRight(p.f, count, freq, size, others) && Growth(p.f, freq, p.least)
    && Reduces(count, size, freq)
    && Holds(p.f, p.m) && p.m.freq == freq && p.m.size == size && FinalSizes(p.m) == SizesOf(count)
  }

  lemma MergingStarts(count: seq<nat>, size: seq<nat>, others: seq<int>)
    requires |count| == |size| == |others| == NUM_SYMBOLS
    requires forall s :: 0 <= s < NUM_SYMBOLS ==> size[s] == 0 && others[s] == -1
    ensures Underway(Progress(Singles(count), Start(count), 1), count, count, size, others)
  {
    hide ForestIsRight, Growth, Reduces, FinalSizes, Shape;
    SinglesAreRight(count, size, others);
    NothingReduced(count, size);
    StartHolds(count);
    assert Start(count).size == size;
  }

  /** With one tree left, the sizes are what they should be. */
  lemma MergingIsDone(p: Progress, count: seq<nat>, freq: seq<nat>, size: seq<nat>, others: seq<int>, c1: nat)
    requires Underway(p, count, freq, size, others)
    requires c1 < NUM_SYMBOLS && IsSmallest(freq, -1, NUM_SYMBOLS, c1) && IsSmallest(freq, c1, NUM_SYMBOLS, -1)
    requires exists s, t :: 0 <= s < t < NUM_SYMBOLS && count[s] > 0 && count[t] > 0
    ensures SizesAreRight(count, size) && IsOptimal(count, size) && size == SizesOf(count)
  {
    hide ForestIsRight, Growth, Reduces, FinalSizes, Shape, SizesAreRight, IsOptimal;
    MergingEnds(p.m, c1);
    AllReduced(count, size, freq);
    LastTree(p.f, count, freq, size, others, c1, p.least);
  }

  /** What the merge of two trees comes to. */
  lemma MergingGoesOn(p: Progress, c1: nat, c2: nat, count: seq<nat>, freq: seq<nat>, size: seq<nat>, others: seq<int>,
                      freq': seq<nat>, size': seq<nat>, others': seq<int>) returns (q: Progress)
    requires Underway(p, count, freq, size, others)
    requires c1 < NUM_SYMBOLS && c2 < NUM_SYMBOLS && |freq| == |size'| == NUM_SYMBOLS
    requires IsSmallest(freq, -1, NUM_SYMBOLS, c1) && IsSmallest(freq, c1, NUM_SYMBOLS, c2)
    requires freq' == freq[c1 := freq[c1] + freq[c2]][c2 := 0]
    requires Shape(p.f) && SizesGrew(p.f, c1, c2, size, size')
    requires ForestIsRight(Merged(p.f, c1, c2), count, freq', size', others')
    ensures Underway(q, count, freq', size', others')
  {
    hide ForestIsRight, Growth, Reduces, FinalSizes, Shape, SizesGrew, Merged, Holds, Merge;
    TwoTrees(p.f, c1, c2, count, freq, size, others);
    LightestTwo(p.f, c1, c2, count, freq, size, others);
    MergedShape(p.f, c1, c2);
    MergedGrowth(p.f, c1, c2, freq, p.least);
    MergeIsBest(p.f, c1, c2, count, freq, size, size', others);
    assert Sized(p.m) by { HoldsSized(p.f, p.m); }
    MergeStep(p.m, c1, c2);
    MergeHolds(p.f, p.m, c1, c2, size');
    MergedFreq(p.m, c1, c2);
    q := Progress(Merged(p.f, c1, c2), Merge(p.m, c1, c2), freq[c2]);
  }

  lemma HoldsSized(f: Forest, m: Merging)
    requires Holds(f, m)
    ensures Sized(m)
  {
  }

  lemma MergedFreq(m: Merging, c1: nat, c2: nat)
    requires Sized(m) && c1 < |m.freq| && c2 < |m.freq|
    ensures Merge(m, c1, c2).freq == m.freq[c1 := m.freq[c1] + m.freq[c2]][c2 := 0]
  {
  }

  lemma ForestOf(p: Progress, count: seq<nat>, freq: seq<nat>, size: seq<nat>, others: seq<int>)
    requires Underway(p, count, freq, size, others)
    ensures ForestIsRight(p.f, count, freq, size, others) && |p.f.chains| == |p.f.heights| == NUM_SYMBOLS
  {
    hide Growth, Reduces, FinalSizes, Holds, Covers, Linked, TreeIsRight;
  }

  /** Huffman's algorithm. */
  method AssignSizes(freq: array<nat>) returns (codesize: array<nat>)
    requires freq.Length == NUM_SYMBOLS && Total(freq[..]) <= MAX_TOTAL
    requires exists s, t :: 0 <= s < t < NUM_SYMBOLS && freq[s] > 0 && freq[t] > 0
    modifies freq
    ensures fresh(codesize) && codesize.Length == NUM_SYMBOLS
    ensures SizesAreRight(old(freq[..]), codesize[..]) && IsOptimal(old(freq[..]), codesize[..])
    ensures codesize[..] == SizesOf(old(freq[..]))
  {
    hide Underway, ForestIsRight, Merged, SizesAreRight, IsOptimal, Total, NonZero, Shape, SizesGrew;
    codesize := new nat[NUM_SYMBOLS](_ => 0);
    var others := new int[NUM_SYMBOLS](_ => -1);
    ghost var count, p := freq[..], Progress(Singles(freq[..]), Start(freq[..]), 1);
    MergingStarts(count, codesize[..], others[..]);
    while true
      invariant Underway(p, count, freq[..], codesize[..], others[..])
      decreases NonZero(freq[..], NUM_SYMBOLS)
    {
      ForestOf(p, count, freq[..], codesize[..], others[..]);
      TreesAreLight(p.f, count, freq[..], codesize[..], others[..]);
      var c1 := FindSmallest(freq, -1);
      SomethingIsLeft(p.f, count, freq[..], codesize[..], others[..]);
      var c2 := FindSmallest(freq, c1);
      if c2 < 0 {
        MergingIsDone(p, count, freq[..], codesize[..], others[..], c1);
        break;
      }
      OneZeroMore(freq[..], c1, freq[c1] + freq[c2], c2, NUM_SYMBOLS);
      ghost var counts, size, links := freq[..], codesize[..], others[..];
      MergeTrees(freq, codesize, others, c1, c2, count, p.f);
      p := MergingGoesOn(p, c1, c2, count, counts, size, links, freq[..], codesize[..], others[..]);
    }
  }

  /** The chains of the forest hold the symbols of the trees. */
  ghost predicate Holds(f: Forest, m: Merging) {
    && Sized(m) && |m.freq| == |f.chains| == NUM_SYMBOLS
    && forall s, c :: 0 <= s < NUM_SYMBOLS && 0 <= c < NUM_SYMBOLS && m.freq[c] > 0 ==> (m.tree[s] == c <==> s in f.chains[c])
  }

  lemma StartHolds(count: seq<nat>)
    requires |count| == NUM_SYMBOLS
    ensures Holds(Singles(count), Start(count))
  {
  }

  lemma MergeHolds(f: Forest, m: Merging, c1: nat, c2: nat, longer: seq<nat>)
    requires Shape(f) && Holds(f, m) && c1 < NUM_SYMBOLS && c2 < NUM_SYMBOLS && c1 != c2
    requires m.freq[c1] > 0 && m.freq[c2] > 0 && |longer| == NUM_SYMBOLS && SizesGrew(f, c1, c2, m.size, longer)
    ensures Holds(Merged(f, c1, c2), Merge(m, c1, c2)) && Merge(m, c1, c2).size == longer
  {
    hide Shape;
    var g, r := Merged(f, c1, c2), Merge(m, c1, c2);
    forall s, c | 0 <= s < NUM_SYMBOLS && 0 <= c < NUM_SYMBOLS && r.freq[c] > 0
      ensures r.tree[s] == c <==> s in g.chains[c]
    {
      assert c != c2;
    }
  }

  /** The merge of the two lightest trees keeps every prefix code within reach. */
  lemma MergeIsBest(f: Forest, c1: nat, c2: nat, count: seq<nat>, freq: seq<nat>, size: seq<nat>, longer: seq<nat>,
                    others: seq<int>)
    requires ForestIsRight(f, count, freq, size, others) && Reduces(count, size, freq)
    requires c1 < NUM_SYMBOLS && c2 < NUM_SYMBOLS && c1 != c2 && freq[c1] > 0 && freq[c2] > 0
    requires freq[c1] <= freq[c2] && forall i :: 0 <= i < NUM_SYMBOLS && i != c1 && freq[i] > 0 ==> freq[c2] <= freq[i]
    requires |longer| == NUM_SYMBOLS && SizesGrew(f, c1, c2, size, longer)
    ensures Reduces(count, longer, freq[c1 := freq[c1] + freq[c2]][c2 := 0])
  {
    hide SumOver, KraftOver, Covers, Linked, Reduces;
    var a, b := Members(f.chains[c1]), Members(f.chains[c2]);
    assert TreeIsRight(f.chains[c1], f.heights[c1], freq[c1], count, size);
    assert TreeIsRight(f.chains[c2], f.heights[c2], freq[c2], count, size);
    SumOfUnion(count, a, b, NUM_SYMBOLS);
    MergeReduces(count, size, longer, freq, c1, c2, a + b);
  }

  lemma SomethingIsLeft(f: Forest, count: seq<nat>, freq: seq<nat>, size: seq<nat>, others: seq<int>)
    requires ForestIsRight(f, count, freq, size, others)
    requires exists s, t :: 0 <= s < t < NUM_SYMBOLS && count[s] > 0 && count[t] > 0
    ensures exists c :: 0 <= c < NUM_SYMBOLS && freq[c] > 0
  {
    hide SumOver, KraftOver, Linked;
    var s, t :| 0 <= s < t < NUM_SYMBOLS && count[s] > 0 && count[t] > 0;
    assert InSomeTree(f, s);
    var c :| 0 <= c < NUM_SYMBOLS && s in f.chains[c];
    assert TreeIsRight(f.chains[c], f.heights[c], freq[c], count, size);
  }

  lemma LightestTwo(f: Forest, c1: nat, c2: nat, count: seq<nat>, freq: seq<nat>, size: seq<nat>, others: seq<int>)
    requires ForestIsRight(f, count, freq, size, others) && c1 < NUM_SYMBOLS && c2 < NUM_SYMBOLS
    requires freq[c1] <= freq[c2]
    requires forall i :: 0 <= i < NUM_SYMBOLS && i != c1 && freq[i] > 0 ==> freq[c2] <= freq[i]
    ensures forall c :: 0 <= c < NUM_SYMBOLS && f.chains[c] != [] && c != c1 ==> freq[c1] <= freq[c2] <= freq[c]
  {
    hide SumOver, KraftOver, Linked, Covers;
    forall c | 0 <= c < NUM_SYMBOLS && f.chains[c] != [] ensures freq[c] > 0 {
      assert TreeIsRight(f.chains[c], f.heights[c], freq[c], count, size);
    }
  }
}
