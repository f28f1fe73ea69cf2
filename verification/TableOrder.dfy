/** Do frequent symbols get short codes (jpeg_gen_optimal_table in jchuff.c)? The sizes of Huffman's algorithm say yes.
    The table says yes as long as no size exceeds sixteen; where sizes are limited, the list is not sorted again, and
    of symbols with one size the heavier one can get the longer code. */
module TableOrder {
  import opened Arithmetic
  import opened HuffmanCode
  import opened HuffmanTables
  import opened KraftSums
  import opened HuffmanOptimality
  import opened MergeOrder
  import opened OptimalTable
  import opened LengthLimit
  import opened GenOptimalTable

  // ---------------------------------------------------------------- places in the list

  /** A symbol with a smaller size, or with the same size and a smaller value, comes first. */
  lemma RankOrders(size: seq<nat>, a: nat, b: nat)
    requires a < PSEUDO && b < PSEUDO <= |size| && 1 <= size[a]
    requires size[a] < size[b] || (size[a] == size[b] && a < b)
    ensures Rank(size, a) < Rank(size, b)
  {
    RankInGroup(size, a);
    if size[a] < size[b] {
      BetweenSplits(size, 1, size[a] + 1, size[b], PSEUDO);
    } else {
      BetweenGrows(size, size[a], size[a] + 1, a + 1, b);
    }
  }

  /** The symbols of one size stand together, behind those of smaller sizes. */
  lemma RankInGroup(size: seq<nat>, a: nat)
    requires a < PSEUDO <= |size| && 1 <= size[a]
    ensures Between(size, 1, size[a], PSEUDO) <= Rank(size, a) < Between(size, 1, size[a] + 1, PSEUDO)
  {
    BetweenSplits(size, 1, size[a], size[a] + 1, PSEUDO);
    BetweenGrows(size, size[a], size[a] + 1, a + 1, PSEUDO);
  }

  /** What the encoder's table says of a symbol with a count. */
  lemma SymbolLength(counts: seq<nat>, t: HuffTable, co: seq<nat>, si: seq<nat>, a: nat)
    requires |counts| == NUM_SYMBOLS && Generated(counts, t) && EncoderTable(t, co, si)
    requires a < PSEUDO && counts[a] > 0
    ensures var size := SizesOf(WithPseudo(counts));
            && size[a] > 0 && Rank(size, a) < Count(t.bits, 16) && si[a] == Length(t.bits, Rank(size, a))
  {
    hide SizesAreRight, IsOptimal, SizesOf, Rank, Length, Count, TableBits, Between;
    var size, n := SizesOf(WithPseudo(counts)), NumSymbols(t);
    assert size[a] > 0 && ListedTo(size, MAX_CLEN + 1, 0, a) by { RightSizesMean(WithPseudo(counts), size); }
    var list := t.huffval[..n];
    assert a in list;
    var p :| 0 <= p < |list| && list[p] == a;
    assert t.huffval[p] == a;
  }

  lemma LengthGrows(bits: seq<nat>, p: nat, q: nat)
    requires |bits| == 17 && p <= q < Count(bits, 16)
    ensures Length(bits, p) <= Length(bits, q)
  {
    hide Count;
    var l, m := Length(bits, p), Length(bits, q);
    if l > m { CountGrows(bits, m, l - 1); }
  }

  // ---------------------------------------------------------------- what always holds

  /** Code lengths never contradict the sizes of Huffman's algorithm, and these never contradict the counts. */
  lemma LengthsFollowSizes(counts: seq<nat>, t: HuffTable, co: seq<nat>, si: seq<nat>, a: nat, b: nat)
    requires |counts| == NUM_SYMBOLS && Generated(counts, t) && EncoderTable(t, co, si)
    requires a < PSEUDO && b < PSEUDO && counts[a] > 0 && counts[b] > 0
    ensures var size := SizesOf(WithPseudo(counts));
            && (counts[a] > counts[b] ==> size[a] <= size[b])
            && (size[a] < size[b] || (size[a] == size[b] && a < b) ==> si[a] <= si[b])
  {
    hide Generated, SizesOf, Rank, Length, Count, IsOptimal, IsPrefixCode;
    var size := SizesOf(WithPseudo(counts));
    SymbolLength(counts, t, co, si, a);
    SymbolLength(counts, t, co, si, b);
    GeneratedIsOptimal(counts, t);
    if counts[a] > counts[b] { HeavierIsNotLonger(WithPseudo(counts), size, a, b); }
    if size[a] < size[b] || (size[a] == size[b] && a < b) {
      RankOrders(size, a, b);
      LengthGrows(t.bits, Rank(size, a), Rank(size, b));
    }
  }

  lemma GeneratedIsOptimal(counts: seq<nat>, t: HuffTable)
    requires |counts| == NUM_SYMBOLS && Generated(counts, t)
    ensures var count := WithPseudo(counts);
            IsOptimal(count, SizesOf(count)) && IsPrefixCode(count, SizesOf(count))
    ensures |t.bits| == 17
  {
    hide IsOptimal, SizesOf, KraftOver, Used, Listing, Total, Fib;
  }

  /** Exactly when a symbol that occurs more often has the longer code: it has the same size as the other one and a
      larger value, and a boundary between two code lengths falls between their places. */
  lemma ExactlyWhenHeavierIsLonger(counts: seq<nat>, t: HuffTable, co: seq<nat>, si: seq<nat>, a: nat, b: nat)
    requires |counts| == NUM_SYMBOLS && Generated(counts, t) && EncoderTable(t, co, si)
    requires a < PSEUDO && b < PSEUDO && counts[a] > counts[b] > 0
    ensures var size := SizesOf(WithPseudo(counts));
            si[a] > si[b] <==>
              && size[a] == size[b] && b < a
              && exists l :: 1 <= l < 16 && Rank(size, b) < Count(TableBits(size), l) <= Rank(size, a)
  {
    hide SizesOf, Rank, Length, Count, TableBits, SizesAreRight, IsOptimal, Listing;
    var size := SizesOf(WithPseudo(counts));
    LengthsFollowSizes(counts, t, co, si, a, b);
    SymbolLength(counts, t, co, si, a);
    SymbolLength(counts, t, co, si, b);
    var p, q, bits := Rank(size, a), Rank(size, b), t.bits;
    if si[a] > si[b] {
      CountGrows(bits, si[b], si[a] - 1);
      assert q < Count(bits, si[b]) <= p;
    }
    if size[a] == size[b] && b < a && exists l :: 1 <= l < 16 && q < Count(bits, l) <= p {
      var l :| 1 <= l < 16 && q < Count(bits, l) <= p;
      if si[a] <= l { CountGrows(bits, si[a], l); }
      if l < si[b] { CountGrows(bits, l, si[b] - 1); }
    }
  }

  // ---------------------------------------------------------------- no size above sixteen

  lemma {:induction false} CodesAreBetween(size: seq<nat>, l: nat)
    requires l <= MAX_CLEN
    ensures Codes(LengthCounts(size), l) == Between(size, 1, l + 1, |size|)
  {
    if l == 0 {
      NoneBetween(size, |size|);
    } else {
      CodesAreBetween(size, l - 1);
      BetweenSplits(size, 1, l, l + 1, |size|);
    }
  }

  lemma {:induction false} NothingToLimit(bits: seq<nat>, i: nat)
    requires 16 <= i < |bits| && forall k :: 16 < k < |bits| ==> bits[k] == 0
    ensures Limited(bits, i) == bits
    decreases i
  {
    if i > 16 {
      ShortenedEnds(bits, i);
      NothingToLimit(bits, i - 1);
    }
  }

  lemma {:induction false} NoneOfLength(size: seq<nat>, l: nat, n: nat)
    requires n <= |size| && forall s :: 0 <= s < n ==> size[s] != l
    ensures Between(size, l, l + 1, n) == 0
  {
    if n > 0 { NoneOfLength(size, l, n - 1); }
  }

  lemma {:induction false} SomeOfLength(size: seq<nat>, l: nat, s: nat, n: nat)
    requires s < n <= |size| && size[s] == l
    ensures Between(size, l, l + 1, n) > 0
    decreases n
  {
    if s < n - 1 { SomeOfLength(size, l, s, n - 1); }
  }

  predicate AtMostSixteen(size: seq<nat>) { forall s :: 0 <= s < |size| ==> size[s] <= 16 }

  /** Without limiting, there are as many codes up to each length as sizes, but for one of the longest. */
  lemma UnlimitedBits(size: seq<nat>) returns (m: nat)
    requires |size| == NUM_SYMBOLS && AtMostSixteen(size) && size[PSEUDO] > 0
    ensures 1 <= m <= 16 && forall s :: 0 <= s < |size| ==> size[s] <= m
    ensures forall l :: 0 <= l <= 16 ==>
              Count(TableBits(size), l) + (if l >= m then 1 else 0) == Between(size, 1, l + 1, NUM_SYMBOLS)
  {
    hide Between, Codes, Limited, Count;
    var full := LengthCounts(size);
    forall l | 16 < l < |full| ensures full[l] == 0 { NoneOfLength(size, l, |size|); }
    NothingToLimit(full, MAX_CLEN);
    m := LongestUpTo(full, 16);
    forall s | 0 <= s < |size| ensures size[s] <= m {
      if size[s] > 0 {
        SomeOfLength(size, size[s], s, |size|);
        assert full[size[s]] > 0;
      }
    }
    assert full[m] > 0;
    var less := full[m := full[m] - 1];
    assert TableBits(size) == less[..17];
    forall l | 0 <= l <= 16
      ensures Count(TableBits(size), l) + (if l >= m then 1 else 0) == Between(size, 1, l + 1, NUM_SYMBOLS)
    {
      CodesAreBetween(size, l);
      OneLessFills(full, m, l);
      if l == 0 {
        CountOfNone(less[..17]);
        CodesOfNone(full);
      } else {
        FilledIsPast(less, l);
      }
    }
  }

  lemma CountOfNone(bits: seq<nat>)
    requires |bits| == 17
    ensures Count(bits, 0) == 0
  {
  }

  lemma CodesOfNone(bits: seq<nat>)
    requires |bits| > 0
    ensures Codes(bits, 0) == 0
  {
  }

  /** Without limiting, the symbols of a size that is not above the pseudo-symbol's have codes of that length. */
  lemma UnlimitedLength(size: seq<nat>, a: nat)
    requires |size| == NUM_SYMBOLS && AtMostSixteen(size) && a < PSEUDO && 1 <= size[a] <= size[PSEUDO]
    requires Rank(size, a) < Count(TableBits(size), 16)
    ensures Length(TableBits(size), Rank(size, a)) == size[a]
  {
    hide Rank, Length, Count, TableBits, Between;
    var z, p, bits := size[a], Rank(size, a), TableBits(size);
    var m := UnlimitedBits(size);
    RankInGroup(size, a);
    LastBetween(size, z);
    assert Count(bits, z - 1) <= p < Count(bits, z);
    LengthIs(bits, p, z);
  }

  /** As long as no size exceeds sixteen, a symbol that occurs more often has no longer code. */
  lemma HeavierHasNoLongerCode(counts: seq<nat>, t: HuffTable, co: seq<nat>, si: seq<nat>, a: nat, b: nat)
    requires |counts| == NUM_SYMBOLS && Generated(counts, t) && EncoderTable(t, co, si)
    requires AtMostSixteen(SizesOf(WithPseudo(counts)))
    requires a < PSEUDO && b < PSEUDO && counts[a] > counts[b] > 0
    ensures si[a] <= si[b]
  {
    hide SizesOf, Rank, Length, Count, TableBits, SizesAreRight, IsOptimal, Listing, Between, IsPrefixCode, AtMostSixteen;
    var count, size := WithPseudo(counts), SizesOf(WithPseudo(counts));
    LengthsFollowSizes(counts, t, co, si, a, b);
    if size[a] == size[b] && b < a {
      SymbolLength(counts, t, co, si, a);
      SymbolLength(counts, t, co, si, b);
      GeneratedIsOptimal(counts, t);
      HeavierIsNotLonger(count, size, a, PSEUDO);
      UnlimitedLength(size, a);
      UnlimitedLength(size, b);
    }
  }

  lemma LastBetween(size: seq<nat>, z: nat)
    requires |size| == NUM_SYMBOLS && 1 <= z <= size[PSEUDO]
    ensures Between(size, 1, z, NUM_SYMBOLS) == Between(size, 1, z, PSEUDO)
    ensures Between(size, 1, z + 1, NUM_SYMBOLS) == Between(size, 1, z + 1, PSEUDO) + if size[PSEUDO] <= z then 1 else 0
  {
  }

  /** The 19th Fibonacci number: for smaller totals no size exceeds sixteen. */
  lemma SmallTotalsAreNotLimited(counts: seq<nat>, t: HuffTable)
    requires |counts| == NUM_SYMBOLS && Generated(counts, t) && Total(WithPseudo(counts)) < 4181
    ensures AtMostSixteen(SizesOf(WithPseudo(counts)))
  {
    hide Total, KraftOver, Fib, SizesOf, IsOptimal, Listing;
    var size := SizesOf(WithPseudo(counts));
    forall s | 0 <= s < |size| ensures size[s] <= 16 {
      if size[s] > 16 {
        FibMonotone(19, size[s] + 2);
        Fib19();
      }
    }
  }

  lemma Fib19()
    ensures Fib(19) == 4181
  {
    assert Fib(10) == 55 && Fib(11) == 89;
  }
}
