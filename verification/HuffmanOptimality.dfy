/** Merging the two lightest trees is best: why the sizes that Huffman's algorithm assigns have the least total cost of
    all sizes that a prefix code can have (section K.2 of ITU-T T.81). */
module HuffmanOptimality {
  import opened Arithmetic
  import opened KraftSums

  /** How many bits all occurrences take together, with code words of the lengths `len`. */
  function Cost(count: seq<nat>, len: seq<nat>, n: nat): nat
    requires n <= |count| && n <= |len|
  {
    if n == 0 then 0 else Cost(count, len, n - 1) + count[n - 1] * len[n - 1]
  }

  /** Lengths of the words of some prefix code for the symbols with a count. */
  ghost predicate IsPrefixCode(count: seq<nat>, len: seq<nat>)
    requires |len| == |count|
  {
    KraftOver(len, Used(count), |count|) <= 1.0
  }

  /** No prefix code for these symbols does with fewer bits. */
  ghost predicate IsOptimal(count: seq<nat>, size: seq<nat>)
    requires |size| == |count|
  {
    forall len :: |len| == |count| && IsPrefixCode(count, len) ==> Cost(count, size, |count|) <= Cost(count, len, |count|)
  }

  // ---------------------------------------------------------------- changing one length

  lemma {:induction false} CostUpdate(count: seq<nat>, len: seq<nat>, i: nat, f: nat, v: nat, n: nat)
    requires n <= |count| == |len| && i < |count|
    ensures Cost(count[i := f], len[i := v], n)
            == Cost(count, len, n) + if i < n then f * v - count[i] * len[i] else 0
  {
    if n > 0 { CostUpdate(count, len, i, f, v, n - 1); }
  }

  lemma {:induction false} KraftUpdate(len: seq<nat>, i: nat, v: nat, s: set<nat>, n: nat)
    requires n <= |len| && i < |len|
    ensures KraftOver(len[i := v], s, n)
            == KraftOver(len, s, n) + if i < n && i in s then Share(v) - Share(len[i]) else 0.0
  {
    if n > 0 { KraftUpdate(len, i, v, s, n - 1); }
  }

  lemma {:induction false} KraftWithout(len: seq<nat>, c: nat, s: set<nat>, n: nat)
    requires n <= |len| && c in s && c < n
    ensures KraftOver(len, s, n) == KraftOver(len, s - {c}, n) + Share(len[c])
  {
    KraftOfUnion(len, s - {c}, {c}, n);
    assert s - {c} + {c} == s;
    KraftOfOne(len, c, n);
  }

  /** One bit more for every symbol of a set costs as many bits as they occur. */
  lemma {:induction false} CostGrows(count: seq<nat>, size: seq<nat>, longer: seq<nat>, s: set<nat>, n: nat)
    requires n <= |count| == |size| == |longer|
    requires forall i :: 0 <= i < n ==> longer[i] == size[i] + if i in s then 1 else 0
    ensures Cost(count, longer, n) == Cost(count, size, n) + SumOver(count, s, n)
  {
    if n > 0 { CostGrows(count, size, longer, s, n - 1); }
  }

  // ---------------------------------------------------------------- exchanging lengths

  function Exchanged(len: seq<nat>, x: nat, y: nat): (r: seq<nat>)
    requires x < |len| && y < |len|
    ensures |r| == |len|
  {
    len[x := len[y]][y := len[x]]
  }

  lemma ExchangeKeepsCode(freq: seq<nat>, len: seq<nat>, x: nat, y: nat)
    requires |len| == |freq| && IsPrefixCode(freq, len) && x in Used(freq) && y in Used(freq)
    ensures IsPrefixCode(freq, Exchanged(len, x, y))
    ensures Cost(freq, Exchanged(len, x, y), |freq|)
            == Cost(freq, len, |freq|) + freq[x] * len[y] + freq[y] * len[x] - freq[x] * len[x] - freq[y] * len[y]
  {
    hide Cost, KraftOver, Share;
    var n, mid := |freq|, len[x := len[y]];
    KraftUpdate(len, x, len[y], Used(freq), n);
    KraftUpdate(mid, y, len[x], Used(freq), n);
    CostUpdate(freq, len, x, freq[x], len[y], n);
    CostUpdate(freq, mid, y, freq[y], len[x], n);
    assert freq[x := freq[x]] == freq && freq[y := freq[y]] == freq;
  }

  /** A lighter tree may have the longer of two lengths. */
  lemma ExchangeHelps(freq: seq<nat>, len: seq<nat>, x: nat, y: nat)
    requires |len| == |freq| && IsPrefixCode(freq, len) && x in Used(freq) && y in Used(freq)
    requires freq[x] <= freq[y] && len[x] <= len[y]
    ensures IsPrefixCode(freq, Exchanged(len, x, y))
    ensures Cost(freq, Exchanged(len, x, y), |freq|) <= Cost(freq, len, |freq|)
  {
    hide Cost, IsPrefixCode, Exchanged;
    ExchangeKeepsCode(freq, len, x, y);
    ProductsExchange(freq[x], freq[y], len[x], len[y]);
  }

  lemma ProductsExchange(f: nat, g: nat, l: nat, m: nat)
    requires f <= g && l <= m
    ensures f * m + g * l <= f * l + g * m
    ensures f < g && l < m ==> f * m + g * l < f * l + g * m
  {
    assert (g - f) * (m - l) == g * m - g * l - f * m + f * l;
  }

  /** Of the trees in `s` with indices below `n`, one with the greatest length. */
  lemma {:induction false} Longest(len: seq<nat>, s: set<nat>, n: nat) returns (x: nat)
    requires n <= |len| && exists c :: 0 <= c < n && c in s
    ensures x < n && x in s && forall c :: 0 <= c < n && c in s ==> len[c] <= len[x]
  {
    if exists c :: 0 <= c < n - 1 && c in s {
      x := Longest(len, s, n - 1);
      if n - 1 in s && len[n - 1] > len[x] { x := n - 1; }
    } else {
      x := n - 1;
    }
  }

  /** The two lightest trees may have the two greatest lengths. */
  lemma LightestAreDeepest(freq: seq<nat>, len: seq<nat>, c1: nat, c2: nat) returns (deep: seq<nat>)
    requires |len| == |freq| && IsPrefixCode(freq, len) && c1 in Used(freq) && c2 in Used(freq) && c1 != c2
    requires forall c :: c in Used(freq) && c != c1 ==> freq[c1] <= freq[c2] <= freq[c]
    ensures |deep| == |freq| && IsPrefixCode(freq, deep) && Cost(freq, deep, |freq|) <= Cost(freq, len, |freq|)
    ensures deep[c1] >= deep[c2] && forall c :: c in Used(freq) && c != c1 ==> deep[c] <= deep[c2]
  {
    hide Cost, KraftOver;
    var n, s := |freq|, Used(freq);
    var x := Longest(len, s, n);
    var once := Exchanged(len, c1, x);
    ExchangeHelps(freq, len, c1, x);
    assert forall c :: c in s ==> once[c] <= once[c1];
    assert c2 in s - {c1} && 0 <= c2 < n;
    var y := Longest(once, s - {c1}, n);
    deep := Exchanged(once, c2, y);
    ExchangeHelps(freq, once, c2, y);
  }

  // ---------------------------------------------------------------- room in the code space

  /** With no length above `m`, the part taken is a multiple of 2^-m. */
  lemma {:induction false} KraftIsMultiple(len: seq<nat>, s: set<nat>, m: nat, n: nat) returns (k: nat)
    requires n <= |len| && forall c :: 0 <= c < n && c in s ==> len[c] <= m
    ensures KraftOver(len, s, n) == k as real * Share(m)
  {
    if n == 0 {
      k := 0;
    } else {
      k := KraftIsMultiple(len, s, m, n - 1);
      if n - 1 in s {
        ShareIsMultiple(len[n - 1], m);
        var j := Pow2(m - len[n - 1]);
        assert k as real * Share(m) + j as real * Share(m) == (k + j) as real * Share(m);
        k := k + j;
      }
    }
  }

  lemma {:induction false} ShareIsMultiple(d: nat, m: nat)
    requires d <= m
    ensures Share(d) == Pow2(m - d) as real * Share(m)
    decreases m
  {
    if d < m {
      ShareIsMultiple(d, m - 1);
      assert Pow2(m - d) == 2 * Pow2(m - 1 - d);
    }
  }

  /** If a part of multiples of 2^-m, a word of length `m` and one more fit, two words of length `m` fit. */
  lemma RoomForTwo(rest: real, k: nat, m: nat, l: nat)
    requires rest == k as real * Share(m) && rest + Share(m) + Share(l) <= 1.0
    ensures m >= 1 && rest + Share(m - 1) <= 1.0
  {
    ShareIsMultiple(0, m);
    var w, p := Share(m), Pow2(m);
    assert (k + 1) as real * w == k as real * w + w;
    SmallerFactor(k + 1, p, w);
    assert (k + 2) as real * w == k as real * w + 2.0 * w;
    assert (p - (k + 2)) as real * w >= 0.0;
    assert (p - (k + 2)) as real * w == p as real * w - (k + 2) as real * w;
    assert m >= 1;
  }

  lemma SmallerFactor(a: int, b: int, w: real)
    requires w > 0.0 && a as real * w < b as real * w
    ensures a < b
  {
  }

  // ---------------------------------------------------------------- one merge

  /** What is left to decide: whatever prefix code is taken for the symbols, there is one for the trees that, with the
      sizes assigned so far, needs no more bits. */
  ghost predicate Reduces(count: seq<nat>, size: seq<nat>, freq: seq<nat>) {
    && |count| == |size| == |freq|
    && forall len :: |len| == |count| && IsPrefixCode(count, len) ==> HasReduced(count, size, freq, len)
  }

  ghost predicate HasReduced(count: seq<nat>, size: seq<nat>, freq: seq<nat>, len: seq<nat>)
    requires |count| == |size| == |freq| == |len|
  {
    exists deep :: |deep| == |freq| && IsPrefixCode(freq, deep)
                   && Cost(freq, deep, |count|) + Cost(count, size, |count|) <= Cost(count, len, |count|)
  }

  /** A code for the trees gives one for the trees after the merge, with as many bits less as the merge costs. */
  lemma CodeAfterMerge(freq: seq<nat>, len: seq<nat>, c1: nat, c2: nat) returns (short: seq<nat>)
    requires |len| == |freq| && IsPrefixCode(freq, len) && c1 in Used(freq) && c2 in Used(freq) && c1 != c2
    requires forall c :: c in Used(freq) && c != c1 ==> freq[c1] <= freq[c2] <= freq[c]
    ensures var merged := freq[c1 := freq[c1] + freq[c2]][c2 := 0];
            && |short| == |freq| && IsPrefixCode(merged, short)
            && Cost(merged, short, |freq|) + freq[c1] + freq[c2] <= Cost(freq, len, |freq|)
  {
    var deep := LightestAreDeepest(freq, len, c1, c2);
    short := MergedCode(freq, deep, c1, c2);
  }

  lemma MergedCode(freq: seq<nat>, deep: seq<nat>, c1: nat, c2: nat) returns (short: seq<nat>)
    requires |deep| == |freq| && IsPrefixCode(freq, deep) && c1 in Used(freq) && c2 in Used(freq) && c1 != c2
    requires deep[c1] >= deep[c2] && forall c :: c in Used(freq) && c != c1 ==> deep[c] <= deep[c2]
    ensures var merged := freq[c1 := freq[c1] + freq[c2]][c2 := 0];
            && |short| == |freq| && IsPrefixCode(merged, short)
            && Cost(merged, short, |freq|) + freq[c1] + freq[c2] <= Cost(freq, deep, |freq|)
  {
    hide Cost, KraftOver, Share;
    var n, s, m := |freq|, Used(freq), deep[c2];
    var others := s - {c1} - {c2};
    KraftWithout(deep, c1, s, n);
    KraftWithout(deep, c2, s - {c1}, n);
    var k := KraftIsMultiple(deep, others, m, n);
    RoomForTwo(KraftOver(deep, others, n), k, m, deep[c1]);
    var half := freq[c1 := freq[c1] + freq[c2]];
    short := deep[c1 := m - 1];
    var merged := half[c2 := 0];
    assert Used(merged) == others + {c1};
    KraftWithout(short, c1, others + {c1}, n);
    assert others + {c1} - {c1} == others;
    KraftSame(deep, short, others, n);
    CostUpdate(freq, deep, c1, freq[c1] + freq[c2], m - 1, n);
    CostUpdate(half, short, c2, 0, m, n);
    assert short[c2 := m] == short;
    MergeCost(freq[c1], freq[c2], deep[c1], m);
  }

  lemma MergeCost(f: nat, g: nat, l: nat, m: nat)
    requires l >= m >= 1
    ensures (f + g) * (m - 1) + f + g <= f * l + g * m
  {
    assert f * (l - m) >= 0;
  }

  /** Merging the two lightest trees loses nothing. */
  lemma MergeReduces(count: seq<nat>, size: seq<nat>, longer: seq<nat>, freq: seq<nat>, c1: nat, c2: nat, s: set<nat>)
    requires Reduces(count, size, freq) && |longer| == |count|
    requires c1 in Used(freq) && c2 in Used(freq) && c1 != c2
    requires forall c :: c in Used(freq) && c != c1 ==> freq[c1] <= freq[c2] <= freq[c]
    requires forall i :: 0 <= i < |count| ==> longer[i] == size[i] + if i in s then 1 else 0
    requires SumOver(count, s, |count|) == freq[c1] + freq[c2]
    ensures Reduces(count, longer, freq[c1 := freq[c1] + freq[c2]][c2 := 0])
  {
    hide Cost, SumOver, IsPrefixCode;
    var n, merged := |count|, freq[c1 := freq[c1] + freq[c2]][c2 := 0];
    CostGrows(count, size, longer, s, n);
    forall len | |len| == n && IsPrefixCode(count, len) ensures HasReduced(count, longer, merged, len) {
      assert HasReduced(count, size, freq, len);
      var deep :| |deep| == n && IsPrefixCode(freq, deep) && Cost(freq, deep, n) + Cost(count, size, n) <= Cost(count, len, n);
      var short := CodeAfterMerge(freq, deep, c1, c2);
    }
  }

  /** At the start nothing is decided. */
  lemma NothingReduced(count: seq<nat>, size: seq<nat>)
    requires |size| == |count| && forall s :: 0 <= s < |count| ==> size[s] == 0
    ensures Reduces(count, size, count)
  {
    NoCost(count, size, |count|);
  }

  lemma {:induction false} NoCost(count: seq<nat>, size: seq<nat>, n: nat)
    requires n <= |size| == |count| && forall s :: 0 <= s < n ==> size[s] == 0
    ensures Cost(count, size, n) == 0
  {
    if n > 0 { NoCost(count, size, n - 1); }
  }

  /** In the end everything is. */
  lemma AllReduced(count: seq<nat>, size: seq<nat>, freq: seq<nat>)
    requires Reduces(count, size, freq)
    ensures IsOptimal(count, size)
  {
    hide Cost, IsPrefixCode;
    forall len | |len| == |count| && IsPrefixCode(count, len) ensures Cost(count, size, |count|) <= Cost(count, len, |count|) {
      assert HasReduced(count, size, freq, len);
    }
  }

  // ---------------------------------------------------------------- what it means for two symbols

  /** Of two symbols, the one that occurs more often has no longer size. */
  lemma HeavierIsNotLonger(count: seq<nat>, size: seq<nat>, a: nat, b: nat)
    requires |size| == |count| && IsOptimal(count, size) && IsPrefixCode(count, size)
    requires a < |count| && b < |count| && count[a] > count[b] > 0
    ensures size[a] <= size[b]
  {
    hide Cost, IsPrefixCode, Exchanged;
    if size[a] > size[b] {
      ExchangeKeepsCode(count, size, b, a);
      ProductsExchange(count[b], count[a], size[b], size[a]);
    }
  }
}
