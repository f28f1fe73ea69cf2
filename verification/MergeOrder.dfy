/** In which order Huffman's algorithm merges trees, ties included, and the sizes that come of it (section K.2 of
    ITU-T T.81). Each symbol knows which symbol stands for its tree; how the trees are linked does not matter. */
module MergeOrder {

  function NonZero(freq: seq<nat>, n: nat): nat
    requires n <= |freq|
  {
    if n == 0 then 0 else NonZero(freq, n - 1) + if freq[n - 1] > 0 then 1 else 0
  }

  lemma {:induction false} OneZeroMore(freq: seq<nat>, c1: nat, v: nat, c2: nat, n: nat)
    requires n <= |freq| && c1 < |freq| && c2 < |freq| && c1 != c2 && freq[c1] > 0 && freq[c2] > 0 && v > 0
    ensures NonZero(freq[c1 := v][c2 := 0], n) == NonZero(freq, n) - if c2 < n then 1 else 0
  {
    if n > 0 { OneZeroMore(freq, c1, v, c2, n - 1); }
  }

  /** `c` has the smallest nonzero count of the first `n` apart from `except`; of several, it is the largest symbol; it
      is -1 if there is none. */
  predicate IsSmallest(freq: seq<nat>, except: int, n: nat, c: int)
    requires n <= |freq|
  {
    && -1 <= c < n
    && (c == -1 ==> forall i :: 0 <= i < n && i != except ==> freq[i] == 0)
    && (c >= 0 ==> c != except && freq[c] > 0)
    && (c >= 0 ==> forall i :: 0 <= i < n && i != except && freq[i] > 0 ==>
                     freq[c] <= freq[i] && (freq[c] == freq[i] ==> i <= c))
  }

  function Smallest(freq: seq<nat>, except: int, n: nat): (c: int)
    requires n <= |freq|
    ensures IsSmallest(freq, except, n, c)
  {
    if n == 0 then -1
    else
      var c := Smallest(freq, except, n - 1);
      if n - 1 != except && freq[n - 1] > 0 && (c < 0 || freq[n - 1] <= freq[c]) then n - 1 else c
  }

  lemma SmallestIs(freq: seq<nat>, except: int, n: nat, c: int)
    requires n <= |freq| && IsSmallest(freq, except, n, c)
    ensures Smallest(freq, except, n) == c
  {
  }

  /** The counts of the trees, by the symbol that stands for each; the tree of each symbol; the sizes so far. */
  datatype Merging = Merging(freq: seq<nat>, tree: seq<nat>, size: seq<nat>)

  predicate Sized(m: Merging) { |m.tree| == |m.freq| == |m.size| }

  function Start(count: seq<nat>): (m: Merging)
    ensures Sized(m)
  {
    Merging(count, seq(|count|, s => s), seq(|count|, _ => 0))
  }

  /** The tree of `c2` becomes a part of that of `c1`. */
  function Merge(m: Merging, c1: nat, c2: nat): (r: Merging)
    requires Sized(m) && c1 < |m.freq| && c2 < |m.freq|
    ensures Sized(r) && |r.freq| == |m.freq|
  {
    Merging(m.freq[c1 := m.freq[c1] + m.freq[c2]][c2 := 0],
            seq(|m.tree|, s requires 0 <= s < |m.tree| => if m.tree[s] == c2 then c1 else m.tree[s]),
            seq(|m.size|, s requires 0 <= s < |m.size| =>
              m.size[s] + if m.tree[s] == c1 || m.tree[s] == c2 then 1 else 0))
  }

  /** Merge the two trees with the smallest counts until only one is left. */
  function FinalSizes(m: Merging): (size: seq<nat>)
    requires Sized(m)
    ensures |size| == |m.size|
    decreases NonZero(m.freq, |m.freq|)
  {
    var n := |m.freq|;
    var c1 := Smallest(m.freq, -1, n);
    var c2 := Smallest(m.freq, c1, n);
    if c1 < 0 || c2 < 0 then m.size
    else
      OneZeroMore(m.freq, c1, m.freq[c1] + m.freq[c2], c2, n);
      FinalSizes(Merge(m, c1, c2))
  }

  /** The code sizes for the given counts. */
  function SizesOf(count: seq<nat>): (size: seq<nat>)
    ensures |size| == |count|
  {
    FinalSizes(Start(count))
  }

  /** One merge of the two smallest. */
  lemma MergeStep(m: Merging, c1: nat, c2: nat)
    requires Sized(m) && c1 < |m.freq| && c2 < |m.freq|
    requires IsSmallest(m.freq, -1, |m.freq|, c1) && IsSmallest(m.freq, c1, |m.freq|, c2)
    ensures FinalSizes(m) == FinalSizes(Merge(m, c1, c2))
  {
    SmallestIs(m.freq, -1, |m.freq|, c1);
    SmallestIs(m.freq, c1, |m.freq|, c2);
  }

  /** Nothing is left to merge. */
  lemma MergingEnds(m: Merging, c1: nat)
    requires Sized(m) && c1 < |m.freq|
    requires IsSmallest(m.freq, -1, |m.freq|, c1) && IsSmallest(m.freq, c1, |m.freq|, -1)
    ensures FinalSizes(m) == m.size
  {
    SmallestIs(m.freq, -1, |m.freq|, c1);
    SmallestIs(m.freq, c1, |m.freq|, -1);
  }
}
