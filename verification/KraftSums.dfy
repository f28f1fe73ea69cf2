/** Sums over sets of symbols: of their counts, and of what their code words take of the code space. */
module KraftSums {

  function Used(count: seq<nat>): set<nat> { set s | 0 <= s < |count| && count[s] > 0 }

  /** What a code word of length `d` takes of the code space. */
  function Share(d: nat): (w: real)
    ensures w > 0.0
  {
    if d == 0 then 1.0 else Share(d - 1) / 2.0
  }

  function SumOver(count: seq<nat>, s: set<nat>, n: nat): nat
    requires n <= |count|
  {
    if n == 0 then 0 else SumOver(count, s, n - 1) + if n - 1 in s then count[n - 1] else 0
  }

  function KraftOver(size: seq<nat>, s: set<nat>, n: nat): real
    requires n <= |size|
  {
    if n == 0 then 0.0 else KraftOver(size, s, n - 1) + if n - 1 in s then Share(size[n - 1]) else 0.0
  }

  lemma {:induction false} SumOfUnion(count: seq<nat>, s: set<nat>, t: set<nat>, n: nat)
    requires n <= |count| && s !! t
    ensures SumOver(count, s + t, n) == SumOver(count, s, n) + SumOver(count, t, n)
  {
    if n > 0 { SumOfUnion(count, s, t, n - 1); }
  }

  lemma {:induction false} KraftOfUnion(size: seq<nat>, s: set<nat>, t: set<nat>, n: nat)
    requires n <= |size| && s !! t
    ensures KraftOver(size, s + t, n) == KraftOver(size, s, n) + KraftOver(size, t, n)
  {
    if n > 0 { KraftOfUnion(size, s, t, n - 1); }
  }

  /** One bit more for every symbol of the set halves its part of the code space. */
  lemma {:induction false} KraftHalves(size: seq<nat>, longer: seq<nat>, s: set<nat>, n: nat)
    requires n <= |size| == |longer| && forall i :: 0 <= i < n && i in s ==> longer[i] == size[i] + 1
    ensures KraftOver(longer, s, n) == KraftOver(size, s, n) / 2.0
  {
    if n > 0 { KraftHalves(size, longer, s, n - 1); }
  }

  lemma {:induction false} KraftSame(size: seq<nat>, other: seq<nat>, s: set<nat>, n: nat)
    requires n <= |size| == |other| && forall i :: 0 <= i < n && i in s ==> other[i] == size[i]
    ensures KraftOver(other, s, n) == KraftOver(size, s, n)
  {
    if n > 0 { KraftSame(size, other, s, n - 1); }
  }

  lemma {:induction false} KraftOfOne(size: seq<nat>, c: nat, n: nat)
    requires n <= |size|
    ensures KraftOver(size, {c}, n) == if c < n then Share(size[c]) else 0.0
  {
    if n > 0 { KraftOfOne(size, c, n - 1); }
  }

  lemma {:induction false} SumOfOne(count: seq<nat>, c: nat, n: nat)
    requires n <= |count|
    ensures SumOver(count, {c}, n) == if c < n then count[c] else 0
  {
    if n > 0 { SumOfOne(count, c, n - 1); }
  }

  lemma {:induction false} SumOfPart(count: seq<nat>, s: set<nat>, t: set<nat>, n: nat)
    requires n <= |count| && s <= t
    ensures SumOver(count, s, n) <= SumOver(count, t, n)
  {
    if n > 0 { SumOfPart(count, s, t, n - 1); }
  }
}
