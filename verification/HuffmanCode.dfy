/** Canonical Huffman codes given by the number of codes of each length (annex C of ITU-T T.81): the code words, why
    no word is a prefix of another, and decoding by comparison with the largest code of each length. */
module HuffmanCode {
  import opened Arithmetic

  // ---------------------------------------------------------------- bit strings

  /** The low `n` bits of `v`, highest first. */
  function BitsOf(v: nat, n: nat): (s: seq<bool>)
    ensures |s| == n
    decreases n
  {
    if n == 0 then [] else BitsOf(v / 2, n - 1) + [v % 2 == 1]
  }

  /** The number that a bit string spells. */
  function ValueOf(s: seq<bool>): (v: nat)
    ensures v < Pow2(|s|)
  {
    if s == [] then 0 else 2 * ValueOf(s[..|s| - 1]) + if s[|s| - 1] then 1 else 0
  }

  lemma {:induction false} BitsOfValue(s: seq<bool>)
    ensures BitsOf(ValueOf(s), |s|) == s
    decreases |s|
  {
    if s != [] { BitsOfValue(s[..|s| - 1]); }
  }

  lemma {:induction false} ValueOfBits(v: nat, n: nat)
    requires v < Pow2(n)
    ensures ValueOf(BitsOf(v, n)) == v
    decreases n
  {
    if n > 0 {
      ValueOfBits(v / 2, n - 1);
      assert BitsOf(v, n)[..n - 1] == BitsOf(v / 2, n - 1);
    }
  }

  /** `v << n`, by doubling. */
  function ShiftLeft(v: nat, n: nat): nat
    decreases n
  {
    if n == 0 then v else 2 * ShiftLeft(v, n - 1)
  }

  lemma {:induction false} ShiftNext(v: nat, n: nat)
    ensures ShiftLeft(v + 1, n) == ShiftLeft(v, n) + Pow2(n)
    decreases n
  {
    if n > 0 { ShiftNext(v, n - 1); }
  }

  lemma {:induction false} ShiftGrows(v: nat, w: nat, n: nat)
    requires v <= w
    ensures ShiftLeft(v, n) <= ShiftLeft(w, n)
    decreases n
  {
    if n > 0 { ShiftGrows(v, w, n - 1); }
  }

  lemma {:induction false} ShiftTwice(v: nat, m: nat, n: nat)
    ensures ShiftLeft(ShiftLeft(v, m), n) == ShiftLeft(v, m + n)
    decreases n
  {
    if n > 0 { ShiftTwice(v, m, n - 1); }
  }

  lemma {:induction false} ShiftOfPower(m: nat, n: nat)
    ensures ShiftLeft(Pow2(m), n) == Pow2(m + n)
    decreases n
  {
    if n > 0 { ShiftOfPower(m, n - 1); }
  }

  lemma {:induction false} ShiftIsProduct(v: nat, n: nat)
    ensures ShiftLeft(v, n) == v * Pow2(n)
    decreases n
  {
    if n > 0 {
      ShiftIsProduct(v, n - 1);
      assert v * (2 * Pow2(n - 1)) == 2 * (v * Pow2(n - 1));
    }
  }

  /** The bits of a number in two parts. */
  lemma {:induction false} BitsOfSum(a: nat, b: nat, m: nat, n: nat)
    requires b < Pow2(n)
    ensures BitsOf(ShiftLeft(a, n) + b, m + n) == BitsOf(a, m) + BitsOf(b, n)
    decreases n
  {
    if n == 0 {
      assert BitsOf(a, m) + [] == BitsOf(a, m);
    } else {
      BitsOfSum(a, b / 2, m, n - 1);
    }
  }

  /** Bits above the lowest `n` do not matter. */
  lemma {:induction false} BitsOfRemainder(v: nat, w: nat, k: nat, n: nat)
    requires v == w + ShiftLeft(k, n)
    ensures BitsOf(v, n) == BitsOf(w, n)
    decreases n
  {
    if n > 0 { BitsOfRemainder(v / 2, w / 2, k, n - 1); }
  }

  // ---------------------------------------------------------------- the code

  /** Numbers of codes by length, as a byte each; index 0 is not used. */
  predicate IsLengths(bits: seq<nat>) {
    |bits| == 17 && forall l :: 1 <= l <= 16 ==> bits[l] <= 255
  }

  /** How many codes there are of length up to `l`. */
  function Count(bits: seq<nat>, l: nat): (n: nat)
    requires |bits| == 17 && l <= 16
    decreases l
  {
    if l == 0 then 0 else Count(bits, l - 1) + bits[l]
  }

  /** The first code of length `l`: codes of one length are consecutive, and a bit is appended to the next free
      code for the next length. */
  function First(bits: seq<nat>, l: nat): nat
    requires |bits| == 17 && 1 <= l <= 17
    decreases l
  {
    if l == 1 then 0 else 2 * (First(bits, l - 1) + bits[l - 1])
  }

  /** Past the last code of length `l`. */
  function Past(bits: seq<nat>, l: nat): nat
    requires |bits| == 17 && 1 <= l <= 16
  {
    First(bits, l) + bits[l]
  }

  /** The lengths make a code in which no word consists of ones only. */
  predicate Legal(bits: seq<nat>) {
    IsLengths(bits) && Count(bits, 16) <= 256 && forall l :: 1 <= l <= 16 ==> Past(bits, l) < Pow2(l)
  }

  predicate IsCode(bits: seq<nat>, l: nat, code: nat) {
    |bits| == 17 && 1 <= l <= 16 && First(bits, l) <= code < Past(bits, l)
  }

  /** Which symbol, in order of code length, has the code. */
  function IndexOf(bits: seq<nat>, l: nat, code: nat): nat
    requires IsCode(bits, l, code)
  {
    Count(bits, l - 1) + (code - First(bits, l))
  }

  lemma {:induction false} CountGrows(bits: seq<nat>, l: nat, m: nat)
    requires |bits| == 17 && l <= m <= 16
    ensures Count(bits, l) <= Count(bits, m)
    decreases m
  {
    if l < m { CountGrows(bits, l, m - 1); }
  }

  lemma IndexInRange(bits: seq<nat>, l: nat, code: nat)
    requires IsCode(bits, l, code)
    ensures IndexOf(bits, l, code) < Count(bits, l) <= Count(bits, 16)
  {
    CountGrows(bits, l, 16);
  }

  /** The length of the code of the symbol with index `p`. */
  function LengthAt(bits: seq<nat>, p: nat, l: nat): (r: nat)
    requires |bits| == 17 && l <= 16 && Count(bits, l) <= p < Count(bits, 16)
    ensures l < r <= 16 && Count(bits, r - 1) <= p < Count(bits, r)
    decreases 16 - l
  {
    if p < Count(bits, l + 1) then l + 1 else LengthAt(bits, p, l + 1)
  }

  function Length(bits: seq<nat>, p: nat): (l: nat)
    requires |bits| == 17 && p < Count(bits, 16)
    ensures 1 <= l <= 16 && Count(bits, l - 1) <= p < Count(bits, l)
  {
    LengthAt(bits, p, 0)
  }

  function Code(bits: seq<nat>, p: nat): (code: nat)
    requires |bits| == 17 && p < Count(bits, 16)
    ensures IsCode(bits, Length(bits, p), code) && IndexOf(bits, Length(bits, p), code) == p
  {
    First(bits, Length(bits, p)) + (p - Count(bits, Length(bits, p) - 1))
  }

  function Word(bits: seq<nat>, p: nat): (w: seq<bool>)
    requires |bits| == 17 && p < Count(bits, 16)
    ensures |w| == Length(bits, p)
  {
    BitsOf(Code(bits, p), Length(bits, p))
  }

  /** The codes of length `m` come after everything that the codes of length `l` start with. */
  lemma {:induction false} LaterCodesAreLarger(bits: seq<nat>, l: nat, m: nat)
    requires |bits| == 17 && 1 <= l < m <= 17
    ensures First(bits, m) >= ShiftLeft(Past(bits, l), m - l)
    decreases m
  {
    if m == l + 1 {
      assert ShiftLeft(Past(bits, l), 0) == Past(bits, l);
    } else {
      LaterCodesAreLarger(bits, l, m - 1);
    }
  }

  // ---------------------------------------------------------------- decoding

  /** Compare with the codes of length 1, 2 and so on until one fits; `code` is the value of the bits taken.
      Gives the symbol's index, None for a string that starts with no code word; needs `More` when the string
      ends too early. */
  datatype Match = More | NoCode | Found(index: nat, length: nat)

  function MatchFrom(bits: seq<nat>, s: seq<bool>, l: nat, code: nat): (m: Match)
    requires |bits| == 17 && 1 <= l <= 17 && l <= |s|
    requires First(bits, l) <= code
    ensures m.Found? ==> m.index < Count(bits, 16) && l <= m.length <= 16 && m.length <= |s|
    decreases 17 - l
  {
    if l == 17 then NoCode
    else if code < Past(bits, l) then
      IndexInRange(bits, l, code);
      Found(IndexOf(bits, l, code), l)
    else if |s| == l then More
    else MatchFrom(bits, s, l + 1, 2 * code + if s[l] then 1 else 0)
  }

  function MatchWord(bits: seq<nat>, s: seq<bool>): (m: Match)
    requires |bits| == 17
    ensures m.Found? ==> m.index < Count(bits, 16) && 1 <= m.length <= 16 && m.length <= |s|
  {
    if s == [] then More else MatchFrom(bits, s, 1, if s[0] then 1 else 0)
  }

  lemma ValueOfLonger(s: seq<bool>, l: nat)
    requires l < |s|
    ensures ValueOf(s[..l + 1]) == 2 * ValueOf(s[..l]) + if s[l] then 1 else 0
  {
    assert s[..l + 1][..l] == s[..l];
  }

  /** While the word is longer than what has been taken, no shorter code fits; then its own code does. */
  lemma {:induction false} MatchFromFinds(bits: seq<nat>, s: seq<bool>, l: nat, p: nat)
    requires |bits| == 17 && p < Count(bits, 16)
    requires 1 <= l <= Length(bits, p) <= |s| && ValueOf(s[..Length(bits, p)]) == Code(bits, p)
    ensures First(bits, l) <= ValueOf(s[..l])
    ensures MatchFrom(bits, s, l, ValueOf(s[..l])) == Found(p, Length(bits, p))
    decreases Length(bits, p) - l
  {
    hide ValueOf, Length, LengthAt, Code, Count;
    var m := Length(bits, p);
    if l < m {
      TakenIsPast(bits, s, l, p);
      MatchFromFinds(bits, s, l + 1, p);
      ValueOfLonger(s, l);
    }
  }

  lemma TakenIsPast(bits: seq<nat>, s: seq<bool>, l: nat, p: nat)
    requires |bits| == 17 && p < Count(bits, 16)
    requires 1 <= l < Length(bits, p) <= |s| && ValueOf(s[..Length(bits, p)]) == Code(bits, p)
    ensures ValueOf(s[..l]) >= Past(bits, l)
  {
    hide First, ValueOf, Count, Length, LengthAt, Code, ShiftLeft, Pow2;
    var m := Length(bits, p);
    LaterCodesAreLarger(bits, l, m);
    ValueOfPrefix(s, l, m);
    var v, w := ValueOf(s[..l]), Past(bits, l);
    if v < w {
      ShiftGrows(v + 1, w, m - l);
      ShiftNext(v, m - l);
    }
  }

  lemma {:induction false} ValueOfPrefix(s: seq<bool>, l: nat, m: nat)
    requires l <= m <= |s|
    ensures ShiftLeft(ValueOf(s[..l]), m - l) <= ValueOf(s[..m]) < ShiftLeft(ValueOf(s[..l]), m - l) + Pow2(m - l)
    decreases m
  {
    if l < m {
      ValueOfPrefix(s, l, m - 1);
      ValueOfLonger(s, m - 1);
      hide ValueOf;
    }
  }

  /** Every symbol is found again behind its code word, whatever follows. */
  lemma WordIsFound(bits: seq<nat>, p: nat, rest: seq<bool>)
    requires Legal(bits) && p < Count(bits, 16)
    ensures MatchWord(bits, Word(bits, p) + rest) == Found(p, Length(bits, p))
  {
    var w := Word(bits, p);
    var s := w + rest;
    assert s[..|w|] == w;
    ValueOfBits(Code(bits, p), Length(bits, p));
    MatchFromFinds(bits, s, 1, p);
    assert s[..1] == [s[0]];
    assert ValueOf([s[0]]) == 2 * ValueOf([]) + if s[0] then 1 else 0 by { assert [s[0]][..0] == []; }
  }

  /** No code word is a prefix of another. */
  lemma PrefixFree(bits: seq<nat>, p: nat, q: nat)
    requires Legal(bits) && p < Count(bits, 16) && q < Count(bits, 16) && p != q
    ensures !(Word(bits, p) <= Word(bits, q))
  {
    hide Word, Length, MatchWord, BitsOf, Past, Count, Pow2;
    if Word(bits, p) <= Word(bits, q) {
      var rest := Word(bits, q)[|Word(bits, p)|..];
      assert Word(bits, p) + rest == Word(bits, q) && Word(bits, q) + [] == Word(bits, q);
      WordIsFound(bits, p, rest);
      WordIsFound(bits, q, []);
    }
  }

  /** No code word is all ones. */
  lemma NotAllOnes(bits: seq<nat>, p: nat)
    requires Legal(bits) && p < Count(bits, 16)
    ensures exists i :: 0 <= i < |Word(bits, p)| && !Word(bits, p)[i]
  {
    var n := Length(bits, p);
    ValueOfBits(Code(bits, p), n);
    if forall i :: 0 <= i < n ==> Word(bits, p)[i] {
      OnesValue(Word(bits, p));
    }
  }

  lemma {:induction false} OnesValue(s: seq<bool>)
    requires forall i :: 0 <= i < |s| ==> s[i]
    ensures ValueOf(s) == Pow2(|s|) - 1
    decreases |s|
  {
    if s != [] { OnesValue(s[..|s| - 1]); }
  }
}
