/** Limiting code lengths to sixteen (the second half of jpeg_gen_optimal_table in jchuff.c): counts of code lengths that
    fill the code space keep filling it, and keep their number, while the longest pairs are removed. */
module LengthLimit {
  import opened Arithmetic
  import opened HuffmanCode
  import opened HuffmanTables
  import opened KraftSums
  import opened OptimalTable

  /** How many code words of length `l` are taken, or are extensions of shorter ones that are. */
  function Filled(bits: seq<nat>, l: nat): nat
    requires l < |bits|
  {
    if l == 0 then 0 else 2 * Filled(bits, l - 1) + bits[l]
  }

  function Codes(bits: seq<nat>, l: nat): nat
    requires l < |bits|
  {
    if l == 0 then 0 else Codes(bits, l - 1) + bits[l]
  }

  // ---------------------------------------------------------------- one code more or less

  lemma {:induction false} OneMoreFills(bits: seq<nat>, k: nat, l: nat)
    requires l < |bits| && 1 <= k < |bits|
    ensures Filled(bits[k := bits[k] + 1], l) == Filled(bits, l) + if k <= l then Pow2(l - k) else 0
    ensures Codes(bits[k := bits[k] + 1], l) == Codes(bits, l) + if k <= l then 1 else 0
    decreases l
  {
    if l > 0 { OneMoreFills(bits, k, l - 1); }
  }

  lemma OneLessFills(bits: seq<nat>, k: nat, l: nat)
    requires l < |bits| && 1 <= k < |bits| && bits[k] > 0
    ensures Filled(bits[k := bits[k] - 1], l) == Filled(bits, l) - if k <= l then Pow2(l - k) else 0
    ensures Codes(bits[k := bits[k] - 1], l) == Codes(bits, l) - if k <= l then 1 else 0
  {
    var less := bits[k := bits[k] - 1];
    OneMoreFills(less, k, l);
    assert less[k := less[k] + 1] == bits;
  }

  /** Two codes of length `i` make room for one of length `i` - 1, and a code of length `j` becomes the prefix of two
      codes one bit longer. */
  function Adjusted(bits: seq<nat>, i: nat, j: nat): (r: seq<nat>)
    requires 1 <= j && j + 2 <= i < |bits| && bits[i] >= 2 && bits[j] > 0
    ensures |r| == |bits|
  {
    var b1 := bits[i := bits[i] - 2];
    var b2 := b1[i - 1 := b1[i - 1] + 1];
    var b3 := b2[j + 1 := b2[j + 1] + 2];
    b3[j := b3[j] - 1]
  }

  lemma AdjustedFills(bits: seq<nat>, i: nat, j: nat)
    requires 1 <= j && j + 2 <= i < |bits| && bits[i] >= 2 && bits[j] > 0
    ensures Filled(Adjusted(bits, i, j), i) == Filled(bits, i) && Codes(Adjusted(bits, i, j), i) == Codes(bits, i)
    ensures forall k :: i <= k < |bits| ==> Adjusted(bits, i, j)[k] == if k == i then bits[i] - 2 else bits[k]
  {
    hide Filled, Codes, Adjusted;
    var a1 := bits[i := bits[i] - 1];
    var b1 := a1[i := a1[i] - 1];
    var b2 := b1[i - 1 := b1[i - 1] + 1];
    var a3 := b2[j + 1 := b2[j + 1] + 1];
    var b3 := a3[j + 1 := a3[j + 1] + 1];
    assert Adjusted(bits, i, j) == b3[j := b3[j] - 1] by { AdjustedInSteps(bits, i, j); }
    OneLessFills(bits, i, i);
    OneLessFills(a1, i, i);
    OneMoreFills(b1, i - 1, i);
    OneMoreFills(b2, j + 1, i);
    OneMoreFills(a3, j + 1, i);
    OneLessFills(b3, j, i);
    PowerSteps(i - j);
  }

  lemma AdjustedInSteps(bits: seq<nat>, i: nat, j: nat)
    requires 1 <= j && j + 2 <= i < |bits| && bits[i] >= 2 && bits[j] > 0
    ensures var a1 := bits[i := bits[i] - 1];
            var b1 := a1[i := a1[i] - 1];
            var b2 := b1[i - 1 := b1[i - 1] + 1];
            var a3 := b2[j + 1 := b2[j + 1] + 1];
            var b3 := a3[j + 1 := a3[j + 1] + 1];
            Adjusted(bits, i, j) == b3[j := b3[j] - 1]
  {
  }

  lemma PowerSteps(n: nat)
    requires n >= 1
    ensures Pow2(0) == 1 && Pow2(1) == 2 && Pow2(n) == 2 * Pow2(n - 1)
  {
  }

  /** The greatest length up to `j` that some code has, 0 if there is none. */
  function LongestUpTo(bits: seq<nat>, j: nat): (r: nat)
    requires j < |bits|
    ensures r <= j && (r > 0 ==> bits[r] > 0) && forall k :: r < k <= j ==> bits[k] == 0
  {
    if j == 0 || bits[j] > 0 then j else LongestUpTo(bits, j - 1)
  }

  lemma LongestIs(bits: seq<nat>, j: nat, r: nat)
    requires 1 <= r <= j < |bits| && bits[r] > 0 && forall k :: r < k <= j ==> bits[k] == 0
    ensures LongestUpTo(bits, j) == r
  {
  }

  /** No pair of length `i` is left: the prefix of each one goes to one of the pair, and the other one shares the word
      of the longest code that is at least two bits shorter. */
  function Shortened(bits: seq<nat>, i: nat): (r: seq<nat>)
    requires 2 <= i < |bits|
    ensures |r| == |bits|
    decreases bits[i]
  {
    var j := LongestUpTo(bits, i - 2);
    if bits[i] < 2 || j == 0 then bits
    else
      AdjustedFills(bits, i, j);
      Shortened(Adjusted(bits, i, j), i)
  }

  /** Length by length, from `i` down to seventeen. */
  function Limited(bits: seq<nat>, i: nat): (r: seq<nat>)
    requires i < |bits|
    ensures |r| == |bits|
    decreases i
  {
    if i <= 16 then bits else Limited(Shortened(bits, i), i - 1)
  }

  // ---------------------------------------------------------------- the state of the adjustment

  /** Nothing is longer than `i`, the code space is filled exactly, and there are `n` codes. */
  predicate Full(bits: seq<nat>, i: nat, n: nat) {
    && |bits| == MAX_CLEN + 1 && 1 <= i <= MAX_CLEN
    && (forall k :: i < k <= MAX_CLEN ==> bits[k] == 0)
    && Filled(bits, i) == Pow2(i) && Codes(bits, i) == n
  }

  /** The longest codes come in pairs. */
  lemma LongestArePaired(bits: seq<nat>, i: nat, n: nat)
    requires Full(bits, i, n)
    ensures bits[i] % 2 == 0
  {
  }

  lemma {:induction false} NothingShort(bits: seq<nat>, l: nat)
    requires l < |bits| && forall k :: 1 <= k <= l ==> bits[k] == 0
    ensures Filled(bits, l) == 0 && Codes(bits, l) == 0
  {
    if l > 0 { NothingShort(bits, l - 1); }
  }

  /** There always is a shorter code to be made a prefix: a few hundred codes cannot fill the space with long ones. */
  lemma ShorterExists(bits: seq<nat>, i: nat, n: nat)
    requires Full(bits, i, n) && i > 16 && n <= 256
    ensures exists j :: 1 <= j <= i - 2 && bits[j] > 0
  {
    if forall j :: 1 <= j <= i - 2 ==> bits[j] == 0 {
      assert Filled(bits, i - 1) == 2 * Filled(bits, i - 2) + bits[i - 1];
      assert Codes(bits, i - 1) == Codes(bits, i - 2) + bits[i - 1];
      NothingShort(bits, i - 2);
      LargePower(i);
      assert false;
    }
  }

  lemma {:induction false} LargePower(i: nat)
    requires i > 16
    ensures Pow2(i) > 512
    decreases i
  {
    if i == 17 { Pow2Of15(); } else { LargePower(i - 1); }
  }

  lemma NextLevelDown(bits: seq<nat>, i: nat, n: nat)
    requires Full(bits, i, n) && bits[i] == 0 && i > 1
    ensures Full(bits, i - 1, n)
  {
  }

  /** Remove pairs of the longest codes until no code is longer than sixteen. */
  method LimitLengths(bits: array<nat>, ghost n: nat)
    requires Full(bits[..], MAX_CLEN, n) && n <= 256
    modifies bits
    ensures Full(bits[..], 16, n) && bits.Length == MAX_CLEN + 1 && bits[..] == Limited(old(bits[..]), MAX_CLEN)
  {
    hide Full, Filled, Codes, Adjusted, Shortened;
    FullSize(bits[..], MAX_CLEN, n);
    for i := MAX_CLEN downto 16
      invariant bits.Length == MAX_CLEN + 1 && Full(bits[..], i, n)
      invariant Limited(bits[..], i) == Limited(old(bits[..]), MAX_CLEN)
    {
      LimitOneLength(bits, i + 1, n);
      NextLevelDown(bits[..], i + 1, n);
    }
  }

  lemma FullSize(bits: seq<nat>, i: nat, n: nat)
    requires Full(bits, i, n)
    ensures |bits| == MAX_CLEN + 1 && 1 <= i <= MAX_CLEN
  {
  }

  method LimitOneLength(bits: array<nat>, i: nat, ghost n: nat)
    requires bits.Length == MAX_CLEN + 1 && i > 16 && Full(bits[..], i, n) && n <= 256
    modifies bits
    ensures Full(bits[..], i, n) && bits[i] == 0 && bits[..] == Shortened(old(bits[..]), i)
  {
    hide Full, Adjusted, Shortened, LongestUpTo;
    FullSize(bits[..], i, n);
    while bits[i] > 0
      invariant Full(bits[..], i, n) && Shortened(bits[..], i) == Shortened(old(bits[..]), i)
      decreases bits[i]
    {
      LongestArePaired(bits[..], i, n);
      ShorterExists(bits[..], i, n);
      var j := i - 2;
      ghost var s :| 1 <= s <= i - 2 && bits[s] > 0;
      while bits[j] == 0
        invariant s <= j <= i - 2 && forall k :: j < k <= i - 2 ==> bits[k] == 0
        decreases j
      {
        j := j - 1;
      }
      ghost var before := bits[..];
      ShortenedStep(before, i, j);
      bits[i] := bits[i] - 2;
      bits[i - 1] := bits[i - 1] + 1;
      bits[j + 1] := bits[j + 1] + 2;
      bits[j] := bits[j] - 1;
      assert bits[..] == Adjusted(before, i, j) by { AdjustedMeans(before, i, j); }
      StaysFull(before, i, j, n);
    }
    ShortenedEnds(bits[..], i);
  }

  lemma ShortenedStep(bits: seq<nat>, i: nat, j: nat)
    requires 1 <= j && j + 2 <= i < |bits| && bits[i] >= 2 && bits[j] > 0
    requires forall k :: j < k <= i - 2 ==> bits[k] == 0
    ensures Shortened(bits, i) == Shortened(Adjusted(bits, i, j), i)
  {
    LongestIs(bits, i - 2, j);
  }

  lemma ShortenedEnds(bits: seq<nat>, i: nat)
    requires 2 <= i < |bits| && bits[i] == 0
    ensures Shortened(bits, i) == bits
  {
  }

  lemma AdjustedMeans(bits: seq<nat>, i: nat, j: nat)
    requires 1 <= j && j + 2 <= i < |bits| && bits[i] >= 2 && bits[j] > 0
    ensures var r := Adjusted(bits, i, j);
            && r[i] == bits[i] - 2 && r[j] == bits[j] - 1
            && (j + 1 < i - 1 ==> r[j + 1] == bits[j + 1] + 2 && r[i - 1] == bits[i - 1] + 1)
            && (j + 1 == i - 1 ==> r[j + 1] == bits[j + 1] + 3)
            && forall k :: 0 <= k < |bits| && k != i && k != j && k != i - 1 && k != j + 1 ==> r[k] == bits[k]
  {
  }

  lemma StaysFull(bits: seq<nat>, i: nat, j: nat, n: nat)
    requires Full(bits, i, n) && 1 <= j && j + 2 <= i && bits[i] >= 2 && bits[j] > 0
    ensures Full(Adjusted(bits, i, j), i, n) && Adjusted(bits, i, j)[i] == bits[i] - 2
  {
    AdjustedFills(bits, i, j);
  }

  // ---------------------------------------------------------------- the pseudo-symbol goes

  lemma {:induction false} FilledIsPast(bits: seq<nat>, l: nat)
    requires |bits| == MAX_CLEN + 1 && 1 <= l <= 16
    ensures Past(bits[..17], l) == Filled(bits, l) && Count(bits[..17], l) == Codes(bits, l)
    decreases l
  {
    if l > 1 { FilledIsPast(bits, l - 1); }
  }

  lemma {:induction false} FilledAbove(bits: seq<nat>, k: nat, l: nat)
    requires k <= l < |bits| && forall m :: k < m <= l ==> bits[m] == 0
    ensures Filled(bits, l) == ShiftLeft(Filled(bits, k), l - k) && Codes(bits, l) == Codes(bits, k)
    decreases l
  {
    if k < l { FilledAbove(bits, k, l - 1); }
  }

  /** Below the length of some code the space is not filled. */
  lemma {:induction false} RoomBelow(bits: seq<nat>, k: nat, l: nat)
    requires l <= k < |bits|
    ensures Filled(bits, k) >= ShiftLeft(Filled(bits, l), k - l)
    ensures l < k && bits[k] > 0 ==> Filled(bits, k) > ShiftLeft(Filled(bits, l), k - l)
    decreases k
  {
    if l < k { RoomBelow(bits, k - 1, l); }
  }

  /** Taking the last of the longest codes away leaves every level short of full: a legal code with no word of all
      ones. */
  lemma LastCodeGone(bits: seq<nat>, m: nat, n: nat)
    requires Full(bits, 16, n) && 1 <= m <= 16 && bits[m] > 0 && (forall k :: m < k <= 16 ==> bits[k] == 0) && n <= 256
    ensures var r := bits[m := bits[m] - 1];
            && (forall l :: 1 <= l <= 16 ==> Past(r[..17], l) < Pow2(l)) && Count(r[..17], 16) == n - 1
  {
    var r := bits[m := bits[m] - 1];
    FilledAbove(bits, m, 16);
    forall l | 1 <= l <= 16 ensures Past(r[..17], l) < Pow2(l) {
      FilledIsPast(r, l);
      OneLessFills(bits, m, l);
      if l < m {
        RoomBelow(bits, m, l);
        LevelsBelow(Filled(bits, l), l, m, Filled(bits, m));
      } else {
        FilledAbove(bits, m, l);
        LevelsAbove(Filled(bits, m), m, l);
      }
    }
    FilledIsPast(r, 16);
    OneLessFills(bits, m, 16);
  }

  lemma LevelsBelow(f: nat, l: nat, m: nat, g: nat)
    requires l < m <= 16 && g > ShiftLeft(f, m - l) && ShiftLeft(g, 16 - m) == Pow2(16)
    ensures f < Pow2(l)
  {
    hide *;
    ShiftOfPower(m, 16 - m);
    ShiftOfPower(l, m - l);
    if g > Pow2(m) { ShiftStrict(Pow2(m), g, 16 - m); }
    if f >= Pow2(l) { ShiftGrows(Pow2(l), f, m - l); }
  }

  lemma LevelsAbove(g: nat, m: nat, l: nat)
    requires m <= l <= 16 && ShiftLeft(g, 16 - m) == Pow2(16)
    ensures ShiftLeft(g, l - m) == Pow2(l)
  {
    hide *;
    ShiftOfPower(m, 16 - m);
    ShiftOfPower(m, l - m);
    if g > Pow2(m) { ShiftStrict(Pow2(m), g, 16 - m); }
    if g < Pow2(m) { ShiftStrict(g, Pow2(m), 16 - m); }
  }

  lemma {:induction false} ShiftStrict(v: nat, w: nat, n: nat)
    requires v < w
    ensures ShiftLeft(v, n) < ShiftLeft(w, n)
    decreases n
  {
    if n > 0 { ShiftStrict(v, w, n - 1); }
  }
}
