/** Suspension in the AC refinement decoder (decode_mcu_AC_refine in jdhuff.c). When input runs out in the middle of a
    block, coefficients that became nonzero are set back to zero, but bits added to other coefficients stay. Starting
    over with the same bits nevertheless gives what an uninterrupted run gives. */
module RefinementSuspension {
  import opened Arithmetic
  import opened PointTransform
  import opened HuffmanCode
  import opened HuffmanTables
  import opened HuffmanItems
  import opened HuffmanEobRuns
  import opened HuffmanRefinement
  import opened Seqs

  /** An attempt that gets `n` requests for bits served. Stopped: the request after them is refused, and this is the
      block then. Went: how many requests are still to be served. */
  datatype Attempt<+T> = Stopped(b: Block) | Went(rest: seq<bool>, n: nat, v: T)

  function TryBits(count: nat, s: seq<bool>, n: nat, b: Block): Attempt<nat> {
    if n == 0 then Stopped(b)
    else
      match ReadBits(count, s)
      case Suspend => Stopped(b)
      case Done(rest, v) => Went(rest, n - 1, v)
  }

  function TrySymbol(t: HuffTable, s: seq<bool>, n: nat, b: Block): (x: Attempt<nat>)
    requires Reads(t)
    ensures x.Went? ==> x.v <= 255
  {
    if n == 0 then Stopped(b)
    else
      match ReadSymbol(t, s)
      case Suspend => Stopped(b)
      case Done(rest, v) => Went(rest, n - 1, v)
  }

  function TryAdvance(p: Band, s: seq<bool>, b: Block, k: nat, r: nat, n: nat): (x: Attempt<(nat, Block)>)
    requires ValidBand(p) && p.ss <= k <= p.se
    ensures x.Went? ==> k <= x.v.0 <= p.se + 1
    decreases p.se + 1 - k
  {
    if b[k] != 0 then
      match TryBits(1, s, n, b)
      case Stopped(b1) => Stopped(b1)
      case Went(s1, n1, bit) =>
        var b1 := CorrectAt(b, k, p.al, bit);
        if k == p.se then Went(s1, n1, (k + 1, b1)) else TryAdvance(p, s1, b1, k + 1, r, n1)
    else if r == 0 then Went(s, n, (k, b))
    else if k == p.se then Went(s, n, (k + 1, b))
    else TryAdvance(p, s, b, k + 1, r - 1, n)
  }

  function TryTail(p: Band, s: seq<bool>, b: Block, k: nat, n: nat): Attempt<Block>
    requires ValidBand(p)
    decreases p.se + 1 - k
  {
    if k > p.se then Went(s, n, b)
    else if b[k] != 0 then
      match TryBits(1, s, n, b)
      case Stopped(b1) => Stopped(b1)
      case Went(s1, n1, bit) => TryTail(p, s1, CorrectAt(b, k, p.al, bit), k + 1, n1)
    else TryTail(p, s, b, k + 1, n)
  }

  /** A coefficient that became nonzero is remembered; if the attempt stops later, it is undone. */
  function Undone(x: Attempt<(nat, Block)>, pos: nat): Attempt<(nat, Block)>
    requires pos <= 63
  {
    if x.Stopped? then Stopped(x.b[pos := 0]) else x
  }

  function TrySymbols(p: Band, t: HuffTable, s: seq<bool>, b: Block, k: nat, n: nat): Attempt<(nat, Block)>
    requires ValidBand(p) && Reads(t) && p.ss <= k
    decreases p.se + 1 - k
  {
    if k > p.se then Went(s, n, (0, b))
    else
      match TrySymbol(t, s, n, b)
      case Stopped(b1) => Stopped(b1)
      case Went(s1, n1, sym) =>
        if sym % 16 != 0 then TryNew(p, t, s1, b, k, sym / 16, n1)
        else if sym / 16 != 15 then TryRun(p, s1, b, k, sym / 16, n1)
        else
          match TryAdvance(p, s1, b, k, 15, n1)
          case Stopped(b1) => Stopped(b1)
          case Went(s2, n2, x) => TrySymbols(p, t, s2, x.1, x.0 + 1, n2)
  }

  /** The sign of a new coefficient, and the way to its place. */
  function TryNew(p: Band, t: HuffTable, s: seq<bool>, b: Block, k: nat, r: nat, n: nat): Attempt<(nat, Block)>
    requires ValidBand(p) && Reads(t) && p.ss <= k <= p.se
    decreases p.se + 1 - k, 0
  {
    match TryBits(1, s, n, b)
    case Stopped(b1) => Stopped(b1)
    case Went(s1, n1, positive) =>
      var v := if positive == 1 then Pow2(p.al) else -Pow2(p.al);
      match TryAdvance(p, s1, b, k, r, n1)
      case Stopped(b1) => Stopped(b1)
      case Went(s2, n2, x) =>
        Undone(TrySymbols(p, t, s2, x.1[Place(x.0) := Short(v)], x.0 + 1, n2), Place(x.0))
  }

  function TryRun(p: Band, s: seq<bool>, b: Block, k: nat, r: nat, n: nat): Attempt<(nat, Block)>
    requires ValidBand(p)
  {
    match (if r > 0 then TryBits(r, s, n, b) else Went(s, n, 0))
    case Stopped(b1) => Stopped(b1)
    case Went(s1, n1, low) =>
      match TryTail(p, s1, b, k, n1)
      case Stopped(b1) => Stopped(b1)
      case Went(s2, n2, b2) => Went(s2, n2, (Pow2(r) + low - 1, b2))
  }

  function TryBlock(p: Band, t: HuffTable, s: seq<bool>, b: Block, run: nat, n: nat): Attempt<(nat, Block)>
    requires ValidBand(p) && Reads(t)
  {
    if run == 0 then TrySymbols(p, t, s, b, p.ss, n)
    else
      match TryTail(p, s, b, p.ss, n)
      case Stopped(b1) => Stopped(b1)
      case Went(s1, n1, b1) => Went(s1, n1, (run - 1, b1))
  }

  // ---------------------------------------------------------------- correction bits may be added again

  /** The bit, once added, is seen and not added again; and a nonzero coefficient stays nonzero. */
  lemma CorrectedTwice(c: int, al: nat)
    requires IsShort(c) && al <= 13
    ensures Corrected(Corrected(c, al), al) == Corrected(c, al)
    ensures c != 0 ==> Corrected(c, al) != 0
    ensures IsShort(Corrected(c, al))
  {
    if !BitIsSet(c, al) {
      var x := if c >= 0 then c + Pow2(al) else c - Pow2(al);
      SmallPower(al);
      NextBit(c, al);
      ShortKeepsBit(x, al);
    }
  }

  lemma SmallPower(al: nat)
    requires al <= 13
    ensures 1 <= Pow2(al) <= 0x2000
  {
    Pow2Grows(al, 13);
    assert Pow2(4) == 16;
    assert Pow2(8) == 256;
    assert Pow2(12) == 4096;
  }

  lemma {:induction false} Pow2Grows(j: nat, k: nat)
    requires j <= k
    ensures Pow2(j) <= Pow2(k)
    decreases k
  {
    if j < k { Pow2Grows(j, k - 1); }
  }

  lemma NextBit(c: int, al: nat)
    requires !BitIsSet(c, al)
    ensures BitIsSet(c + Pow2(al), al) && BitIsSet(c - Pow2(al), al)
  {
    var m := Pow2(al);
    var q := c / m;
    assert c == q * m + c % m;
    assert (q + 1) * m == q * m + m && (q - 1) * m == q * m - m;
    Quotient(c + m, q + 1, m, c % m);
    Quotient(c - m, q - 1, m, c % m);
    hide Pow2;
    Neighbours(q);
  }

  lemma Neighbours(q: int)
    requires q % 2 != 1
    ensures (q + 1) % 2 == 1 && (q - 1) % 2 == 1
  {
  }

  /** Cutting down to sixteen bits does not touch the bit. */
  lemma ShortKeepsBit(x: int, al: nat)
    requires al <= 13 && BitIsSet(x, al)
    ensures BitIsSet(Short(x), al)
  {
    Pow2Of15();
    Pow2Splits(al + 1, 16);
    hide Pow2, Short;
    var m, h := Pow2(al), Pow2(15 - al);
    var w := Wraps(x);
    var q := x / m;
    ProductOfThree(w, h, m);
    DroppedMultiple(x, q, m, 2 * (w * h));
    EvenDistance(q, w * h);
  }

  lemma Wraps(x: int) returns (w: int)
    ensures Short(x) == x - w * 0x10000
  {
    w := (x + 0x8000) / 0x10000;
  }

  lemma DroppedMultiple(x: int, q: int, m: int, d: int)
    requires m > 0 && q == x / m
    ensures (x - d * m) / m == q - d
  {
    assert x == q * m + x % m;
    assert (q - d) * m == q * m - d * m;
    Quotient(x - d * m, q - d, m, x % m);
  }

  lemma ProductOfThree(w: int, h: int, m: int)
    requires 0x10000 == 2 * (h * m)
    ensures w * 0x10000 == (2 * (w * h)) * m
  {
    assert w * (h * m) == (w * h) * m;
    assert (2 * (w * h)) * m == 2 * ((w * h) * m);
    assert w * (2 * (h * m)) == 2 * (w * (h * m));
  }

  lemma EvenDistance(q: int, d: int)
    requires q % 2 == 1
    ensures (q - 2 * d) % 2 == 1
  {
  }

  lemma {:induction false} Pow2Splits(j: nat, k: nat)
    requires 1 <= j <= k
    ensures Pow2(k) == 2 * (Pow2(k - j) * Pow2(j - 1))
    decreases k
  {
    if j == k {
      assert Pow2(0) == 1;
    } else {
      Pow2Splits(j, k - 1);
      assert Pow2(k - j) == 2 * Pow2(k - 1 - j);
      assert (2 * Pow2(k - 1 - j)) * Pow2(j - 1) == 2 * (Pow2(k - 1 - j) * Pow2(j - 1));
    }
  }

  // ---------------------------------------------------------------- an attempt that is not stopped

  lemma {:induction false} AdvanceWent(p: Band, s: seq<bool>, b: Block, k: nat, r: nat, n: nat)
    requires ValidBand(p) && p.ss <= k <= p.se
    ensures var x := TryAdvance(p, s, b, k, r, n);
            x.Went? ==> Advance(p, s, b, k, r) == Done(x.rest, x.v)
    decreases p.se + 1 - k
  {
    hide Corrected, ReadBits;
    if b[k] != 0 {
      var x := TryBits(1, s, n, b);
      if x.Went? && k < p.se { AdvanceWent(p, x.rest, CorrectAt(b, k, p.al, x.v), k + 1, r, x.n); }
    } else if r > 0 && k < p.se {
      AdvanceWent(p, s, b, k + 1, r - 1, n);
    }
  }

  lemma {:induction false} TailWent(p: Band, s: seq<bool>, b: Block, k: nat, n: nat)
    requires ValidBand(p)
    ensures var x := TryTail(p, s, b, k, n);
            x.Went? ==> Tail(p, s, b, k) == Done(x.rest, x.v)
    decreases p.se + 1 - k
  {
    hide Corrected, ReadBits;
    if k <= p.se {
      if b[k] != 0 {
        var x := TryBits(1, s, n, b);
        if x.Went? { TailWent(p, x.rest, CorrectAt(b, k, p.al, x.v), k + 1, x.n); }
      } else {
        TailWent(p, s, b, k + 1, n);
      }
    }
  }

  lemma {:induction false} SymbolsWent(p: Band, t: HuffTable, s: seq<bool>, b: Block, k: nat, n: nat)
    requires ValidBand(p) && Reads(t) && p.ss <= k
    ensures var x := TrySymbols(p, t, s, b, k, n);
            x.Went? ==> Symbols(p, t, s, b, k) == Done(x.rest, x.v)
    decreases p.se + 1 - k
  {
    hide ReadSymbol, ReadBits, Reads, TryAdvance, Advance, TryTail, Tail, Short, Pow2;
    if k <= p.se {
      var x := TrySymbol(t, s, n, b);
      if x.Went? {
        var r := x.v / 16;
        if x.v % 16 != 0 {
          var y := TryBits(1, x.rest, x.n, b);
          if y.Went? {
            AdvanceWent(p, y.rest, b, k, r, y.n);
            var a := TryAdvance(p, y.rest, b, k, r, y.n);
            if a.Went? {
              var v := if y.v == 1 then Pow2(p.al) else -Pow2(p.al);
              SymbolsWent(p, t, a.rest, a.v.1[Place(a.v.0) := Short(v)], a.v.0 + 1, a.n);
            }
          }
        } else if r != 15 {
          RunWent(p, x.rest, b, k, r, x.n);
        } else {
          AdvanceWent(p, x.rest, b, k, 15, x.n);
          var a := TryAdvance(p, x.rest, b, k, 15, x.n);
          if a.Went? { SymbolsWent(p, t, a.rest, a.v.1, a.v.0 + 1, a.n); }
        }
      }
    }
  }

  /** A run symbol with its bits, and the rest of the block. */
  function RunAndTail(p: Band, s: seq<bool>, b: Block, k: nat, r: nat): BitRead<(nat, Block)>
    requires ValidBand(p)
  {
    var (s2, run) :- ReadRun(r, s);
    var (s3, b3) :- Tail(p, s2, b, k);
    Done(s3, (run - 1, b3))
  }

  lemma NoBitsNeeded(s: seq<bool>)
    ensures ReadBits(0, s) == Done(s, 0)
  {
  }

  lemma RunWent(p: Band, s: seq<bool>, b: Block, k: nat, r: nat, n: nat)
    requires ValidBand(p)
    ensures var x := TryRun(p, s, b, k, r, n);
            x.Went? ==> RunAndTail(p, s, b, k, r) == Done(x.rest, x.v)
  {
    hide ReadBits, TryTail, Tail, Pow2;
    NoBitsNeeded(s);
    var y := if r > 0 then TryBits(r, s, n, b) else Went(s, n, 0);
    if y.Went? { TailWent(p, y.rest, b, k, y.n); }
  }

  // ---------------------------------------------------------------- bits that are appended later

  lemma {:induction false} AdvanceWithMore(p: Band, s: seq<bool>, more: seq<bool>, b: Block, k: nat, r: nat)
    requires ValidBand(p) && p.ss <= k <= p.se
    ensures var x := Advance(p, s, b, k, r); x.Done? ==> Advance(p, s + more, b, k, r) == Done(x.rest + more, x.v)
    decreases p.se + 1 - k
  {
    hide CorrectAt, ReadBits;
    if b[k] != 0 {
      BitsWithMore(1, s, more);
      var y := ReadBits(1, s);
      if y.Done? && k < p.se { AdvanceWithMore(p, y.rest, more, CorrectAt(b, k, p.al, y.v), k + 1, r); }
    } else if r > 0 && k < p.se {
      AdvanceWithMore(p, s, more, b, k + 1, r - 1);
    }
  }

  // ---------------------------------------------------------------- an attempt that is stopped

  /** From the block that a stopped attempt leaves behind, the same bits, and those that come behind them, give the
      same result. */
  lemma {:induction false} StoppedAdvance(p: Band, s: seq<bool>, more: seq<bool>, b: Block, k: nat, r: nat, n: nat)
    requires ValidBand(p) && p.ss <= k <= p.se && IsShortBlock(b)
    requires TryAdvance(p, s, b, k, r, n).Stopped?
    ensures var b1 := TryAdvance(p, s, b, k, r, n).b;
            && Advance(p, s + more, b1, k, r) == Advance(p, s + more, b, k, r)
            && IsShortBlock(b1) && forall j :: 0 <= j < k ==> b1[j] == b[j]
    decreases p.se + 1 - k
  {
    hide Corrected, ReadBits;
    if b[k] != 0 {
      var x := TryBits(1, s, n, b);
      if x.Went? && k < p.se {
        var b2 := CorrectAt(b, k, p.al, x.v);
        CorrectedTwice(b[k], p.al);
        StoppedAdvance(p, x.rest, more, b2, k + 1, r, x.n);
        BitsWithMore(1, s, more);
        AgainAt(p, s + more, b, k, r, Went(x.rest + more, x.n, x.v), TryAdvance(p, x.rest, b2, k + 1, r, x.n).b);
      }
    } else if r > 0 && k < p.se {
      StoppedAdvance(p, s, more, b, k + 1, r - 1, n);
    }
  }

  /** The coefficient at `k` has its bit already; the second attempt reads the same bit and leaves it. */
  lemma AgainAt(p: Band, s: seq<bool>, b: Block, k: nat, r: nat, x: Attempt<nat>, b1: Block)
    requires ValidBand(p) && p.ss <= k < p.se && IsShortBlock(b) && b[k] != 0
    requires x.Went? && ReadBits(1, s) == Done(x.rest, x.v)
    requires b1[k] == CorrectAt(b, k, p.al, x.v)[k]
    requires Advance(p, x.rest, b1, k + 1, r) == Advance(p, x.rest, CorrectAt(b, k, p.al, x.v), k + 1, r)
    ensures Advance(p, s, b1, k, r) == Advance(p, s, b, k, r)
  {
    hide Corrected, ReadBits;
    CorrectedTwice(b[k], p.al);
    assert b1[k := b1[k]] == b1;
    assert CorrectAt(b1, k, p.al, x.v) == b1;
  }

  lemma {:induction false} StoppedTail(p: Band, s: seq<bool>, more: seq<bool>, b: Block, k: nat, n: nat)
    requires ValidBand(p) && IsShortBlock(b) && TryTail(p, s, b, k, n).Stopped?
    ensures var b1 := TryTail(p, s, b, k, n).b;
            && Tail(p, s + more, b1, k) == Tail(p, s + more, b, k)
            && IsShortBlock(b1) && forall j :: 0 <= j < k && j < 64 ==> b1[j] == b[j]
    decreases p.se + 1 - k
  {
    hide Corrected, ReadBits;
    if k <= p.se {
      if b[k] != 0 {
        var x := TryBits(1, s, n, b);
        if x.Went? {
          var b2 := CorrectAt(b, k, p.al, x.v);
          CorrectedTwice(b[k], p.al);
          StoppedTail(p, x.rest, more, b2, k + 1, x.n);
          BitsWithMore(1, s, more);
          var b1 := TryTail(p, x.rest, b2, k + 1, x.n).b;
          assert b1[k := b1[k]] == b1;
          assert CorrectAt(b1, k, p.al, x.v) == b1;
        }
      } else {
        StoppedTail(p, s, more, b, k + 1, n);
      }
    }
  }

  /** Advancing once more over coefficients that have their bits changes nothing, whatever comes behind. */
  lemma {:induction false} AdvanceAgain(p: Band, s: seq<bool>, b: Block, k: nat, r: nat, b1: Block)
    requires ValidBand(p) && p.ss <= k <= p.se && IsShortBlock(b) && Advance(p, s, b, k, r).Done?
    requires var x := Advance(p, s, b, k, r).v;
             && (forall j :: k <= j < x.0 ==> b1[j] == x.1[j])
             && (x.0 <= p.se ==> b1[x.0] == 0)
    ensures Advance(p, s, b1, k, r) == Done(Advance(p, s, b, k, r).rest, (Advance(p, s, b, k, r).v.0, b1))
    decreases p.se + 1 - k
  {
    hide Corrected, ReadBits;
    AdvanceKeeps(p, s, b, k, r);
    CorrectedTwice(b[k], p.al);
    if b[k] != 0 {
      var y := ReadBits(1, s);
      var b2 := CorrectAt(b, k, p.al, y.v);
      assert b1[k := b1[k]] == b1;
      if k < p.se {
        AdvanceKeeps(p, y.rest, b2, k + 1, r);
        assert b1[k] == b2[k];
        assert CorrectAt(b1, k, p.al, y.v) == b1;
        AdvanceAgain(p, y.rest, b2, k + 1, r, b1);
      }
    } else if r > 0 && k < p.se {
      AdvanceKeeps(p, s, b, k + 1, r - 1);
      AdvanceAgain(p, s, b, k + 1, r - 1, b1);
    }
  }

  /** Positions in front are not touched; the target is a zero. */
  lemma {:induction false} AdvanceKeeps(p: Band, s: seq<bool>, b: Block, k: nat, r: nat)
    requires ValidBand(p) && p.ss <= k <= p.se && IsShortBlock(b)
    ensures var x := Advance(p, s, b, k, r);
            x.Done? ==>
              && IsShortBlock(x.v.1) && (forall j :: 0 <= j < k ==> x.v.1[j] == b[j])
              && (x.v.0 <= p.se ==> x.v.1[x.v.0] == 0 == b[x.v.0])
    decreases p.se + 1 - k
  {
    hide Corrected, ReadBits;
    CorrectedTwice(b[k], p.al);
    if b[k] != 0 {
      var y := ReadBits(1, s);
      if y.Done? && k < p.se { AdvanceKeeps(p, y.rest, CorrectAt(b, k, p.al, y.v), k + 1, r); }
    } else if r > 0 && k < p.se {
      AdvanceKeeps(p, s, b, k + 1, r - 1);
    }
  }

  lemma {:induction false} StoppedSymbols(p: Band, t: HuffTable, s: seq<bool>, more: seq<bool>, b: Block, k: nat, n: nat)
    requires ValidBand(p) && Reads(t) && p.ss <= k && IsShortBlock(b) && TrySymbols(p, t, s, b, k, n).Stopped?
    ensures var b1 := TrySymbols(p, t, s, b, k, n).b;
            && Symbols(p, t, s + more, b1, k) == Symbols(p, t, s + more, b, k)
            && IsShortBlock(b1) && forall j :: 0 <= j < k && j < 64 ==> b1[j] == b[j]
    decreases p.se + 1 - k, 1
  {
    hide ReadSymbol, ReadBits, Reads, TryAdvance, Advance, TryTail, Tail, TryNew, TryRun, ReadRun, Short, Pow2;
    var x := TrySymbol(t, s, n, b);
    if x.Went? {
      var r := x.v / 16;
      SymbolWithMore(t, s, more);
      if x.v % 16 != 0 {
        StoppedNew(p, t, x.rest, more, b, k, r, x.n);
        NewIsSymbol(p, t, s + more, x.rest + more, b, k, x.v);
        NewIsSymbol(p, t, s + more, x.rest + more, TryNew(p, t, x.rest, b, k, r, x.n).b, k, x.v);
      } else if r != 15 {
        StoppedRun(p, x.rest, more, b, k, r, x.n);
      } else {
        StoppedZrl(p, t, s, x.rest, more, b, k, x.n);
      }
    }
  }

  /** What the decoder does behind a symbol for a new coefficient. */
  function NewAndOn(p: Band, t: HuffTable, s: seq<bool>, b: Block, k: nat, r: nat): BitRead<(nat, Block)>
    requires ValidBand(p) && Reads(t) && p.ss <= k <= p.se
  {
    hide Symbols, Reads;
    var (s2, positive) :- ReadBits(1, s);
    var v := if positive == 1 then Pow2(p.al) else -Pow2(p.al);
    var (s3, x) :- Advance(p, s2, b, k, r);
    Symbols(p, t, s3, x.1[Place(x.0) := Short(v)], x.0 + 1)
  }

  lemma NewIsSymbol(p: Band, t: HuffTable, s: seq<bool>, s1: seq<bool>, b: Block, k: nat, sym: nat)
    requires ValidBand(p) && Reads(t) && p.ss <= k <= p.se && ReadSymbol(t, s) == Done(s1, sym) && sym % 16 != 0
    ensures Symbols(p, t, s, b, k) == NewAndOn(p, t, s1, b, k, sym / 16)
  {
    hide ReadSymbol, ReadBits, Reads, Advance, Tail, ReadRun, Short, Pow2;
  }

  lemma {:induction false} StoppedNew(p: Band, t: HuffTable, s: seq<bool>, more: seq<bool>, b: Block, k: nat, r: nat, n: nat)
    requires ValidBand(p) && Reads(t) && p.ss <= k <= p.se && IsShortBlock(b) && TryNew(p, t, s, b, k, r, n).Stopped?
    ensures var b1 := TryNew(p, t, s, b, k, r, n).b;
            && NewAndOn(p, t, s + more, b1, k, r) == NewAndOn(p, t, s + more, b, k, r)
            && IsShortBlock(b1) && forall j :: 0 <= j < k && j < 64 ==> b1[j] == b[j]
    decreases p.se + 1 - k, 0
  {
    hide ReadSymbol, ReadBits, Reads, TryAdvance, Advance, Symbols, TrySymbols, Short, Pow2;
    var y := TryBits(1, s, n, b);
    if y.Went? {
      BitsWithMore(1, s, more);
      var a := TryAdvance(p, y.rest, b, k, r, y.n);
      if a.Stopped? {
        StoppedAdvance(p, y.rest, more, b, k, r, y.n);
      } else {
        AdvanceWent(p, y.rest, b, k, r, y.n);
        AdvanceWithMore(p, y.rest, more, b, k, r);
        AdvanceKeeps(p, y.rest + more, b, k, r);
        var v := Short(if y.v == 1 then Pow2(p.al) else -Pow2(p.al));
        var q, b2 := a.v.0, a.v.1[Place(a.v.0) := v];
        ShortIsShort(if y.v == 1 then Pow2(p.al) else -Pow2(p.al));
        if q > p.se {
          EndOfSymbols(p, t, a.rest, b2, q + 1, a.n);
          assert false;
        } else {
          StoppedSymbols(p, t, a.rest, more, b2, q + 1, a.n);
          var b3 := TrySymbols(p, t, a.rest, b2, q + 1, a.n).b;
          var b1 := b3[q := 0];
          AdvanceAgain(p, y.rest + more, b, k, r, b1);
          assert b1[q := v] == b3;
        }
      }
    }
  }

  lemma ShortIsShort(v: int)
    ensures IsShort(Short(v))
  {
  }

  lemma EndOfSymbols(p: Band, t: HuffTable, s: seq<bool>, b: Block, k: nat, n: nat)
    requires ValidBand(p) && Reads(t) && p.se < k
    ensures TrySymbols(p, t, s, b, k, n).Went?
  {
    hide Reads;
  }

  lemma StoppedRun(p: Band, s: seq<bool>, more: seq<bool>, b: Block, k: nat, r: nat, n: nat)
    requires ValidBand(p) && IsShortBlock(b) && TryRun(p, s, b, k, r, n).Stopped?
    ensures var b1 := TryRun(p, s, b, k, r, n).b;
            && RunAndTail(p, s + more, b1, k, r) == RunAndTail(p, s + more, b, k, r)
            && IsShortBlock(b1) && forall j :: 0 <= j < k && j < 64 ==> b1[j] == b[j]
  {
    hide ReadBits, TryTail, Tail, Pow2;
    NoBitsNeeded(s + more);
    BitsWithMore(r, s, more);
    var y := if r > 0 then TryBits(r, s, n, b) else Went(s, n, 0);
    if y.Went? { StoppedTail(p, y.rest, more, b, k, y.n); }
  }

  lemma {:induction false} StoppedZrl(p: Band, t: HuffTable, s: seq<bool>, s1: seq<bool>, more: seq<bool>, b: Block, k: nat, n: nat)
    requires ValidBand(p) && Reads(t) && p.ss <= k <= p.se && IsShortBlock(b)
    requires exists sym :: sym % 16 == 0 && sym / 16 == 15 && ReadSymbol(t, s) == Done(s1, sym)
    requires TryZrl(p, t, s1, b, k, n).Stopped?
    ensures var b1 := TryZrl(p, t, s1, b, k, n).b;
            && Symbols(p, t, s + more, b1, k) == Symbols(p, t, s + more, b, k)
            && IsShortBlock(b1) && forall j :: 0 <= j < k && j < 64 ==> b1[j] == b[j]
    decreases p.se + 1 - k, 0
  {
    hide ReadSymbol, ReadBits, Reads, TryAdvance, Advance, TrySymbols, Tail, ReadRun, Short, Pow2;
    var a := TryAdvance(p, s1, b, k, 15, n);
    if a.Stopped? {
      SymbolWithMore(t, s, more);
      StoppedAdvance(p, s1, more, b, k, 15, n);
    } else {
      AdvanceWent(p, s1, b, k, 15, n);
      SymbolWithMore(t, s, more);
      AdvanceWithMore(p, s1, more, b, k, 15);
      AdvanceKeeps(p, s1 + more, b, k, 15);
      var q := a.v.0;
      if q > p.se {
        EndOfSymbols(p, t, a.rest, a.v.1, q + 1, a.n);
        assert false;
      } else {
        StoppedSymbols(p, t, a.rest, more, a.v.1, q + 1, a.n);
        AdvanceAgain(p, s1 + more, b, k, 15, TrySymbols(p, t, a.rest, a.v.1, q + 1, a.n).b);
      }
    }
  }

  function TryZrl(p: Band, t: HuffTable, s: seq<bool>, b: Block, k: nat, n: nat): Attempt<(nat, Block)>
    requires ValidBand(p) && Reads(t) && p.ss <= k <= p.se
  {
    match TryAdvance(p, s, b, k, 15, n)
    case Stopped(b1) => Stopped(b1)
    case Went(s2, n2, x) => TrySymbols(p, t, s2, x.1, x.0 + 1, n2)
  }

  // ---------------------------------------------------------------- suspension is transparent

  /** An attempt that is not stopped is the uninterrupted run; after one that is stopped anywhere, the same bits, with
      whatever is appended to them later, give from the block left behind what they give from the block before. */
  lemma SuspensionIsTransparent(p: Band, t: HuffTable, s: seq<bool>, more: seq<bool>, b: Block, run: nat, n: nat)
    requires ValidBand(p) && Reads(t) && IsShortBlock(b)
    ensures var x := TryBlock(p, t, s, b, run, n);
            match x
            case Went(rest, _, v) => ReadBlock(p, t, s, b, p.ss, run) == Done(rest, v)
            case Stopped(b1) => 
                && IsShortBlock(b1) && ReadBlock(p, t, s + more, b1, p.ss, run) == ReadBlock(p, t, s + more, b, p.ss, run)
  {
    hide Symbols, TrySymbols, Tail, TryTail, Reads;
    if run == 0 {
      SymbolsWent(p, t, s, b, p.ss, n);
      if TrySymbols(p, t, s, b, p.ss, n).Stopped? { StoppedSymbols(p, t, s, more, b, p.ss, n); }
    } else {
      TailWent(p, s, b, p.ss, n);
      if TryTail(p, s, b, p.ss, n).Stopped? { StoppedTail(p, s, more, b, p.ss, n); }
    }
  }

  /** The bits at hand before the attempts: each attempt finds the bits that were there before and some more. */
  function Available(s: seq<bool>, arrivals: seq<seq<bool>>): seq<bool>
    decreases |arrivals|
  {
    if arrivals == [] then s else Available(s + arrivals[0], arrivals[1..])
  }

  /** The block after several attempts, each stopped where `stops` says, with more bits arriving before the next; an
      attempt that goes through ends the series. */
  function AfterAttempts(p: Band, t: HuffTable, s: seq<bool>, b: Block, run: nat, stops: seq<nat>, arrivals: seq<seq<bool>>): Block
    requires ValidBand(p) && Reads(t) && |stops| == |arrivals|
    decreases |stops|
  {
    if stops == [] then b
    else
      match TryBlock(p, t, s, b, run, stops[0])
      case Went(_, _, _) => b
      case Stopped(b1) => AfterAttempts(p, t, s + arrivals[0], b1, run, stops[1..], arrivals[1..])
  }

  lemma {:induction false} AvailableGrows(s: seq<bool>, arrivals: seq<seq<bool>>) returns (more: seq<bool>)
    ensures Available(s, arrivals) == s + more
    decreases |arrivals|
  {
    if arrivals == [] {
      more := [];
      assert s + [] == s;
    } else {
      var rest := AvailableGrows(s + arrivals[0], arrivals[1..]);
      more := arrivals[0] + rest;
      Assoc(s, arrivals[0], rest);
    }
  }

  /** For any points at which input runs out, in any number of attempts, the final result is that of a run without
      interruption over all the bits: the same block, the same bits taken, the same run length. */
  lemma {:induction false} AnyInterruptionsAreTransparent(p: Band, t: HuffTable, s: seq<bool>, b: Block, run: nat, stops: seq<nat>,
                                                          arrivals: seq<seq<bool>>)
    requires ValidBand(p) && Reads(t) && IsShortBlock(b) && |stops| == |arrivals|
    ensures var all := Available(s, arrivals);
            ReadBlock(p, t, all, AfterAttempts(p, t, s, b, run, stops, arrivals), p.ss, run) == ReadBlock(p, t, all, b, p.ss, run)
    decreases |stops|
  {
    hide ReadBlock, TryBlock, Reads;
    if stops != [] {
      var more := AvailableGrows(s, arrivals);
      SuspensionIsTransparent(p, t, s, more, b, run, stops[0]);
      var x := TryBlock(p, t, s, b, run, stops[0]);
      if x.Stopped? { AnyInterruptionsAreTransparent(p, t, s + arrivals[0], x.b, run, stops[1..], arrivals[1..]); }
    }
  }
}
