/** The statistical models of the arithmetic coder (jcarith.c, jdarith.c): which bins a coefficient is coded with.
    Writing is a sequence of decisions; reading asks the decoder for one decision after another. */
module ArithModel {
  import opened Limits
  import opened Wrappers
  import opened EstimationTable
  import opened ArithCoding
  import opened ArithDecoding
  import opened Arithmetic
  import opened Seqs
  import opened PointTransform

  // ---------------------------------------------------------------- statistics areas

  const DC_STAT_BINS := 64
  const AC_STAT_BINS := 256

  /** All statistics areas in one address space: DC areas, then AC areas, then the fixed bin. */
  const FIXED_BIN := NUM_ARITH_TBLS * DC_STAT_BINS + NUM_ARITH_TBLS * AC_STAT_BINS
  const NUM_BINS := FIXED_BIN + 1

  function DcArea(tbl: nat): nat { tbl * DC_STAT_BINS }
  function AcArea(tbl: nat): nat { NUM_ARITH_TBLS * DC_STAT_BINS + tbl * AC_STAT_BINS }

  // ---------------------------------------------------------------- reading

  predicate Readable(r: DecRun) { DecShape(r.d) && |r.bins| == NUM_BINS }

  /** Dry: the source ran out, an error exit. Bad: a warning, after which the segment is given up. */
  datatype Read<+T> = Dry | Bad | Got(r: DecRun, v: T)
  {
    predicate IsFailure() { !Got? }

    function PropagateFailure<U>(): Read<U>
      requires IsFailure()
    {
      if Dry? then Dry else Bad
    }

    function Extract(): (DecRun, T)
      requires !IsFailure()
    {
      (r, v)
    }
  }

  function ReadBit(r: DecRun, bin: nat): (x: Read<bool>)
    requires Readable(r) && bin < NUM_BINS
    ensures x.Got? ==> Readable(x.r)
  {
    match DecodeStep(r, bin)
    case None => Dry
    case Some(x) => Got(x.0, x.1)
  }

  /** How a segment ends: the bytes after the data, and the statistics the encoder is left with. */
  datatype Ending = Ending(bytes: seq<byte>, bins: seq<Stat>)

  /** The decoder will be given exactly the decisions `ds`, and then the ending `tail`. */
  ghost predicate Feeding(r: DecRun, ds: seq<Decision>, tail: Ending) {
    Readable(r) && exists e :: Synced(r, e, ds, tail.bytes) && EncodeRun(e, ds).bins == tail.bins
  }

  lemma FeedingIsReadable(r: DecRun, ds: seq<Decision>, tail: Ending)
    requires Feeding(r, ds, tail)
    ensures Readable(r) && InRange(ds, NUM_BINS)
  {
  }

  lemma ReadNext(r: DecRun, d: Decision, rest: seq<Decision>, tail: Ending)
    requires Feeding(r, [d] + rest, tail)
    ensures Readable(r) && d.bin < NUM_BINS
    ensures var x := ReadBit(r, d.bin);
            x.Got? && x.v == d.bit && Feeding(x.r, rest, tail)
  {
    hide DecodeStep, EncodeStep, Ready, InStep;
    var ds := [d] + rest;
    assert ds[1..] == rest;
    var e :| Synced(r, e, ds, tail.bytes) && EncodeRun(e, ds).bins == tail.bins;
    DecodeStepIsRight(r, e, ds, tail.bytes);
    assert EncodeRun(EncodeStep(e, d), rest) == EncodeRun(e, ds);
  }

  // ---------------------------------------------------------------- magnitudes

  /** The highest power of two that is at most `w`. */
  function TopBit(w: int): (m: int)
    requires 1 <= w
    ensures 1 <= m <= w
  {
    if w / 2 == 0 then 1 else 2 * TopBit(w / 2)
  }

  /** One true decision for every bit of `v` above the lowest, on successive bins, then a false one. */
  function Category(st: nat, v: int): seq<Decision>
    requires 1 <= v
    decreases v
  {
    if v / 2 == 0 then [Decision(st, false)] else [Decision(st, true)] + Category(st + 1, v / 2)
  }

  function CategoryEnd(st: nat, v: int): nat
    requires 1 <= v
    decreases v
  {
    if v / 2 == 0 then st else CategoryEnd(st + 1, v / 2)
  }

  /** The bit of `w` that is worth `h`, a power of two. */
  predicate HasBit(w: int, h: int)
    requires 0 < h
  {
    w / h % 2 == 1
  }

  /** `w` without the bits below `m`. */
  function Above(w: int, m: int): int
    requires 0 < m
  {
    w - w % m
  }

  /** The bits of `w` below `m`, from the highest down, all on one bin. */
  function Pattern(st: nat, m: int, w: int): seq<Decision>
    requires 0 <= m
  {
    if m / 2 == 0 then [] else [Decision(st, HasBit(w, m / 2))] + Pattern(st, m / 2, w)
  }

  predicate IsBit(m: int)
    decreases m
  {
    m == 1 || (2 <= m && m % 2 == 0 && IsBit(m / 2))
  }

  lemma {:induction false} BitsApart(m: int, n: int)
    requires IsBit(m) && IsBit(n) && m < n
    ensures 2 * m <= n
    decreases m
  {
    if m > 1 { BitsApart(m / 2, n / 2); }
  }

  lemma OverflowLimitIsBit()
    ensures IsBit(0x8000)
  {
    assert IsBit(0x10);
    assert IsBit(0x200);
    assert IsBit(0x2000);
  }

  /** How many more doublings stay below the overflow limit of the decoder. */
  function Room(m: int): nat
    requires 1 <= m
    decreases 0x4000 - m
  {
    if m >= 0x4000 then 0 else 1 + Room(2 * m)
  }

  lemma RoomAtStart()
    ensures Room(1) == 14 && Room(2) == 13
  {
    assert Room(0x400) == 4;
    assert Room(0x40) == 8;
    assert Room(4) == 12;
  }

  /** Figure F.23: the magnitude category. Gives the top bit and the bin it stopped at. */
  function ReadCategory(r: DecRun, st: nat, m: int): (x: Read<(int, nat)>)
    requires Readable(r) && IsBit(m) && m <= 0x4000 && st + Room(m) < NUM_BINS
    ensures x.Got? ==> Readable(x.r) && IsBit(x.v.0) && st <= x.v.1 <= st + Room(m)
    decreases 0x4000 - m
  {
    hide ReadBit, Readable;
    OverflowLimitIsBit();
    assert m < 0x4000 ==> IsBit(2 * m);
    var (r1, bit) :- ReadBit(r, st);
    if !bit then Got(r1, (m, st))
    else if 2 * m == 0x8000 then Bad
    else
      BitsApart(m, 0x8000);
      BitsApart(2 * m, 0x8000);
      ReadCategory(r1, st + 1, 2 * m)
  }

  /** The magnitude doubles until it reaches the limit. */
  lemma CategoryLimit(m: int)
    requires IsBit(m) && m <= 0x4000
    ensures IsBit(2 * m) && (2 * m == 0x8000 || (2 * m <= 0x4000 && Room(m) == Room(2 * m) + 1))
  {
    OverflowLimitIsBit();
    BitsApart(m, 0x8000);
    assert IsBit(2 * m);
    if 2 * m != 0x8000 { BitsApart(2 * m, 0x8000); }
  }

  /** How the category goes on after a true decision at `st`. */
  function AfterCategoryBit(r: DecRun, st: nat, m: int): (x: Read<(int, nat)>)
    requires Readable(r) && IsBit(m) && m <= 0x4000 && st + Room(m) < NUM_BINS
  {
    CategoryLimit(m);
    if 2 * m == 0x8000 then Bad else ReadCategory(r, st + 1, 2 * m)
  }

  /** One decision of the category. */
  lemma CategoryStep(r: DecRun, st: nat, m: int)
    requires Readable(r) && IsBit(m) && m <= 0x4000 && st + Room(m) < NUM_BINS
    ensures var b := ReadBit(r, st);
            && (b.Got? && !b.v ==> ReadCategory(r, st, m) == Got(b.r, (m, st)))
            && (b.Got? && b.v ==> ReadCategory(r, st, m) == AfterCategoryBit(b.r, st, m))
            && (b.Dry? ==> ReadCategory(r, st, m) == Dry)
            && (b.Bad? ==> ReadCategory(r, st, m) == Bad)
  {
    hide ReadBit, Readable, IsBit, Room;
  }

  /** `v |= m` for a power of two `m`. */
  function OrBit(v: int, m: int): int
    requires 0 < m
  {
    if HasBit(v, m) then v else v + m
  }

  /** Figure F.24: the magnitude bit pattern. */
  function ReadPattern(r: DecRun, st: nat, m: int, v: int): (x: Read<int>)
    requires Readable(r) && 0 <= m && st < NUM_BINS
    ensures x.Got? ==> Readable(x.r)
    decreases m
  {
    hide ReadBit, Readable;
    if m / 2 == 0 then Got(r, v)
    else
      var (r1, bit) :- ReadBit(r, st);
      ReadPattern(r1, st, m / 2, if bit then OrBit(v, m / 2) else v)
  }

  /** Category, then pattern: gives the value and its top bit. */
  function ReadMagnitude(r: DecRun, st: nat, m: int): (x: Read<(int, int)>)
    requires Readable(r) && IsBit(m) && m <= 0x4000 && st + Room(m) + 14 < NUM_BINS
    ensures x.Got? ==> Readable(x.r)
  {
    hide ReadCategory, ReadPattern, Readable;
    var (r1, top) :- ReadCategory(r, st, m);
    var (r2, w) :- ReadPattern(r1, top.1 + 14, top.0, top.0);
    Got(r2, (w, top.0))
  }

  /** `m` shifted left once for every bit of `v` above the lowest. */
  function Grown(m: int, v: int): int
    requires 1 <= v
    decreases v
  {
    if v / 2 == 0 then m else Grown(2 * m, v / 2)
  }

  lemma {:induction false} GrownIsTopBit(m: int, v: int)
    requires 1 <= v
    ensures Grown(m, v) == m * TopBit(v)
    decreases v
  {
    if v / 2 != 0 {
      GrownIsTopBit(2 * m, v / 2);
      TwiceEither(m, TopBit(v / 2));
    }
  }

  lemma TwiceEither(m: int, t: int)
    ensures 2 * m * t == m * (2 * t)
  {
  }

  lemma {:induction false} TopBitFacts(w: int)
    requires 1 <= w
    ensures TopBit(w) <= w < 2 * TopBit(w)
    ensures IsBit(TopBit(w))
    decreases w
  {
    if w / 2 != 0 {
      TopBitFacts(w / 2);
      var t := TopBit(w / 2);
      assert TopBit(w) == 2 * t && (2 * t) % 2 == 0 && (2 * t) / 2 == t;
    }
  }

  lemma {:induction false} CategoryReads(r: DecRun, st: nat, m: int, v: int, rest: seq<Decision>, tail: Ending)
    requires 1 <= v && IsBit(m) && Grown(m, v) <= 0x4000 && st + Room(m) < NUM_BINS
    requires Feeding(r, Category(st, v) + rest, tail)
    ensures Readable(r) && m <= 0x4000
    ensures var x := ReadCategory(r, st, m);
            x.Got? && x.v == (Grown(m, v), CategoryEnd(st, v)) && Feeding(x.r, rest, tail)
    decreases v
  {
    hide Feeding, ReadBit, Readable, ReadCategory, Room;
    GrowthIsLarger(m, v);
    hide IsBit;
    if v / 2 == 0 {
      ReadNext(r, Decision(st, false), rest, tail);
      CategoryStep(r, st, m);
    } else {
      var more := Category(st + 1, v / 2);
      assert Category(st, v) + rest == [Decision(st, true)] + (more + rest);
      ReadNext(r, Decision(st, true), more + rest, tail);
      GrowthIsLarger(2 * m, v / 2);
      CategoryLimit(m);
      CategoryStep(r, st, m);
      CategoryReads(ReadBit(r, st).r, st + 1, 2 * m, v / 2, rest, tail);
    }
  }

  lemma {:induction false} GrowthIsLarger(m: int, v: int)
    requires 1 <= v && 0 <= m
    ensures m <= Grown(m, v)
    decreases v
  {
    if v / 2 != 0 { GrowthIsLarger(2 * m, v / 2); }
  }

  /** Reading one more bit of `w` below the bits that are already there. */
  lemma NextPatternBit(w: int, h: int)
    requires 0 <= w && 1 <= h
    ensures (if HasBit(w, h) then OrBit(Above(w, 2 * h), h) else Above(w, 2 * h)) == Above(w, h)
  {
    HalveLast(w, h);
    var q := w / (2 * h);
    assert w == q * (2 * h) + w % (2 * h);
    assert q * (2 * h) == (2 * q) * h;
    Quotient(w - w % (2 * h), 2 * q, h, 0);
  }

  lemma AboveOne(w: int)
    ensures Above(w, 1) == w
  {
  }

  lemma {:induction false} PatternReads(r: DecRun, st: nat, m: int, w: int, rest: seq<Decision>, tail: Ending)
    requires 0 <= w && IsBit(m) && st < NUM_BINS
    requires Feeding(r, Pattern(st, m, w) + rest, tail)
    ensures Readable(r)
    ensures var x := ReadPattern(r, st, m, Above(w, m));
            x.Got? && x.v == w && Feeding(x.r, rest, tail)
    decreases m
  {
    FeedingIsReadable(r, Pattern(st, m, w) + rest, tail);
    hide Feeding, ReadBit, Readable, OrBit, Above, HasBit;
    if m == 1 {
      assert Above(w, 1) == w by { AboveOne(w); }
      assert Pattern(st, m, w) + rest == rest;
    } else {
      var h := m / 2;
      var d, more := Decision(st, HasBit(w, h)), Pattern(st, h, w);
      assert Pattern(st, m, w) + rest == [d] + (more + rest);
      ReadNext(r, d, more + rest, tail);
      assert m == 2 * h;
      NextPatternBit(w, h);
      var x := ReadBit(r, st);
      PatternReads(x.r, st, h, w, rest, tail);
      assert ReadPattern(r, st, m, Above(w, m))
          == ReadPattern(x.r, st, h, if x.v then OrBit(Above(w, m), h) else Above(w, m));
    }
  }

  /** Category of `v`, then the bits of `w` below its top. */
  function MagnitudeBits(st: nat, v: int, w: int): seq<Decision>
    requires 1 <= v && 1 <= w
  {
    Category(st, v) + Pattern(CategoryEnd(st, v) + 14, TopBit(w), w)
  }

  // ---------------------------------------------------------------- DC differences

  /** Conditioning bounds of one DC table, arith_dc_L and arith_dc_U. */
  datatype Bounds = Bounds(lower: nat, upper: nat)

  /** Magnitude of `v` less one, for a nonzero `v`, as the category and pattern bins see it. */
  function Excess(v: int): int { Abs(v) - 1 }

  /** Figures F.4 and F.6 to F.9 for the difference `v`; `s0` is the bin that the context selects. */
  function DcDecisions(area: nat, context: nat, v: int): seq<Decision> {
    var s0 := area + context;
    if v == 0 then [Decision(s0, false)]
    else
      var st := if v > 0 then s0 + 2 else s0 + 3;
      var w := Excess(v);
      [Decision(s0, true)] + ([Decision(s0 + 1, v < 0)] + DcMagnitude(area, st, w))
  }

  function DcMagnitude(area: nat, st: nat, w: int): seq<Decision>
    requires 0 <= w
  {
    if w == 0 then [Decision(st, false)]
    else [Decision(st, true)] + MagnitudeBits(area + 20, w, w)
  }

  /** Section F.1.4.4.1.2, from the top bit of the magnitude (0 for a magnitude of one). */
  function ContextFrom(b: Bounds, m: int, negative: bool): (context: nat)
    ensures context <= 16
  {
    if m < Pow2(b.lower) / 2 then 0
    else if m > Pow2(b.upper) / 2 then (if negative then 16 else 12)
    else if negative then 8 else 4
  }

  function NextContext(b: Bounds, v: int): nat {
    if v == 0 then 0 else ContextFrom(b, if Excess(v) == 0 then 0 else TopBit(Excess(v)), v < 0)
  }

  /** Figures F.21 to F.24 without the sign: gives the magnitude less one, and its top bit. */
  function ReadDcMagnitude(r: DecRun, area: nat, st: nat): (x: Read<(int, int)>)
    requires Readable(r) && area + DC_STAT_BINS <= NUM_BINS && st < NUM_BINS
    ensures x.Got? ==> Readable(x.r)
  {
    hide ReadBit, Readable, ReadMagnitude;
    RoomAtStart();
    var (r1, more) :- ReadBit(r, st);
    if more then ReadMagnitude(r1, area + 20, 1) else Got(r1, (0, 0))
  }

  /** Figure F.19: gives the difference and the next context. */
  function ReadDc(r: DecRun, area: nat, b: Bounds, context: nat): (x: Read<(int, nat)>)
    requires Readable(r) && area + DC_STAT_BINS <= NUM_BINS && context <= 16
    ensures x.Got? ==> Readable(x.r) && x.v.1 <= 16
  {
    hide ReadBit, Readable;
    var s0 := area + context;
    var (r1, nonzero) :- ReadBit(r, s0);
    if !nonzero then Got(r1, (0, 0))
    else
      var (r2, negative) :- ReadBit(r1, s0 + 1);
      var (r3, w) :- ReadDcMagnitude(r2, area, if negative then s0 + 3 else s0 + 2);
      Got(r3, (if negative then -(w.0 + 1) else w.0 + 1, ContextFrom(b, w.1, negative)))
  }

  lemma AboveTop(w: int, m: int)
    requires 1 <= m <= w < 2 * m
    ensures Above(w, m) == m
  {
    Quotient(w, 1, m, w - m);
  }

  lemma TopBitIsSmall(w: int)
    requires 1 <= w < 0x8000
    ensures 1 <= TopBit(w) <= 0x4000 && IsBit(TopBit(w))
    ensures Grown(1, w) == TopBit(w) && Above(w, TopBit(w)) == TopBit(w)
  {
    TopBitFacts(w);
    OverflowLimitIsBit();
    GrownIsTopBit(1, w);
    hide TopBit, Grown, Above;
    BitsApart(TopBit(w), 0x8000);
    AboveTop(w, TopBit(w));
  }

  /** Category and pattern together give back the magnitude. */
  lemma MagnitudeReads(r: DecRun, st: nat, m: int, v: int, w: int, rest: seq<Decision>, tail: Ending)
    requires 1 <= w < 0x8000 && 1 <= v && IsBit(m) && Grown(m, v) == TopBit(w)
    requires st + Room(m) + 14 < NUM_BINS
    requires Feeding(r, MagnitudeBits(st, v, w) + rest, tail)
    ensures Readable(r) && m <= 0x4000
    ensures var x := ReadMagnitude(r, st, m);
            x.Got? && x.v == (w, TopBit(w)) && Feeding(x.r, rest, tail)
  {
    hide Feeding, ReadBit, Readable, ReadCategory, ReadPattern, TopBit, Grown, Above, Category, Pattern, Room, IsBit;
    TopBitIsSmall(w);
    var p := CategoryEnd(st, v) + 14;
    Assoc(Category(st, v), Pattern(p, TopBit(w), w), rest);
    CategoryReads(r, st, m, v, Pattern(p, TopBit(w), w) + rest, tail);
    PatternReads(ReadCategory(r, st, m).r, p, TopBit(w), w, rest, tail);
  }

  lemma DcMagnitudeReads(r: DecRun, area: nat, st: nat, w: int, rest: seq<Decision>, tail: Ending)
    requires 0 <= w < 0x8000 && area + DC_STAT_BINS <= NUM_BINS && st < NUM_BINS
    requires Feeding(r, DcMagnitude(area, st, w) + rest, tail)
    ensures Readable(r)
    ensures var x := ReadDcMagnitude(r, area, st);
            x.Got? && x.v == (w, if w == 0 then 0 else TopBit(w)) && Feeding(x.r, rest, tail)
  {
    hide Feeding, ReadBit, Readable, ReadMagnitude, MagnitudeBits, TopBit, Grown, Above, Room;
    RoomAtStart();
    if w == 0 {
      ReadNext(r, Decision(st, false), rest, tail);
    } else {
      Assoc([Decision(st, true)], MagnitudeBits(area + 20, w, w), rest);
      ReadNext(r, Decision(st, true), MagnitudeBits(area + 20, w, w) + rest, tail);
      TopBitIsSmall(w);
      MagnitudeReads(ReadBit(r, st).r, area + 20, 1, w, w, rest, tail);
    }
  }

  /** A DC difference is read back with the context that the encoder moves to. */
  lemma DcReads(r: DecRun, area: nat, b: Bounds, context: nat, v: int, rest: seq<Decision>, tail: Ending)
    requires Abs(v) <= 0x8000 && area + DC_STAT_BINS <= NUM_BINS && context <= 16
    requires Feeding(r, DcDecisions(area, context, v) + rest, tail)
    ensures Readable(r)
    ensures var x := ReadDc(r, area, b, context);
            x.Got? && x.v == (v, NextContext(b, v)) && Feeding(x.r, rest, tail)
  {
    hide Feeding, ReadBit, Readable, ReadDcMagnitude, DcMagnitude, ContextFrom;
    var s0 := area + context;
    if v == 0 {
      ReadNext(r, Decision(s0, false), rest, tail);
    } else {
      var st := if v > 0 then s0 + 2 else s0 + 3;
      var mag := DcMagnitude(area, st, Excess(v));
      assert DcDecisions(area, context, v) + rest
          == [Decision(s0, true)] + ([Decision(s0 + 1, v < 0)] + (mag + rest));
      ReadNext(r, Decision(s0, true), [Decision(s0 + 1, v < 0)] + (mag + rest), tail);
      var r1 := ReadBit(r, s0).r;
      ReadNext(r1, Decision(s0 + 1, v < 0), mag + rest, tail);
      DcMagnitudeReads(ReadBit(r1, s0 + 1).r, area, st, Excess(v), rest, tail);
    }
  }

  // ---------------------------------------------------------------- AC coefficients, first scan

  /** The bin of the end-of-band decision at zigzag position `k`. */
  function Position(area: nat, k: nat): nat
    requires 1 <= k
  {
    area + 3 * (k - 1)
  }

  /** First category bin beyond the two that belong to the position, for conditioning value `kx`. */
  function AcCategoryBin(area: nat, kx: nat, k: nat): nat {
    if k <= kx then area + 189 else area + 217
  }

  function AcMagnitude(area: nat, kx: nat, k: nat, w: int): seq<Decision>
    requires 1 <= k && 0 <= w
  {
    var st := Position(area, k) + 2;
    if w == 0 then [Decision(st, false)]
    else if w == 1 then [Decision(st, true), Decision(st, false)]
    else
      [Decision(st, true)] + ([Decision(st, true)] + MagnitudeBits(AcCategoryBin(area, kx, k), w / 2, w))
  }

  function ReadAcMagnitude(r: DecRun, area: nat, kx: nat, k: nat): (x: Read<int>)
    requires Readable(r) && area + AC_STAT_BINS <= NUM_BINS && 1 <= k <= 63
    ensures x.Got? ==> Readable(x.r)
  {
    hide ReadBit, Readable, ReadMagnitude;
    RoomAtStart();
    assert IsBit(2);
    var st := Position(area, k) + 2;
    var (r1, more1) :- ReadBit(r, st);
    if !more1 then Got(r1, 0)
    else
      var (r2, more2) :- ReadBit(r1, st);
      if !more2 then Got(r2, 1)
      else
        var (r3, w) :- ReadMagnitude(r2, AcCategoryBin(area, kx, k), 2);
        Got(r3, w.0)
  }

  lemma AcMagnitudeReads(r: DecRun, area: nat, kx: nat, k: nat, w: int, rest: seq<Decision>, tail: Ending)
    requires 0 <= w < 0x8000 && area + AC_STAT_BINS <= NUM_BINS && 1 <= k <= 63
    requires Feeding(r, AcMagnitude(area, kx, k, w) + rest, tail)
    ensures Readable(r)
    ensures var x := ReadAcMagnitude(r, area, kx, k);
            x.Got? && x.v == w && Feeding(x.r, rest, tail)
  {
    hide Feeding, ReadBit, Readable, ReadMagnitude, MagnitudeBits, TopBit, Room;
    var st := Position(area, k) + 2;
    if w == 0 {
      ReadNext(r, Decision(st, false), rest, tail);
    } else if w == 1 {
      assert AcMagnitude(area, kx, k, w) + rest == [Decision(st, true)] + ([Decision(st, false)] + rest);
      ReadNext(r, Decision(st, true), [Decision(st, false)] + rest, tail);
      ReadNext(ReadBit(r, st).r, Decision(st, false), rest, tail);
    } else {
      LargeAcMagnitudeReads(r, area, kx, k, w, rest, tail);
    }
  }

  lemma LargeAcMagnitudeReads(r: DecRun, area: nat, kx: nat, k: nat, w: int, rest: seq<Decision>, tail: Ending)
    requires 2 <= w < 0x8000 && area + AC_STAT_BINS <= NUM_BINS && 1 <= k <= 63
    requires Feeding(r, AcMagnitude(area, kx, k, w) + rest, tail)
    ensures Readable(r)
    ensures var x := ReadAcMagnitude(r, area, kx, k);
            x.Got? && x.v == w && Feeding(x.r, rest, tail)
  {
    hide Feeding, ReadBit, Readable, ReadMagnitude, MagnitudeBits, TopBit, Room, IsBit, Grown;
    var st, x1 := Position(area, k) + 2, AcCategoryBin(area, kx, k);
    var d, bits := [Decision(st, true)], MagnitudeBits(x1, w / 2, w);
    Assoc(d, d + bits, rest);
    Assoc(d, bits, rest);
    ReadNext(r, Decision(st, true), d + (bits + rest), tail);
    var r1 := ReadBit(r, st).r;
    ReadNext(r1, Decision(st, true), bits + rest, tail);
    TwoIsBit(w);
    MagnitudeReads(ReadBit(r1, st).r, x1, 2, w / 2, w, rest, tail);
  }

  lemma TwoIsBit(w: int)
    requires 2 <= w < 0x8000
    ensures IsBit(2) && Room(2) == 13 && Grown(2, w / 2) == TopBit(w)
  {
    RoomAtStart();
    TopBitIsSmall(w);
  }

  /** The index of the last coefficient in 1..se that the scan codes, 0 if there is none. */
  function LastNonzero(z: Block, se: nat, al: nat): (ke: nat)
    requires se <= 63
    ensures ke <= se && (ke > 0 ==> Truncated(z[ke], al) != 0)
    ensures forall k :: ke < k <= se ==> Truncated(z[k], al) == 0
  {
    if se == 0 then 0 else if Truncated(z[se], al) != 0 then se else LastNonzero(z, se - 1, al)
  }

  /** Parameters of an AC scan: band, point transform, statistics area, conditioning value. */
  datatype AcScan = AcScan(se: nat, al: nat, area: nat, kx: nat)

  predicate ValidAcScan(s: AcScan) { s.se <= 63 && s.area + AC_STAT_BINS <= NUM_BINS }

  /** Sign and magnitude of a coefficient that is `v` after the point transform. */
  function AcCoefficient(s: AcScan, v: int, k: nat): seq<Decision>
    requires 1 <= k && v != 0
  {
    [Decision(FIXED_BIN, v < 0)] + AcMagnitude(s.area, s.kx, k, Excess(v))
  }

  /** Figure F.5 from position `k` on; `eobDue` when an end-of-band decision is due there. */
  function AcDecisions(s: AcScan, z: Block, ke: nat, k: nat, eobDue: bool): seq<Decision>
    requires ValidAcScan(s) && ke <= s.se && 1 <= k
    requires eobDue || k <= ke
    requires ke > 0 ==> Truncated(z[ke], s.al) != 0
    decreases s.se + 1 - k, if eobDue then 1 else 0
  {
    var p := Position(s.area, k);
    if eobDue then
      if k > ke then (if k <= s.se then [Decision(p, true)] else [])
      else [Decision(p, false)] + AcDecisions(s, z, ke, k, false)
    else
      var v := Truncated(z[k], s.al);
      if v == 0 then [Decision(p + 1, false)] + AcDecisions(s, z, ke, k + 1, false)
      else [Decision(p + 1, true)] + (AcCoefficient(s, v, k) + AcDecisions(s, z, ke, k + 1, true))
  }

  function ReadAcCoefficient(s: AcScan, r: DecRun, k: nat): (x: Read<int>)
    requires ValidAcScan(s) && Readable(r) && 1 <= k <= s.se
    ensures x.Got? ==> Readable(x.r)
  {
    hide ReadBit, Readable, ReadAcMagnitude, Short;
    var (r1, negative) :- ReadBit(r, FIXED_BIN);
    var (r2, w) :- ReadAcMagnitude(r1, s.area, s.kx, k);
    var v := if negative then -(w + 1) else w + 1;
    Got(r2, Short(v * Pow2(s.al)))
  }

  /** Figure F.20 from position `k` on. */
  function ReadAc(s: AcScan, r: DecRun, z: Block, k: nat, eobDue: bool): (x: Read<Block>)
    requires ValidAcScan(s) && Readable(r) && 1 <= k && (eobDue || k <= s.se)
    ensures x.Got? ==> Readable(x.r)
    decreases s.se + 1 - k, if eobDue then 1 else 0
  {
    hide ReadBit, Readable, ReadAcCoefficient;
    var p := Position(s.area, k);
    if eobDue then
      if k > s.se then Got(r, z)
      else
        var (r1, eob) :- ReadBit(r, p);
        if eob then Got(r1, z) else ReadAc(s, r1, z, k, false)
    else
      var (r1, nonzero) :- ReadBit(r, p + 1);
      if !nonzero then
        if k + 1 > s.se then Bad else ReadAc(s, r1, z, k + 1, false)
      else
        var (r2, v) :- ReadAcCoefficient(s, r1, k);
        ReadAc(s, r2, z[k := v], k + 1, true)
  }

  /** A block whose band from `k` on holds the approximations of `z`, and otherwise is `prev`. */
  function Approximated(se: nat, al: nat, prev: Block, z: Block, k: nat): Block {
    seq(64, j requires 0 <= j < 64 => if k <= j <= se then Approx(z[j], al) else prev[j])
  }

  lemma ApproximatedStep(se: nat, al: nat, prev: Block, z: Block, k: nat, v: int)
    requires k <= se <= 63 && v == Approx(z[k], al)
    ensures Approximated(se, al, prev[k := v], z, k + 1) == Approximated(se, al, prev, z, k)
  {
  }

  lemma ApproximatedRest(se: nat, al: nat, prev: Block, z: Block, k: nat)
    requires se <= 63 && forall j :: k <= j <= se ==> prev[j] == Approx(z[j], al)
    ensures Approximated(se, al, prev, z, k) == prev
  {
  }

  /** Where nothing is left to code, a band of zeros is already right. */
  lemma BandIsDone(se: nat, al: nat, prev: Block, z: Block, k: nat)
    requires se <= 63 && LastNonzero(z, se, al) < k
    requires forall j :: k <= j <= se ==> prev[j] == 0
    ensures Approximated(se, al, prev, z, k) == prev
  {
    forall j | k <= j <= se ensures prev[j] == Approx(z[j], al) {
      ApproxOfZero(z[j], al);
    }
    ApproximatedRest(se, al, prev, z, k);
  }

  /** A first AC scan gives every coefficient of the band, to the precision of the scan. */
  lemma {:induction false} AcReads(s: AcScan, r: DecRun, prev: Block, z: Block, k: nat, eobDue: bool,
                                   rest: seq<Decision>, tail: Ending)
    requires ValidAcScan(s) && 1 <= k && IsShortBlock(z)
    requires forall j :: k <= j <= s.se ==> prev[j] == 0
    requires eobDue || k <= LastNonzero(z, s.se, s.al)
    requires Feeding(r, AcDecisions(s, z, LastNonzero(z, s.se, s.al), k, eobDue) + rest, tail)
    ensures Readable(r)
    ensures var x := ReadAc(s, r, prev, k, eobDue);
            x.Got? && x.v == Approximated(s.se, s.al, prev, z, k) && Feeding(x.r, rest, tail)
    decreases s.se + 1 - k, if eobDue then 1 else 0
  {
    hide Feeding, ReadBit, Readable, ReadAcCoefficient, AcCoefficient, LastNonzero, Truncated, Approx, Approximated;
    var ke := LastNonzero(z, s.se, s.al);
    FeedingIsReadable(r, AcDecisions(s, z, ke, k, eobDue) + rest, tail);
    var p := Position(s.area, k);
    if eobDue {
      if k > ke {
        BandIsDone(s.se, s.al, prev, z, k);
        if k <= s.se {
          ReadNext(r, Decision(p, true), rest, tail);
        } else {
          assert [] + rest == rest;
        }
      } else {
        var more := AcDecisions(s, z, ke, k, false);
        Assoc([Decision(p, false)], more, rest);
        ReadNext(r, Decision(p, false), more + rest, tail);
        AcReads(s, ReadBit(r, p).r, prev, z, k, false, rest, tail);
      }
    } else if Truncated(z[k], s.al) == 0 {
      var more := AcDecisions(s, z, ke, k + 1, false);
      Assoc([Decision(p + 1, false)], more, rest);
      ReadNext(r, Decision(p + 1, false), more + rest, tail);
      AcReads(s, ReadBit(r, p + 1).r, prev, z, k + 1, false, rest, tail);
      ApproxOfZero(z[k], s.al);
      assert prev[k := 0] == prev;
      ApproximatedStep(s.se, s.al, prev, z, k, 0);
    } else {
      var more, coef := AcDecisions(s, z, ke, k + 1, true), AcCoefficient(s, Truncated(z[k], s.al), k);
      Assoc4([Decision(p + 1, true)], coef, more, rest);
      ReadNext(r, Decision(p + 1, true), coef + (more + rest), tail);
      var r1 := ReadBit(r, p + 1).r;
      AcCoefficientReads(s, r1, z[k], k, more + rest, tail);
      var v := Approx(z[k], s.al);
      AcReads(s, ReadAcCoefficient(s, r1, k).r, prev[k := v], z, k + 1, true, rest, tail);
      ApproximatedStep(s.se, s.al, prev, z, k, v);
    }
  }

  /** Sign and magnitude of a coefficient give its approximation back. */
  lemma AcCoefficientReads(s: AcScan, r: DecRun, v: int, k: nat, rest: seq<Decision>, tail: Ending)
    requires ValidAcScan(s) && 1 <= k <= s.se && IsShort(v) && Truncated(v, s.al) != 0
    requires Feeding(r, AcCoefficient(s, Truncated(v, s.al), k) + rest, tail)
    ensures Readable(r)
    ensures var x := ReadAcCoefficient(s, r, k);
            x.Got? && x.v == Approx(v, s.al) && Feeding(x.r, rest, tail)
  {
    hide Feeding, ReadBit, Readable, ReadAcMagnitude, AcMagnitude, Truncated, Short;
    var t := Truncated(v, s.al);
    ApproxIsShort(v, s.al);
    var mag := AcMagnitude(s.area, s.kx, k, Excess(t));
    Assoc([Decision(FIXED_BIN, t < 0)], mag, rest);
    ReadNext(r, Decision(FIXED_BIN, t < 0), mag + rest, tail);
    AcMagnitudeReads(ReadBit(r, FIXED_BIN).r, s.area, s.kx, k, Excess(t), rest, tail);
  }
}
