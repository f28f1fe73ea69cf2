/** The coder of section D.1 of T.81 with unbounded precision: the interval is a pair of real numbers, and
    nothing is ever shifted out, stacked or carried. The register encoder refines it. */
module ExactInterval {
  import opened EstimationTable
  import opened Bytes
  import opened ArithCoding

  /** The interval [base, base + size * unit) inside [0, 1). */
  datatype Exact = Exact(base: real, size: int, unit: real)

  /** `n` units. */
  function Units(n: real, unit: real): real { n * unit }

  const WHOLE_INTERVAL := Exact(0.0, 0x10000, 1.0 / 65536.0)

  /** Double the count of units, halve the unit, until the count is back in range. */
  function Rescale(x: Exact): (r: Exact)
    requires 0 < x.size <= 0x10000
    ensures 0x8000 <= r.size <= 0x10000 && r.base == x.base
    decreases 0x8000 - x.size
  {
    if x.size >= 0x8000 then x else Rescale(x.(size := 2 * x.size, unit := x.unit / 2.0))
  }

  function ExactStep(x: Exact, sv: Stat, bit: bool): Exact
    requires 0x8000 <= x.size <= 0x10000
  {
    ChoiceBounds(x.size, sv, bit);
    var ch := Choose(x.size, sv, bit);
    Rescale(Exact(x.base + Units(ch.offset as real, x.unit), ch.size, x.unit))
  }

  datatype ExactRun = ExactRun(x: Exact, bins: seq<Stat>)

  function RunExact(r: ExactRun, ds: seq<Decision>): (r': ExactRun)
    requires 0x8000 <= r.x.size <= 0x10000 && InRange(ds, |r.bins|)
    decreases |ds|
  {
    if ds == [] then r
    else
      var sv := r.bins[ds[0].bin];
      ChoiceBounds(r.x.size, sv, ds[0].bit);
      RunExact(ExactRun(ExactStep(r.x, sv, ds[0].bit),
                        r.bins[ds[0].bin := Choose(r.x.size, sv, ds[0].bit).stat]), ds[1..])
  }

  /** Position `y` of the register interval is position `y` of the exact one. */
  ghost predicate Refines(e: Enc, x: Exact)
    requires Ready(e)
  {
    e.a == x.size && forall y: real :: Value(e, y) == x.base + Units(y, x.unit)
  }

  lemma {:induction false} RescaleMovesNothing(x: Exact, y: real)
    requires 0 < x.size <= 0x10000
    ensures Rescale(x).size == Size(x.size)
    ensures Units(Unscaled(x.size, y), x.unit) == Units(y, Rescale(x).unit)
    decreases 0x8000 - x.size
  {
    if x.size < 0x8000 {
      RescaleMovesNothing(x.(size := 2 * x.size, unit := x.unit / 2.0), y);
      var u := Unscaled(2 * x.size, y);
      assert u / 2.0 * x.unit == u * (x.unit / 2.0);
    }
  }

  lemma UnitsAdd(m: real, n: real, unit: real)
    ensures Units(m + n, unit) == Units(m, unit) + Units(n, unit)
  {
  }

  lemma StepRefinesAt(e: Enc, x: Exact, sv: Stat, bit: bool, y: real)
    requires Ready(e) && e.a == x.size
    requires Value(e, Before(e.a, sv, bit, y)) == x.base + Units(Before(e.a, sv, bit, y), x.unit)
    ensures Encode(e, sv, bit).a == ExactStep(x, sv, bit).size
    ensures Value(Encode(e, sv, bit), y) == ExactStep(x, sv, bit).base + Units(y, ExactStep(x, sv, bit).unit)
  {
    hide Choose, Encode, Rescale, Unscaled, Units, Value, Fraction, Digits, Down, Up;
    ChoiceBounds(e.a, sv, bit);
    EncodeSize(e, sv, bit);
    EncodeKeepsValue(e, sv, bit, y);
    var ch := Choose(e.a, sv, bit);
    var narrowed := Exact(x.base + Units(ch.offset as real, x.unit), ch.size, x.unit);
    RescaleMovesNothing(narrowed, y);
    UnitsAdd(ch.offset as real, Unscaled(ch.size, y), x.unit);
  }

  lemma StepRefines(e: Enc, x: Exact, sv: Stat, bit: bool)
    requires Ready(e) && Refines(e, x)
    ensures Refines(Encode(e, sv, bit), ExactStep(x, sv, bit))
  {
    hide Encode, ExactStep, Before, Units;
    StepRefinesAt(e, x, sv, bit, 0.0);
    forall y: real
      ensures Value(Encode(e, sv, bit), y) == ExactStep(x, sv, bit).base + Units(y, ExactStep(x, sv, bit).unit)
    {
      StepRefinesAt(e, x, sv, bit, y);
    }
  }

  lemma StartRefines()
    ensures Ready(START_ENC) && Refines(START_ENC, WHOLE_INTERVAL)
  {
    StartIsReady();
    assert Digits(START_ENC) == [];
    forall y: real ensures Value(START_ENC, y) == y / 65536.0 {
      Down8(y);
      Down8(y / 256.0);
    }
  }

  lemma Down8(z: real)
    ensures Down(z, 8) == z / 256.0 && Down(z, 16) == Down(z / 256.0, 8)
  {
    assert Down(z, 8) == Down(z / 16.0, 4);
    assert Down(z, 16) == Down(z / 16.0, 12);
    assert Down(z / 16.0, 12) == Down(z / 256.0, 8);
  }

  lemma {:induction false} RunRefines(r: EncRun, x: ExactRun, ds: seq<Decision>)
    requires Ready(r.e) && InRange(ds, |r.bins|) && r.bins == x.bins && Refines(r.e, x.x)
    ensures var r', x' := EncodeRun(r, ds), RunExact(x, ds);
            r'.bins == x'.bins && Refines(r'.e, x'.x)
    decreases |ds|
  {
    hide Encode, Choose, ExactStep, Refines;
    assert r.e.a == x.x.size by { SameSize(r.e, x.x); }
    if ds != [] {
      var sv, bit := r.bins[ds[0].bin], ds[0].bit;
      ChoiceBounds(x.x.size, sv, bit);
      StepRefines(r.e, x.x, sv, bit);
      var x1 := ExactRun(ExactStep(x.x, sv, bit), x.bins[ds[0].bin := Choose(x.x.size, sv, bit).stat]);
      RunRefines(EncodeStep(r, ds[0]), x1, ds[1..]);
    }
  }

  lemma SameSize(e: Enc, x: Exact)
    requires Ready(e) && Refines(e, x)
    ensures e.a == x.size
  {
  }

  /** After any decisions: the bytes written, the pending zeros, the buffered byte, the stacked 0xFF bytes and
      the register, read as one number, are exactly the base of the unbounded-precision interval, and the two
      intervals have the same size. */
  lemma EncoderRefinesExactCoder(ds: seq<Decision>, bins: seq<Stat>)
    requires InRange(ds, |bins|)
    ensures Ready(START_ENC)
    ensures var r, x := EncodeRun(EncRun(START_ENC, bins), ds), RunExact(ExactRun(WHOLE_INTERVAL, bins), ds);
            && r.bins == x.bins && r.e.a == x.x.size && 0x8000 <= r.e.a <= 0x10000
            && Value(r.e, 0.0) == x.x.base
            && (forall y: real :: Value(r.e, y) == x.x.base + Units(y, x.x.unit))
  {
    StartRefines();
    RunRefines(EncRun(START_ENC, bins), ExactRun(WHOLE_INTERVAL, bins), ds);
    assert Units(0.0, RunExact(ExactRun(WHOLE_INTERVAL, bins), ds).x.unit) == 0.0;
    hide EncodeRun, RunExact, Units;
  }

  /** The finished segment, read as a binary fraction, is a number of the final exact interval. */
  lemma SegmentIsInsideExactInterval(ds: seq<Decision>, bins: seq<Stat>)
    requires InRange(ds, |bins|)
    ensures Ready(START_ENC)
    ensures var r, x := EncodeRun(EncRun(START_ENC, bins), ds), RunExact(ExactRun(WHOLE_INTERVAL, bins), ds);
            && Fraction(Finish(r.e), 0.0) == x.x.base + Units((FinalPoint(r.e) - r.e.c) as real, x.x.unit)
            && 0 <= FinalPoint(r.e) - r.e.c < x.x.size
  {
    hide Finish, FinalPoint, EncodeRun, RunExact, Units, Fraction, Digits, Down;
    EncoderRefinesExactCoder(ds, bins);
    FinishedPoint(EncodeRun(EncRun(START_ENC, bins), ds).e, RunExact(ExactRun(WHOLE_INTERVAL, bins), ds).x);
  }

  lemma FinishedPoint(e: Enc, x: Exact)
    requires Ready(e) && e.a == x.size && forall y: real :: Value(e, y) == x.base + Units(y, x.unit)
    ensures Fraction(Finish(e), 0.0) == x.base + Units((FinalPoint(e) - e.c) as real, x.unit)
    ensures 0 <= FinalPoint(e) - e.c < x.size
  {
    FinishKeepsValue(e);
    FinalPointIsInside(e);
  }

  // ---------------------------------------------------------------- the shortest output

  /** Bytes are written so that a segment never ends in a zero byte. */
  predicate NoFinalZero(s: seq<byte>) { s == [] || s[|s| - 1] != 0 }

  lemma {:induction false} RenormKeepsNoFinalZero(e: Enc)
    requires Shape(e) && 1 <= e.ct && NoFinalZero(e.out)
    ensures NoFinalZero(Renorm(e).out)
    decreases 0x8000 - e.a
  {
    if e.a < 0x8000 {
      ShiftKeepsValue(e, 0.0);
      ShiftedKeepsShape(e);
      if e.ct == 1 { CarryIsCaught(Shifted(e)); }
      RenormKeepsNoFinalZero(Shift(e));
    }
  }

  lemma {:induction false} RunKeepsNoFinalZero(r: EncRun, ds: seq<Decision>)
    requires Ready(r.e) && InRange(ds, |r.bins|) && NoFinalZero(r.e.out)
    ensures NoFinalZero(EncodeRun(r, ds).e.out)
    decreases |ds|
  {
    if ds != [] {
      var sv, bit := r.bins[ds[0].bin], ds[0].bit;
      ChoiceBounds(r.e.a, sv, bit);
      var ch := Choose(r.e.a, sv, bit);
      hide Choose, Shape, Renorm;
      NarrowKeepsShape(r.e, ch);
      RenormKeepsNoFinalZero(Narrow(r.e, ch));
      RunKeepsNoFinalZero(EncodeStep(r, ds[0]), ds[1..]);
    }
  }

  /** The last data byte of a finished segment is never zero; after stuffing, a final 0x00 can only be the one
      that belongs to a 0xFF. */
  lemma SegmentHasNoFinalZero(ds: seq<Decision>, bins: seq<Stat>)
    requires InRange(ds, |bins|)
    ensures Ready(START_ENC)
    ensures NoFinalZero(Finish(EncodeRun(EncRun(START_ENC, bins), ds).e))
  {
    StartIsReady();
    var r := EncodeRun(EncRun(START_ENC, bins), ds);
    RunKeepsNoFinalZero(EncRun(START_ENC, bins), ds);
    hide FinalPoint, EncodeRun;
    LastTwoBytes(r.e);
  }
}
