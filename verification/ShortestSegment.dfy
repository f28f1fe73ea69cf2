/** The arithmetic encoder ends a segment in the fewest bytes: no shorter byte sequence denotes a number of the final
    interval (the comments on finish_pass in jcarith.c; section D.1.8 of ITU-T T.81). */
module ShortestSegment {
  import opened EstimationTable
  import opened Arithmetic
  import opened Bytes
  import opened ArithCoding
  import opened ExactInterval

  /** The bytes as one number. */
  function Mantissa(s: seq<byte>): nat {
    if s == [] then 0 else 256 * Mantissa(s[..|s| - 1]) + s[|s| - 1]
  }

  lemma Pow2OfByte(k: nat)
    ensures Pow2(k + 8) == 256 * Pow2(k)
  {
    assert Pow2(k + 2) == 4 * Pow2(k);
    assert Pow2(k + 4) == 4 * Pow2(k + 2);
    assert Pow2(k + 6) == 4 * Pow2(k + 4);
    assert Pow2(k + 8) == 4 * Pow2(k + 6);
  }

  lemma {:induction false} Pow2Sum(j: nat, k: nat)
    ensures Pow2(j + k) == Pow2(j) * Pow2(k)
    decreases k
  {
    if k > 0 {
      Pow2Sum(j, k - 1);
      assert Pow2(j) * (2 * Pow2(k - 1)) == 2 * (Pow2(j) * Pow2(k - 1));
    }
  }

  /** A fraction of `|s|` bytes is a number over 256^|s|. */
  lemma {:induction false} FractionIsMantissa(s: seq<byte>, tail: real)
    ensures Fraction(s, tail) * Pow2(8 * |s|) as real == Mantissa(s) as real + tail
    decreases |s|
  {
    hide Pow2, Fraction;
    if s == [] {
      NoBytes(tail);
    } else {
      var front, last := s[..|s| - 1], s[|s| - 1];
      assert s == front + [last];
      var t := (last as real + tail) / 256.0;
      FractionOfMore(front, last, tail);
      FractionIsMantissa(front, t);
      Pow2OfByte(8 * |front|);
      assert 8 * |s| == 8 * |front| + 8;
      Scaled(Fraction(front, t), Pow2(8 * |front|), Mantissa(front), t);
    }
  }

  lemma NoBytes(tail: real)
    ensures Fraction([], tail) * Pow2(0) as real == tail
  {
  }

  lemma FractionOfMore(front: seq<byte>, last: byte, tail: real)
    ensures Fraction(front + [last], tail) == Fraction(front, (last as real + tail) / 256.0)
  {
    FractionConcat(front, [last], tail);
    assert [last][1..] == [];
  }

  lemma Scaled(f: real, p: int, m: int, t: real)
    requires f * p as real == m as real + t
    ensures f * (256 * p) as real == (256 * m) as real + 256.0 * t
  {
    assert f * (256.0 * p as real) == 256.0 * (f * p as real);
  }

  lemma {:induction false} DownTimesPower(z: real, k: nat)
    ensures Down(z, k) * Pow2(k) as real == z
    decreases k
  {
    if k > 0 {
      DownTimesPower(z / 2.0, k - 1);
      var d, p := Down(z / 2.0, k - 1), Pow2(k - 1);
      assert d * (2.0 * p as real) == 2.0 * (d * p as real);
    }
  }

  /** How many binary places the register reaches below the point, and the number that its 16 low bits continue. */
  function Places(e: Enc): nat
    requires Ready(e)
  {
    8 * |Digits(e)| + (27 - e.ct)
  }

  function AboveRegister(e: Enc): nat
    requires Ready(e)
  {
    Mantissa(Digits(e)) * Pow2(11 - e.ct)
  }

  /** In units of the register the interval consists of whole numbers. */
  lemma ValueInUnits(e: Enc, y: real)
    requires Ready(e)
    ensures Value(e, y) * Pow2(Places(e)) as real == (0x10000 * AboveRegister(e) + e.c) as real + y
  {
    hide Digits, Down, Fraction, Mantissa, Pow2;
    var d, w := Digits(e), 27 - e.ct;
    var z := Down(e.c as real + y, w);
    FractionIsMantissa(d, z);
    DownTimesPower(e.c as real + y, w);
    Pow2Sum(8 * |d|, w);
    Pow2Sum(16, 11 - e.ct);
    Pow2Of15();
    var f, p, q, m := Fraction(d, z), Pow2(8 * |d|), Pow2(w), Mantissa(d);
    assert f * (p * q) as real == (f * p as real) * q as real by { Regroup(f, p, q); }
    assert (m as real + z) * q as real == m as real * q as real + z * q as real;
    assert m * q == 0x10000 * AboveRegister(e) by { Regrouped(m, 0x10000, Pow2(11 - e.ct)); }
  }

  lemma Regroup(f: real, p: int, q: int)
    ensures f * (p * q) as real == (f * p as real) * q as real
  {
  }

  lemma Regrouped(m: int, p: int, q: int)
    ensures m * (p * q) == p * (m * q)
  {
  }

  // ---------------------------------------------------------------- the fewest bytes

  /** The sequence denotes a number of the interval. */
  ghost predicate InInterval(e: Enc, s: seq<byte>)
    requires Ready(e)
  {
    Value(e, 0.0) <= Fraction(s, 0.0) < Value(e, e.a as real)
  }

  lemma IntervalMeans(e: Enc, s: seq<byte>)
    requires Ready(e) && InInterval(e, s)
    ensures -1 <= e.buffer <= 0xFE && e.ct <= 27 && Value(e, 0.0) <= Fraction(s, 0.0) < Value(e, e.a as real)
  {
  }

  /** If it is short enough to end above the last place of the register, it is a point of the register. */
  lemma ShortOnesArePoints(e: Enc, s: seq<byte>)
    requires Ready(e) && InInterval(e, s) && 8 * |s| <= Places(e)
    ensures var full := Mantissa(s) * Pow2(Places(e) - 8 * |s|);
            e.c <= full - 0x10000 * AboveRegister(e) < e.c + e.a && EndsInZeros(full, Places(e) - 8 * |s|)
  {
    hide *;
    var k := Places(e) - 8 * |s|;
    var full, f, p := Mantissa(s) * Pow2(k), Fraction(s, 0.0), Pow2(Places(e)) as real;
    IntervalMeans(e, s);
    ValueInUnits(e, 0.0);
    ValueInUnits(e, e.a as real);
    FractionIsMantissa(s, 0.0);
    Pow2Sum(8 * |s|, k);
    Placed(f, Pow2(8 * |s|), Pow2(k), Mantissa(s));
    InOrder(Value(e, 0.0), f, Value(e, e.a as real), p);
    Between(full, 0x10000 * AboveRegister(e), e.c, e.a);
    Quotient(full, Mantissa(s), Pow2(k), 0);
    EndsInZerosIsDivisibility(full, k);
  }

  lemma Placed(f: real, p: int, q: int, m: int)
    requires f * p as real == m as real
    ensures f * (p * q) as real == (m * q) as real
  {
    Regroup(f, p, q);
    ProductOfInts(m, q);
  }

  lemma Between(full: int, above: int, c: int, a: int)
    requires (above + c) as real + 0.0 <= full as real < (above + c) as real + a as real
    ensures c <= full - above < c + a
  {
  }

  lemma InOrder(x: real, y: real, z: real, p: real)
    requires x <= y < z && p > 0.0
    ensures x * p <= y * p < z * p
  {
    Positive(y - x, p);
    Positive(z - y, p);
    assert (y - x) * p == y * p - x * p && (z - y) * p == z * p - y * p;
  }

  lemma Positive(d: real, p: real)
    requires d >= 0.0 && p > 0.0
    ensures d * p >= 0.0 && (d > 0.0 ==> d * p > 0.0)
  {
  }

  /** What the encoder sends, in units of the register. */
  lemma SentInUnits(e: Enc)
    requires Ready(e)
    ensures var data, sent := Finish(e), 0x10000 * AboveRegister(e) + FinalPoint(e);
            Mantissa(data) * Pow2(Places(e)) == sent * Pow2(8 * |data|)
  {
    hide *;
    var data, sent := Finish(e), 0x10000 * AboveRegister(e) + FinalPoint(e);
    FinishKeepsValue(e);
    ValueInUnits(e, (FinalPoint(e) - e.c) as real);
    FractionIsMantissa(data, 0.0);
    TwoWays(Fraction(data, 0.0), Pow2(Places(e)), Pow2(8 * |data|), sent, Mantissa(data));
  }

  lemma TwoWays(f: real, p: int, q: int, sent: int, m: int)
    requires f * p as real == sent as real && f * q as real == m as real
    ensures m * p == sent * q
  {
    Swap(f, p as real, q as real);
    ProductOfInts(m, p);
    ProductOfInts(sent, q);
  }

  lemma ProductOfInts(a: int, b: int)
    ensures (a * b) as real == a as real * b as real
  {
  }

  lemma Swap(f: real, p: real, q: real)
    ensures (f * p) * q == (f * q) * p
  {
  }

  /** Too many bytes would end in a zero byte. */
  lemma EndsInZeroByte(m: nat, sent: nat, places: nat, k: nat, n: nat)
    requires m * Pow2(places) == sent * Pow2(n) && EndsInZeros(sent, k) && places + 8 <= n + k
    ensures m % 256 == 0
  {
    hide Pow2;
    EndsInZerosIsDivisibility(sent, k);
    var q, rest := sent / Pow2(k), n + k - places - 8;
    Exact(sent, Pow2(k));
    Pow2Sum(k, n);
    Pow2Sum(rest + 8, places);
    Pow2OfByte(rest);
    Regrouped(Pow2(n), q, Pow2(k));
    assert sent * Pow2(n) == q * Pow2(k + n) by { Associated(q, Pow2(k), Pow2(n)); }
    assert q * Pow2(k + n) == (q * Pow2(rest + 8)) * Pow2(places) by { Associated(q, Pow2(rest + 8), Pow2(places)); }
    Cancel(m, q * Pow2(rest + 8), Pow2(places));
    assert m == (q * Pow2(rest)) * 256 by { Associated(q, Pow2(rest), 256); }
    Quotient(m, q * Pow2(rest), 256, 0);
  }

  lemma Exact(x: nat, d: int)
    requires d > 0 && x % d == 0
    ensures x == x / d * d
  {
  }

  lemma Associated(a: int, b: int, c: int)
    ensures (a * b) * c == a * (b * c)
  {
  }

  lemma Cancel(x: int, y: int, p: int)
    requires x * p == y * p && p > 0
    ensures x == y
  {
    assert (x - y) * p == 0;
    SmallMultiple(x - y, p);
  }

  lemma LastByteCounts(s: seq<byte>)
    requires s != [] && Mantissa(s) % 256 == 0
    ensures !NoFinalZero(s)
  {
  }

  /** No sequence of fewer bytes denotes a number of the final interval. */
  lemma FewestBytes(e: Enc, s: seq<byte>)
    requires Ready(e) && NoFinalZero(Finish(e)) && InInterval(e, s)
    ensures |Finish(e)| <= |s|
  {
    var data, places, above := Finish(e), Places(e), AboveRegister(e);
    var sent := 0x10000 * above + FinalPoint(e);
    FinalPointIsInside(e);
    SentInUnits(e);
    hide Places, AboveRegister, Mantissa, Pow2, FinalPoint, Finish, NoFinalZero, Fraction, Value, EndsInZeros;
    if |data| > |s| {
      if 8 * |s| <= places {
        var k := places - 8 * |s|;
        ShortOnesArePoints(e, s);
        FinalPointEndsInMostZeros(e, above, Mantissa(s) * Pow2(k) - 0x10000 * above, k);
        EndsInZeroByte(Mantissa(data), sent, places, k, 8 * |data|);
      } else {
        NoZeros(sent);
        EndsInZeroByte(Mantissa(data), sent, places, 0, 8 * |data|);
      }
      LastByteCounts(data);
    }
  }

  lemma NoZeros(x: int)
    ensures EndsInZeros(x, 0)
  {
  }

  /** Whatever has been coded, no shorter sequence of bytes denotes a number of the exact interval. */
  lemma SegmentIsShortest(ds: seq<Decision>, bins: seq<Stat>, s: seq<byte>)
    requires InRange(ds, |bins|)
    requires var x := RunExact(ExactRun(WHOLE_INTERVAL, bins), ds).x;
             x.base <= Fraction(s, 0.0) < x.base + Units(x.size as real, x.unit)
    ensures Ready(START_ENC) && |Finish(EncodeRun(EncRun(START_ENC, bins), ds).e)| <= |s|
  {
    EncoderRefinesExactCoder(ds, bins);
    SegmentHasNoFinalZero(ds, bins);
    hide EncodeRun, RunExact, Units, Fraction, Value, Finish, NoFinalZero;
    FewestBytes(EncodeRun(EncRun(START_ENC, bins), ds).e, s);
  }
}
