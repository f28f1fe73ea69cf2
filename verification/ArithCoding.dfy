/** The adaptive binary arithmetic coder as state transformers on values (jcarith.c, jdarith.c).
    `out` holds data bytes before 0xFF stuffing; the classes built on this module write the stuffed stream. */
module ArithCoding {
  import opened EstimationTable
  import opened Bytes
  import opened Arithmetic

  /** Encoder registers: interval base `c` and size `a`, stacked 0xFF bytes `sc`, pending zero bytes `zc`,
      shifts until the next byte `ct`, last byte that can still take a carry `buffer` (-1 when empty). */
  datatype Enc = Enc(c: int, a: int, sc: nat, zc: nat, ct: int, buffer: int, out: seq<byte>)

  const START_ENC := Enc(0, 0x10000, 0, 0, 11, -1, [])

  // ---------------------------------------------------------------- interval selection

  /** How one decision narrows the interval: by how much the base moves, the new size before
      renormalisation, and the new statistics byte. */
  datatype Choice = Choice(offset: int, size: int, stat: Stat)

  function Mps(sv: Stat): bool { sv >= 128 }

  function Choose(a: int, sv: Stat, bit: bool): Choice {
    hide Lookup;
    var r := Lookup(sv);
    var a1 := a - r.qe;
    if bit != Mps(sv) then
      if a1 >= r.qe then Choice(a1, r.qe, Successor(sv, r.afterLps))
      else Choice(0, a1, Successor(sv, r.afterLps))
    else if a1 >= 0x8000 then Choice(0, a1, sv)
    else if a1 < r.qe then Choice(a1, r.qe, Successor(sv, r.afterMps))
    else Choice(0, a1, Successor(sv, r.afterMps))
  }

  lemma ChoiceBounds(a: int, sv: Stat, bit: bool)
    requires 0x8000 <= a <= 0x10000
    ensures var ch := Choose(a, sv, bit);
            0 <= ch.offset && 0 < ch.size && ch.offset + ch.size <= a
  {
    hide Lookup;
  }

  // ---------------------------------------------------------------- encoding

  /** A complete byte has been shifted out of `c`; decide what can be written. */
  function ByteOut(e: Enc): Enc
    requires 0 <= e.c < 0x9000000 && -1 <= e.buffer <= 0xFE
  {
    var temp := e.c / 0x80000;
    var e1 :=
      if temp > 0xFF then
        var e0 := if e.buffer >= 0 then e.(out := e.out + Zeros(e.zc) + [e.buffer + 1], zc := 0) else e;
        e0.(zc := e0.zc + e.sc, sc := 0, buffer := temp % 0x100)
      else if temp == 0xFF then
        e.(sc := e.sc + 1)
      else
        SettleStack(e).(buffer := temp);
    e1.(c := e.c % 0x80000, ct := e.ct + 8)
  }

  /** No carry can reach the buffered byte and the stack any more. */
  function SettleStack(e: Enc): Enc
    requires -1 <= e.buffer <= 0xFE
  {
    var e0 :=
      if e.buffer == 0 then e.(zc := e.zc + 1)
      else if e.buffer > 0 then e.(out := e.out + Zeros(e.zc) + [e.buffer], zc := 0)
      else e;
    if e0.sc > 0 then e0.(out := e0.out + Zeros(e0.zc) + Ones(e0.sc), zc := 0, sc := 0) else e0
  }

  function Shifted(e: Enc): Enc { e.(a := 2 * e.a, c := 2 * e.c, ct := e.ct - 1) }

  // ---------------------------------------------------------------- what the registers mean

  function Pending(e: Enc): seq<byte>
    requires -1 <= e.buffer <= 0xFE
  {
    Zeros(e.zc) + (if e.buffer >= 0 then [e.buffer] else []) + Ones(e.sc)
  }

  function Digits(e: Enc): seq<byte>
    requires -1 <= e.buffer <= 0xFE
  {
    e.out + Pending(e)
  }

  /** `z` shifted right by `k` binary places, exactly. */
  function Down(z: real, k: nat): real
    decreases k
  {
    if k == 0 then z else Down(z / 2.0, k - 1)
  }

  /** `z` shifted left by `k` binary places. */
  function Up(z: int, k: nat): int
    decreases k
  {
    if k == 0 then z else Up(2 * z, k - 1)
  }

  /** Everything the encoder holds, read as one binary fraction, with the point `y` of the current
      interval (0 at its base, `a` at its end) below the register. */
  function Value(e: Enc, y: real): real
    requires -1 <= e.buffer <= 0xFE && e.ct <= 27
  {
    Fraction(Digits(e), Down(e.c as real + y, 27 - e.ct))
  }

  predicate Shape(e: Enc) {
    && 0 <= e.c && 0 < e.a <= 0x10000
    && 0 <= e.ct <= 11
    && -1 <= e.buffer <= 0xFE
    && (e.buffer == -1 ==> e.zc == 0 && e.out == [])
    && Up(e.c + e.a, e.ct) <= 0x9000000
    && Value(e, e.a as real) <= 1.0
  }

  /** What holds between calls: the registers are normalised and a byte is never overdue. */
  predicate Ready(e: Enc) {
    Shape(e) && 0x8000 <= e.a && 1 <= e.ct
  }

  lemma DownIsDivision(z: real)
    ensures Down(z, 19) == z / 524288.0
    ensures Down(z, 27) == z / 134217728.0
  {
    calc {
      Down(z, 27);
      Down(z / 4.0, 25);
      Down(z / 16.0, 23);
      Down(z / 64.0, 21);
      Down(z / 256.0, 19);
    }
    Down19(z / 256.0);
    Down19(z);
  }

  lemma Down19(z: real)
    ensures Down(z, 19) == z / 524288.0
  {
    calc {
      Down(z, 19);
      Down(z / 4.0, 17);
      Down(z / 16.0, 15);
      Down(z / 64.0, 13);
      Down(z / 256.0, 11);
      Down(z / 1024.0, 9);
      Down(z / 4096.0, 7);
      Down(z / 16384.0, 5);
      Down(z / 65536.0, 3);
      Down(z / 262144.0, 1);
      z / 524288.0;
    }
  }

  lemma {:induction false} OnesLeaveNoRoom(n: nat, t: real)
    requires Fraction(Ones(n), t) <= 1.0
    ensures t <= 1.0
  {
    if n > 0 {
      assert Ones(n)[1..] == Ones(n - 1);
      OnesLeaveNoRoom(n - 1, t);
    }
  }

  /** A carry never finds the buffer empty, and a byte plus its carry is at most 0x11F. */
  lemma CarryIsCaught(e: Enc)
    requires Shape(e) && e.ct == 0
    ensures e.c < 0x9000000
    ensures e.c / 0x80000 <= 0x11F
    ensures e.buffer == -1 ==> e.c / 0x80000 <= 0xFF
  {
    assert Up(e.c + e.a, 0) == e.c + e.a;
    if e.buffer == -1 {
      assert Digits(e) == Ones(e.sc);
      OnesLeaveNoRoom(e.sc, Down(e.c as real + e.a as real, 27));
      DownIsDivision(e.c as real + e.a as real);
    }
  }

  lemma SplitByte(c: int, y: real)
    requires 0 <= c
    ensures Down(c as real + y, 27) == ((c / 0x80000) as real + Down((c % 0x80000) as real + y, 19)) / 256.0
  {
    DownIsDivision(c as real + y);
    DownIsDivision((c % 0x80000) as real + y);
    assert c == c / 0x80000 * 0x80000 + c % 0x80000;
  }

  lemma SettleKeepsDigits(e: Enc)
    requires -1 <= e.buffer <= 0xFE
    requires e.buffer == -1 ==> e.zc == 0 && e.out == []
    ensures var s := SettleStack(e); s.out + Zeros(s.zc) == Digits(e) && s.sc == 0
  {
    var z := Zeros(e.zc);
    if e.buffer == 0 {
      assert Zeros(e.zc + 1) == z + [0];
      assert Digits(e) == e.out + Zeros(e.zc + 1) + Ones(e.sc);
    } else if e.buffer > 0 {
      assert Digits(e) == e.out + z + [e.buffer] + Zeros(0) + Ones(e.sc);
    } else {
      assert Digits(e) == e.out + z + Ones(e.sc);
    }
  }

  /** Writing a byte out, with or without a carry, does not change the number that the encoder holds. */
  lemma ByteOutKeepsValue(e: Enc, y: real)
    requires Shape(e) && e.ct == 0
    ensures e.c < 0x9000000
    ensures -1 <= ByteOut(e).buffer <= 0xFE
    ensures Value(ByteOut(e), y) == Value(e, y)
  {
    CarryIsCaught(e);
    DigitsAfterByte(e);
    hide Fraction, Down, Up, ByteOut, Digits;
    var temp := e.c / 0x80000;
    var w := Down((e.c % 0x80000) as real + y, 19);
    SplitByte(e.c, y);
    if temp > 0xFF {
      CarryKeepsValue(e.out + Zeros(e.zc), e.buffer, e.sc, temp, w);
    } else {
      FractionConcat(Digits(e), [temp], w);
    }
  }

  /** One more digit, or a carry through the digits that wait for one. */
  lemma DigitsAfterByte(e: Enc)
    requires Shape(e) && e.ct == 0
    ensures e.c < 0x9000000
    ensures var e', temp := ByteOut(e), e.c / 0x80000;
            && -1 <= e'.buffer <= 0xFE && e'.c == e.c % 0x80000 && e'.ct == 8
            && (temp <= 0xFF ==> Digits(e') == Digits(e) + [temp])
            && (temp > 0xFF ==>
                  && 0 <= e.buffer
                  && Digits(e) == e.out + Zeros(e.zc) + [e.buffer] + Ones(e.sc)
                  && Digits(e') == e.out + Zeros(e.zc) + [e.buffer + 1] + Zeros(e.sc) + [temp % 0x100])
  {
    hide Value, Fraction, Down, Up;
    CarryIsCaught(e);
    var temp := e.c / 0x80000;
    if temp <= 0xFF {
      if temp == 0xFF {
        assert Ones(e.sc + 1) == Ones(e.sc) + [0xFF];
      } else {
        SettleKeepsDigits(e);
      }
    }
  }

  lemma CarryKeepsValue(p: seq<byte>, b: byte, n: nat, temp: int, w: real)
    requires b <= 0xFE && 0xFF < temp <= 0x11F
    ensures Fraction(p + [b + 1] + Zeros(n) + [temp % 0x100], w)
            == Fraction(p + [b] + Ones(n), (temp as real + w) / 256.0)
  {
    var u := (temp % 0x100) as real + w;
    assert (temp as real + w) / 256.0 == 1.0 + u / 256.0;
    CarryThroughOnes(n, u / 256.0);
    FractionConcat(p + [b], Ones(n), 1.0 + u / 256.0);
    FractionConcat(p, [b], 1.0 + Fraction(Zeros(n), u / 256.0));
    FractionConcat(p + [b + 1] + Zeros(n), [temp % 0x100], w);
    FractionConcat(p + [b + 1], Zeros(n), u / 256.0);
    FractionConcat(p, [b + 1], Fraction(Zeros(n), u / 256.0));
  }

  // ---------------------------------------------------------------- renormalisation

  function Shift(e: Enc): Enc
    requires Shape(e) && 1 <= e.ct && e.a < 0x8000
  {
    ShiftedKeepsShape(e);
    var e1 := Shifted(e);
    if e1.ct == 0 then
      CarryIsCaught(e1);
      ByteOut(e1)
    else e1
  }

  lemma ShiftedKeepsShape(e: Enc)
    requires Shape(e) && 1 <= e.ct && e.a < 0x8000
    ensures Shape(Shifted(e))
  {
    assert Value(Shifted(e), 2.0 * e.a as real) == Value(e, e.a as real);
  }

  /** One shift moves the register, not the number: position `y` of the interval becomes `2 * y`. */
  lemma ShiftKeepsValue(e: Enc, y: real)
    requires Shape(e) && 1 <= e.ct && e.a < 0x8000
    ensures Shape(Shift(e)) && 1 <= Shift(e).ct && Shift(e).a == 2 * e.a
    ensures Value(Shift(e), 2.0 * y) == Value(e, y)
  {
    ShiftedKeepsShape(e);
    var e1 := Shifted(e);
    assert Value(e1, 2.0 * y) == Value(e, y);
    if e1.ct == 0 {
      ByteOutKeepsValue(e1, 2.0 * y);
      ByteOutKeepsValue(e1, e1.a as real);
      ByteOutKeepsShape(e1);
    }
  }

  lemma ByteOutKeepsShape(e: Enc)
    requires Shape(e) && e.ct == 0 && e.a < 0x10000
    ensures Shape(ByteOut(e)) && ByteOut(e).a == e.a && ByteOut(e).ct == 8
  {
    ByteOutKeepsValue(e, e.a as real);
    CarryIsCaught(e);
    var e' := ByteOut(e);
    UpIsMultiplication(e'.c + e'.a);
  }

  lemma UpIsMultiplication(z: int)
    ensures Up(z, 8) == 256 * z
  {
    assert Up(z, 8) == Up(16 * z, 4);
  }

  function Renorm(e: Enc): (r: Enc)
    requires Shape(e) && 1 <= e.ct
    ensures Ready(r)
    decreases 0x8000 - e.a
  {
    if e.a >= 0x8000 then e
    else
      ShiftKeepsValue(e, 0.0);
      Renorm(Shift(e))
  }

  lemma NoRenormalisation(e: Enc)
    requires Shape(e) && 1 <= e.ct && 0x8000 <= e.a
    ensures Renorm(e) == e
  {
  }

  /** The position that renormalisation will carry to `y`. */
  function Unscaled(a: int, y: real): real
    requires 0 < a
    decreases 0x8000 - a
  {
    if a >= 0x8000 then y else Unscaled(2 * a, y) / 2.0
  }

  lemma {:induction false} RenormKeepsValue(e: Enc, y: real)
    requires Shape(e) && 1 <= e.ct
    ensures Value(Renorm(e), y) == Value(e, Unscaled(e.a, y))
    decreases 0x8000 - e.a
  {
    if e.a < 0x8000 {
      ShiftKeepsValue(e, Unscaled(2 * e.a, y) / 2.0);
      RenormKeepsValue(Shift(e), y);
    }
  }

  lemma {:induction false} UnscaledStaysInside(a: int, b: int, y: real)
    requires 0 < a && b == Size(a)
    requires 0.0 <= y < b as real
    ensures 0.0 <= Unscaled(a, y) < a as real
    decreases 0x8000 - a
  {
    if a < 0x8000 {
      UnscaledStaysInside(2 * a, b, y);
    }
  }

  /** The interval size after renormalisation. */
  function Size(a: int): int
    requires 0 < a
    decreases 0x8000 - a
  {
    if a >= 0x8000 then a else Size(2 * a)
  }

  lemma {:induction false} RenormSize(e: Enc)
    requires Shape(e) && 1 <= e.ct
    ensures Renorm(e).a == Size(e.a)
    decreases 0x8000 - e.a
  {
    if e.a < 0x8000 {
      ShiftKeepsValue(e, 0.0);
      RenormSize(Shift(e));
    }
  }

  // ---------------------------------------------------------------- one decision

  function Narrow(e: Enc, ch: Choice): Enc { e.(c := e.c + ch.offset, a := ch.size) }

  lemma NarrowKeepsShape(e: Enc, ch: Choice)
    requires Ready(e)
    requires 0 <= ch.offset && 0 < ch.size && ch.offset + ch.size <= e.a
    ensures Shape(Narrow(e, ch)) && 1 <= Narrow(e, ch).ct
  {
    hide Fraction, Down, Up;
    var n := Narrow(e, ch);
    UpIsMonotone(n.c + n.a, e.c + e.a, e.ct);
    DownIsMonotone(n.c as real + n.a as real, e.c as real + e.a as real, 27 - e.ct);
    FractionIsMonotone(Digits(e), Down(n.c as real + n.a as real, 27 - e.ct),
                       Down(e.c as real + e.a as real, 27 - e.ct));
    assert Digits(n) == Digits(e);
  }

  lemma {:induction false} UpIsMonotone(x: int, y: int, k: nat)
    requires x <= y
    ensures Up(x, k) <= Up(y, k)
    decreases k
  {
    if k > 0 { UpIsMonotone(2 * x, 2 * y, k - 1); }
  }

  lemma {:induction false} DownIsMonotone(x: real, y: real, k: nat)
    requires x <= y
    ensures Down(x, k) <= Down(y, k)
    decreases k
  {
    if k > 0 { DownIsMonotone(x / 2.0, y / 2.0, k - 1); }
  }

  lemma {:induction false} FractionIsMonotone(d: seq<byte>, x: real, y: real)
    requires x <= y
    ensures Fraction(d, x) <= Fraction(d, y)
  {
    if d != [] { FractionIsMonotone(d[1..], x, y); }
  }

  /** The encoder's step for one decision on a bin whose byte is `sv`. */
  function Encode(e: Enc, sv: Stat, bit: bool): (r: Enc)
    requires Ready(e)
    ensures Ready(r)
  {
    var ch := Choose(e.a, sv, bit);
    ChoiceBounds(e.a, sv, bit);
    NarrowKeepsShape(e, ch);
    Renorm(Narrow(e, ch))
  }

  /** The position in the old interval of position `y` in the new one. */
  function Before(a: int, sv: Stat, bit: bool, y: real): real
    requires 0x8000 <= a <= 0x10000
  {
    ChoiceBounds(a, sv, bit);
    var ch := Choose(a, sv, bit);
    ch.offset as real + Unscaled(ch.size, y)
  }

  lemma EncodeKeepsValue(e: Enc, sv: Stat, bit: bool, y: real)
    requires Ready(e)
    ensures Value(Encode(e, sv, bit), y) == Value(e, Before(e.a, sv, bit, y))
  {
    hide Choose, Renorm, Unscaled, Fraction, Down, Up;
    ChoiceBounds(e.a, sv, bit);
    var ch := Choose(e.a, sv, bit);
    NarrowKeepsShape(e, ch);
    var n := Narrow(e, ch);
    RenormKeepsValue(n, y);
    assert Digits(n) == Digits(e);
    assert n.c as real + Unscaled(ch.size, y) == e.c as real + Before(e.a, sv, bit, y);
  }

  // ---------------------------------------------------------------- termination of the segment

  /** The point of the final interval that the encoder sends. */
  function FinalPoint(e: Enc): int {
    var top := e.a - 1 + e.c;
    var temp := top - top % 0x10000;
    if temp < e.c then temp + 0x8000 else temp
  }

  predicate EndsInZeros(x: int, k: nat)
    decreases k
  {
    k == 0 || (x % 2 == 0 && EndsInZeros(x / 2, k - 1))
  }

  lemma {:induction false} EndsInFewerZeros(x: int, j: nat, k: nat)
    requires j <= k && EndsInZeros(x, k)
    ensures EndsInZeros(x, j)
    decreases j
  {
    if j > 0 { EndsInFewerZeros(x / 2, j - 1, k - 1); }
  }

  lemma {:induction false} EndsInZerosIsDivisibility(x: int, k: nat)
    ensures EndsInZeros(x, k) <==> x % Pow2(k) == 0
    decreases k
  {
    if k > 0 {
      EndsInZerosIsDivisibility(x / 2, k - 1);
      HalveFirst(x, Pow2(k - 1));
    }
  }

  lemma FinalPointIsInside(e: Enc)
    requires Ready(e)
    ensures e.c <= FinalPoint(e) < e.c + e.a
    ensures exists q :: FinalPoint(e) == 0x8000 * q
  {
    var top := e.a - 1 + e.c;
    var temp := 0x10000 * (top / 0x10000);
    assert temp == top - top % 0x10000;
    if temp < e.c {
      assert FinalPoint(e) == 0x8000 * (2 * (top / 0x10000) + 1);
    } else {
      assert FinalPoint(e) == 0x8000 * (2 * (top / 0x10000));
    }
  }

  lemma OnlyMultipleInside(e: Enc, q: int)
    requires Ready(e) && e.c <= 0x10000 * q < e.c + e.a
    ensures FinalPoint(e) == 0x10000 * q
  {
    assert (e.a - 1 + e.c) / 0x10000 == q;
  }

  /** Among all points of the final interval, with any digits `above` the register, the one sent ends in
      the most zero bits, so that the most final zero bytes can be dropped. */
  lemma FinalPointEndsInMostZeros(e: Enc, above: int, x: int, k: nat)
    requires Ready(e) && e.c <= x < e.c + e.a
    requires EndsInZeros(0x10000 * above + x, k)
    ensures EndsInZeros(0x10000 * above + FinalPoint(e), k)
  {
    hide FinalPoint;
    Pow2Of15();
    var full := 0x10000 * above + x;
    if k >= 16 {
      EndsInFewerZeros(full, 16, k);
      EndsInZerosIsDivisibility(full, 16);
      assert full == 0x10000 * (full / 0x10000);
      OnlyMultipleInside(e, full / 0x10000 - above);
    } else {
      FinalPointIsInside(e);
      var q :| FinalPoint(e) == 0x8000 * q;
      Quotient(0x10000 * above + FinalPoint(e), 2 * above + q, 0x8000, 0);
      EndsInZerosIsDivisibility(0x10000 * above + FinalPoint(e), 15);
      EndsInFewerZeros(0x10000 * above + FinalPoint(e), k, 15);
    }
  }

  /** The bytes of the whole segment, still without stuffing. */
  function Finish(e: Enc): seq<byte>
    requires Ready(e)
  {
    FinalPointIsInside(e);
    FinalRegisterBounds(e);
    var c := Up(FinalPoint(e), e.ct);
    var e1 :=
      if c >= 0x8000000 then
        var e0 := if e.buffer >= 0 then e.(out := e.out + Zeros(e.zc) + [e.buffer + 1], zc := 0) else e;
        e0.(zc := e0.zc + e.sc, sc := 0)
      else SettleStack(e);
    if c % 0x8000000 / 0x800 != 0 then
      e1.out + Zeros(e1.zc) + [c / 0x80000 % 0x100]
      + (if c % 0x80000 / 0x800 != 0 then [c / 0x800 % 0x100] else [])
    else e1.out
  }

  lemma FinalRegisterBounds(e: Enc)
    requires Ready(e)
    ensures 0 <= Up(FinalPoint(e), e.ct) < 0x9000000
  {
    FinalPointIsInside(e);
    UpIsStrict(FinalPoint(e), e.c + e.a, e.ct);
    UpIsMonotone(0, FinalPoint(e), e.ct);
    UpOfZero(e.ct);
  }

  lemma {:induction false} UpOfZero(k: nat)
    ensures Up(0, k) == 0
  {
    if k > 0 { UpOfZero(k - 1); }
  }

  lemma {:induction false} UpIsStrict(x: int, y: int, k: nat)
    requires x < y
    ensures Up(x, k) < Up(y, k)
    decreases k
  {
    if k > 0 { UpIsStrict(2 * x, 2 * y, k - 1); }
  }

  lemma {:induction false} DownOfUp(x: int, j: nat, k: nat)
    ensures Down(Up(x, j) as real, j + k) == Down(x as real, k)
    decreases j
  {
    if j > 0 {
      DownOfUp(2 * x, j - 1, k + 1);
    }
  }

  lemma {:induction false} UpOfMultiple(m: int, q: int, k: nat)
    ensures Up(m * q, k) == m * Up(q, k)
    decreases k
  {
    if k > 0 {
      assert 2 * (m * q) == m * (2 * q);
      UpOfMultiple(m, 2 * q, k - 1);
    }
  }

  lemma {:induction false} DownIsStrict(x: real, y: real, k: nat)
    requires x < y
    ensures Down(x, k) < Down(y, k)
    decreases k
  {
    if k > 0 { DownIsStrict(x / 2.0, y / 2.0, k - 1); }
  }

  /** The last carry, like every other one, finds a buffered byte. */
  lemma FinalCarryIsCaught(e: Enc)
    requires Ready(e) && 0x8000000 <= Up(FinalPoint(e), e.ct)
    ensures e.buffer >= 0
  {
    hide FinalPoint;
    if e.buffer == -1 {
      assert Digits(e) == Ones(e.sc);
      OnesLeaveNoRoom(e.sc, Down(e.c as real + e.a as real, 27 - e.ct));
      FinalPointIsInside(e);
      DownIsStrict(FinalPoint(e) as real, e.c as real + e.a as real, 27 - e.ct);
      DownOfUp(FinalPoint(e), e.ct, 27 - e.ct);
      DownIsDivision(Up(FinalPoint(e), e.ct) as real);
      assert false;
    }
  }

  /** The two bytes that are left in the register. */
  lemma LastTwoBytes(e: Enc)
    requires Ready(e)
    ensures var c := Up(FinalPoint(e), e.ct);
            && 0 <= c < 0x9000000
            && Down(FinalPoint(e) as real, 27 - e.ct)
               == (if c >= 0x8000000 then 1.0 else 0.0)
                  + Fraction([c / 0x80000 % 0x100, c / 0x800 % 0x100], 0.0)
            && (c % 0x8000000 / 0x800 == 0 <==> c / 0x80000 % 0x100 == 0 && c / 0x800 % 0x100 == 0)
            && (c % 0x80000 / 0x800 == 0 <==> c / 0x800 % 0x100 == 0)
  {
    hide FinalPoint;
    FinalRegisterBounds(e);
    FinalPointIsInside(e);
    var q :| FinalPoint(e) == 0x8000 * q;
    UpOfMultiple(0x8000, q, e.ct);
    DownOfUp(FinalPoint(e), e.ct, 27 - e.ct);
    RegisterAsFraction(Up(FinalPoint(e), e.ct), 16 * Up(q, e.ct));
  }

  lemma RegisterAsFraction(c: int, w: int)
    requires 0 <= c < 0x9000000 && c == 0x800 * w
    ensures Down(c as real, 27) == (if c >= 0x8000000 then 1.0 else 0.0)
                                   + Fraction([c / 0x80000 % 0x100, c / 0x800 % 0x100], 0.0)
    ensures c % 0x8000000 / 0x800 == 0 <==> c / 0x80000 % 0x100 == 0 && c / 0x800 % 0x100 == 0
    ensures c % 0x80000 / 0x800 == 0 <==> c / 0x800 % 0x100 == 0
  {
    var carry := if c >= 0x8000000 then 1 else 0;
    var b1 := (w - carry * 0x10000) / 0x100;
    var b2 := w % 0x100;
    SplitRegister(c, w, carry, b1, b2);
    DownIsDivision(c as real);
    TwoByteFraction(b1, b2);
  }

  lemma SplitRegister(c: int, w: int, carry: int, b1: int, b2: int)
    requires 0 <= c < 0x9000000 && c == 0x800 * w
    requires carry == (if c >= 0x8000000 then 1 else 0)
    requires b1 == (w - carry * 0x10000) / 0x100 && b2 == w % 0x100
    ensures c == carry * 0x8000000 + b1 * 0x80000 + b2 * 0x800
    ensures 0 <= b1 < 0x100 && c / 0x80000 % 0x100 == b1 && c / 0x800 % 0x100 == b2
    ensures c % 0x80000 == b2 * 0x800 && c % 0x8000000 == b1 * 0x80000 + b2 * 0x800
  {
    assert w == carry * 0x10000 + b1 * 0x100 + b2;
    assert c / 0x80000 == carry * 0x100 + b1;
    assert c / 0x800 == w;
  }

  lemma TwoByteFraction(b1: byte, b2: byte)
    ensures Fraction([b1, b2], 0.0) == b1 as real / 256.0 + b2 as real / 65536.0
  {
    assert [b1, b2][1..] == [b2] && [b2][1..] == [];
    assert Fraction([b2], 0.0) == (b2 as real + Fraction([], 0.0)) / 256.0;
  }

  lemma FractionDropsZeros(s: seq<byte>, n: nat)
    ensures Fraction(s + Zeros(n), 0.0) == Fraction(s, 0.0)
  {
    FractionConcat(s, Zeros(n), 0.0);
    ZerosAreNothing(n);
  }

  /** The segment, read as a binary fraction, is exactly the point that the encoder chose. */
  lemma FinishKeepsValue(e: Enc)
    requires Ready(e)
    ensures Fraction(Finish(e), 0.0) == Value(e, (FinalPoint(e) - e.c) as real)
  {
    hide FinalPoint, Down, Up;
    var c := Up(FinalPoint(e), e.ct);
    LastTwoBytes(e);
    var b1, b2 := c / 0x80000 % 0x100, c / 0x800 % 0x100;
    var t := Fraction([b1, b2], 0.0);
    ghost var d: seq<byte>;
    if c >= 0x8000000 {
      FinalCarryIsCaught(e);
      var p := e.out + Zeros(e.zc);
      d := p + [e.buffer + 1] + Zeros(e.sc);
      assert Digits(e) == p + [e.buffer] + Ones(e.sc);
      FractionConcat(p + [e.buffer], Ones(e.sc), 1.0 + t);
      CarryThroughOnes(e.sc, t);
      FractionConcat(p, [e.buffer], 1.0 + Fraction(Zeros(e.sc), t));
      FractionConcat(p + [e.buffer + 1], Zeros(e.sc), t);
      FractionConcat(p, [e.buffer + 1], Fraction(Zeros(e.sc), t));
    } else {
      SettleKeepsDigits(e);
      d := Digits(e);
    }
    assert Fraction(d, t) == Value(e, (FinalPoint(e) - e.c) as real);
    FractionConcat(d, [b1, b2], 0.0);
    TrimmedEnd(d, b1, b2, Finish(e));
  }

  /** Dropping final zero bytes does not change the number. */
  lemma TrimmedEnd(d: seq<byte>, b1: byte, b2: byte, data: seq<byte>)
    requires if b1 == 0 && b2 == 0 then exists n: nat :: d == data + Zeros(n)
             else data == d + [b1] + (if b2 == 0 then [] else [b2])
    ensures Fraction(data, 0.0) == Fraction(d + [b1, b2], 0.0)
  {
    if b1 == 0 && b2 == 0 {
      var n: nat :| d == data + Zeros(n);
      assert d + [b1, b2] == data + Zeros(n + 2);
      FractionDropsZeros(data, n + 2);
    } else if b2 == 0 {
      assert d + [b1, b2] == data + Zeros(1);
      FractionDropsZeros(data, 1);
    } else {
      assert d + [b1, b2] == data;
    }
  }

  // ---------------------------------------------------------------- whole segments, encoding

  /** One binary decision, and the statistics bin it is coded with. */
  datatype Decision = Decision(bin: nat, bit: bool)

  predicate InRange(ds: seq<Decision>, n: nat) {
    forall i :: 0 <= i < |ds| ==> ds[i].bin < n
  }

  datatype EncRun = EncRun(e: Enc, bins: seq<Stat>)

  function EncodeStep(r: EncRun, d: Decision): (r': EncRun)
    requires Ready(r.e) && d.bin < |r.bins|
    ensures Ready(r'.e) && |r'.bins| == |r.bins|
  {
    var sv := r.bins[d.bin];
    EncRun(Encode(r.e, sv, d.bit), r.bins[d.bin := Choose(r.e.a, sv, d.bit).stat])
  }

  function EncodeRun(r: EncRun, ds: seq<Decision>): (r': EncRun)
    requires Ready(r.e) && InRange(ds, |r.bins|)
    ensures Ready(r'.e) && |r'.bins| == |r.bins|
    decreases |ds|
  {
    if ds == [] then r else EncodeRun(EncodeStep(r, ds[0]), ds[1..])
  }

  /** The state that never adapts: both values are equally probable. */
  const EVEN_ODDS: Stat := 113

  /** The statistics when a coder is made: all bins at zero, and behind them the bin for evenly distributed decisions. */
  function StartStats(bins: nat): (r: seq<Stat>)
    ensures |r| == bins + 1
  {
    seq(bins, _ => 0) + [EVEN_ODDS]
  }

  lemma EvenOddsStay(a: int, bit: bool)
    ensures Choose(a, EVEN_ODDS, bit).stat == EVEN_ODDS
  {
    assert TableRow(113) == Row(0x5a1d, 113, 113, 0);
    UnpackInvertsPack(TableRow(113));
    hide TableRow;
  }

  /** The bin for evenly distributed decisions keeps its state, whatever is coded. */
  lemma {:induction false} FixedBinStays(r: EncRun, ds: seq<Decision>, bin: nat)
    requires Ready(r.e) && InRange(ds, |r.bins|) && bin < |r.bins| && r.bins[bin] == EVEN_ODDS
    ensures EncodeRun(r, ds).bins[bin] == EVEN_ODDS
    decreases |ds|
  {
    hide Choose, Encode, Ready;
    if ds != [] {
      if ds[0].bin == bin { EvenOddsStay(r.e.a, ds[0].bit); }
      FixedBinStays(EncodeStep(r, ds[0]), ds[1..], bin);
    }
  }

  lemma StartIsReady()
    ensures Ready(START_ENC)
  {
    assert Digits(START_ENC) == [];
    assert Down(65536.0, 16) == Down(256.0, 8);
    assert Up(65536, 11) == Up(4194304, 5);
    assert Up(4194304, 5) == Up(67108864, 1);
  }

  lemma {:induction false} EncodeRunConcat(r: EncRun, s: seq<Decision>, t: seq<Decision>)
    requires Ready(r.e) && InRange(s, |r.bins|) && InRange(t, |r.bins|)
    ensures EncodeRun(r, s + t) == EncodeRun(EncodeRun(r, s), t)
    decreases |s|
  {
    if s == [] {
      assert s + t == t;
    } else {
      assert (s + t)[1..] == s[1..] + t && (s + t)[0] == s[0];
      EncodeRunConcat(EncodeStep(r, s[0]), s[1..], t);
    }
  }

  /** The position, in the interval that the encoder has now, of the number that it will finally send. */
  function Target(r: EncRun, ds: seq<Decision>): real
    requires Ready(r.e) && InRange(ds, |r.bins|)
    decreases |ds|
  {
    if ds == [] then (FinalPoint(r.e) - r.e.c) as real
    else Before(r.e.a, r.bins[ds[0].bin], ds[0].bit, Target(EncodeStep(r, ds[0]), ds[1..]))
  }

  lemma EncodeSize(e: Enc, sv: Stat, bit: bool)
    requires Ready(e)
    ensures 0 < Choose(e.a, sv, bit).size && Encode(e, sv, bit).a == Size(Choose(e.a, sv, bit).size)
  {
    ChoiceBounds(e.a, sv, bit);
    hide Choose;
    NarrowKeepsShape(e, Choose(e.a, sv, bit));
    RenormSize(Narrow(e, Choose(e.a, sv, bit)));
  }

  lemma {:induction false} TargetIsInside(r: EncRun, ds: seq<Decision>)
    requires Ready(r.e) && InRange(ds, |r.bins|)
    ensures 0.0 <= Target(r, ds) < r.e.a as real
    decreases |ds|
  {
    if ds == [] {
      FinalPointIsInside(r.e);
    } else {
      var sv, bit := r.bins[ds[0].bin], ds[0].bit;
      TargetIsInside(EncodeStep(r, ds[0]), ds[1..]);
      EncodeSize(r.e, sv, bit);
      ChoiceBounds(r.e.a, sv, bit);
      UnscaledStaysInside(Choose(r.e.a, sv, bit).size, EncodeStep(r, ds[0]).e.a, Target(EncodeStep(r, ds[0]), ds[1..]));
    }
  }

  /** Whatever is still to be coded, the finished segment is the number that the encoder aims at now. */
  lemma {:induction false} RunHitsTarget(r: EncRun, ds: seq<Decision>)
    requires Ready(r.e) && InRange(ds, |r.bins|)
    ensures Fraction(Finish(EncodeRun(r, ds).e), 0.0) == Value(r.e, Target(r, ds))
    decreases |ds|
  {
    hide Finish, Value, Encode, Before;
    if ds == [] {
      FinishKeepsValue(r.e);
    } else {
      var r' := EncodeStep(r, ds[0]);
      RunHitsTarget(r', ds[1..]);
      EncodeKeepsValue(r.e, r.bins[ds[0].bin], ds[0].bit, Target(r', ds[1..]));
    }
  }
}
