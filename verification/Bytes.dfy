/** Byte sequences: stuffing of 0xFF bytes, and a byte sequence read as a binary fraction. */
module Bytes {
  import opened EstimationTable

  function Zeros(n: nat): seq<byte> { seq(n, _ => 0) }

  function Ones(n: nat): seq<byte> { seq(n, _ => 0xFF) }

  /** A data byte as it is written: 0xFF is followed by a zero byte. */
  function StuffByte(b: byte): seq<byte> {
    if b == 0xFF then [0xFF, 0] else [b]
  }

  function Stuff(data: seq<byte>): seq<byte> {
    if data == [] then [] else StuffByte(data[0]) + Stuff(data[1..])
  }

  lemma {:induction false} StuffConcat(s: seq<byte>, t: seq<byte>)
    ensures Stuff(s + t) == Stuff(s) + Stuff(t)
  {
    if s == [] {
      assert s + t == t;
    } else {
      assert (s + t)[1..] == s[1..] + t;
      StuffConcat(s[1..], t);
    }
  }

  lemma StuffSnoc(s: seq<byte>, b: byte)
    ensures Stuff(s + [b]) == Stuff(s) + StuffByte(b)
  {
    StuffConcat(s, [b]);
  }

  /** Every 0xFF that stuffing writes is followed by a zero byte, so no marker can appear in the data. */
  predicate NoMarker(s: seq<byte>) {
    forall i :: 0 <= i < |s| && s[i] == 0xFF ==> i + 1 < |s| && s[i + 1] == 0
  }

  lemma {:induction false} StuffedHasNoMarker(data: seq<byte>)
    ensures NoMarker(Stuff(data))
  {
    if data != [] {
      StuffedHasNoMarker(data[1..]);
      var h, t := StuffByte(data[0]), Stuff(data[1..]);
      forall i | 0 <= i < |h + t| && (h + t)[i] == 0xFF
        ensures i + 1 < |h + t| && (h + t)[i + 1] == 0
      {
        if |h| <= i {
          assert t[i - |h|] == 0xFF;
        }
      }
    }
  }

  /** The digits of `data`, base 256 after the point, with the fraction `tail` appended below the last one. */
  function Fraction(data: seq<byte>, tail: real): real {
    if data == [] then tail else (data[0] as real + Fraction(data[1..], tail)) / 256.0
  }

  lemma {:induction false} FractionConcat(s: seq<byte>, t: seq<byte>, tail: real)
    ensures Fraction(s + t, tail) == Fraction(s, Fraction(t, tail))
  {
    if s == [] {
      assert s + t == t;
    } else {
      assert (s + t)[1..] == s[1..] + t;
      FractionConcat(s[1..], t, tail);
    }
  }

  lemma {:induction false} FractionBounds(data: seq<byte>, tail: real)
    requires 0.0 <= tail
    ensures 0.0 <= Fraction(data, tail)
    ensures tail < 1.0 ==> Fraction(data, tail) < 1.0
    ensures tail <= 1.0 ==> Fraction(data, tail) <= 1.0
  {
    if data != [] {
      FractionBounds(data[1..], tail);
    }
  }

  /** A carry out of the tail runs through all the 0xFF bytes and turns them into zeros. */
  lemma {:induction false} CarryThroughOnes(n: nat, tail: real)
    ensures Fraction(Ones(n), 1.0 + tail) == 1.0 + Fraction(Zeros(n), tail)
  {
    if n > 0 {
      assert Ones(n)[1..] == Ones(n - 1) && Zeros(n)[1..] == Zeros(n - 1);
      CarryThroughOnes(n - 1, tail);
    }
  }

  lemma {:induction false} ZerosAreNothing(n: nat)
    ensures Fraction(Zeros(n), 0.0) == 0.0
  {
    if n > 0 {
      assert Zeros(n)[1..] == Zeros(n - 1);
      ZerosAreNothing(n - 1);
    }
  }
}
