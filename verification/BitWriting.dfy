/** Bit packing in the Huffman encoder (emit_bits_s, emit_bits_e, flush_bits_s, flush_bits_e in jchuff.c): a 24-bit
    buffer that never holds more than seven bits between calls, and byte stuffing. */
module BitWriting {
  import opened EstimationTable
  import opened Arithmetic
  import opened Bytes
  import opened HuffmanCode

  /** The bits of a sequence of bytes. */
  function BitsOfBytes(data: seq<byte>): (s: seq<bool>)
    ensures |s| == 8 * |data|
  {
    if data == [] then [] else BitsOfBytes(data[..|data| - 1]) + BitsOf(data[|data| - 1], 8)
  }

  lemma BitsOfSnoc(data: seq<byte>, b: byte)
    ensures BitsOfBytes(data + [b]) == BitsOfBytes(data) + BitsOf(b, 8)
  {
    assert (data + [b])[..|data|] == data;
  }

  function AllOnes(n: nat): (s: seq<bool>)
    ensures |s| == n
  {
    seq(n, _ => true)
  }

  /** Bits filled up with ones to whole bytes. */
  function Padded(s: seq<bool>): (r: seq<bool>)
    ensures |r| % 8 == 0 && s <= r && |r| < |s| + 8
  {
    s + AllOnes((8 - |s| % 8) % 8)
  }

  /** `v` left-justified in the 24 bits of the buffer. */
  predicate Holds(buffer: nat, v: nat, n: nat) {
    n <= 24 && v < Pow2(n) && buffer == ShiftLeft(v, 24 - n)
  }

  lemma {:induction false} ShiftOfSum(v: nat, w: nat, n: nat)
    ensures ShiftLeft(v + w, n) == ShiftLeft(v, n) + ShiftLeft(w, n)
    decreases n
  {
    if n > 0 { ShiftOfSum(v, w, n - 1); }
  }

  lemma Pow2Of24()
    ensures Pow2(8) == 0x100 && Pow2(16) == 0x10000 && Pow2(24) == 0x1000000
  {
    assert Pow2(4) == 16;
    assert Pow2(12) == 0x1000;
    assert Pow2(20) == 0x100000;
  }

  /** New bits go below the bits that are there; no two of them meet. */
  lemma Merge(buffer: nat, v: nat, n: nat, code: nat, size: nat)
    requires Holds(buffer, v, n) && n + size <= 24 && code < Pow2(size)
    ensures Holds(buffer + ShiftLeft(code, 24 - (n + size)), ShiftLeft(v, size) + code, n + size)
    ensures BitsOf(ShiftLeft(v, size) + code, n + size) == BitsOf(v, n) + BitsOf(code, size)
  {
    var rest := 24 - (n + size);
    ShiftTwice(v, size, rest);
    ShiftOfSum(ShiftLeft(v, size), code, rest);
    BitsOfSum(v, code, n, size);
    ShiftGrows(v + 1, Pow2(n), size);
    ShiftNext(v, size);
    ShiftOfPower(n, size);
  }

  /** `v` in two parts: the top `m` bits and the rest. */
  lemma {:induction false} SplitTop(v: nat, m: nat, n: nat) returns (a: nat, b: nat)
    requires v < Pow2(m + n)
    ensures v == ShiftLeft(a, n) + b && a < Pow2(m) && b < Pow2(n)
    decreases n
  {
    if n == 0 {
      a, b := v, 0;
    } else {
      var b1: nat;
      a, b1 := SplitTop(v / 2, m, n - 1);
      b := 2 * b1 + v % 2;
    }
  }

  /** The first byte of the buffer, and what stays. */
  lemma TakeByte(buffer: nat, v: nat, n: nat) returns (a: byte, b: nat)
    requires Holds(buffer, v, n) && n >= 8
    ensures buffer / 0x10000 % 0x100 == a && Holds(buffer * 0x100 % 0x1000000, b, n - 8)
    ensures BitsOf(v, n) == BitsOf(a, 8) + BitsOf(b, n - 8)
  {
    hide ShiftLeft, Pow2, BitsOf;
    Pow2Of24();
    var rest := 24 - n;
    var top: nat;
    top, b := SplitTop(v, 8, n - 8);
    a := top;
    BitsOfSum(top, b, 8, n - 8);
    ShiftOfSum(ShiftLeft(top, n - 8), b, rest);
    ShiftTwice(top, n - 8, rest);
    var low := ShiftLeft(b, rest);
    ShiftGrows(b + 1, Pow2(n - 8), rest);
    ShiftNext(b, rest);
    ShiftOfPower(n - 8, rest);
    PositivePower(rest);
    ShiftByBytes(top);
    ShiftTwice(b, rest, 8);
    ShiftByBytes(low);
    BytesOf(buffer, top, low);
  }

  lemma PositivePower(n: nat)
    ensures Pow2(n) >= 1
  {
  }

  lemma ShiftByBytes(v: nat)
    ensures ShiftLeft(v, 8) == 0x100 * v && ShiftLeft(v, 16) == 0x10000 * v
  {
    assert ShiftLeft(v, 4) == 16 * v;
    assert ShiftLeft(v, 12) == 0x1000 * v;
  }

  lemma BytesOf(buffer: nat, top: nat, low: nat)
    requires buffer == 0x10000 * top + low && low < 0x10000 && top < 0x100
    ensures buffer / 0x10000 % 0x100 == top && buffer * 0x100 % 0x1000000 == 0x100 * low
  {
  }

  /** The low `n` bits of `v`. */
  function Low(v: nat, n: nat): (w: nat)
    ensures w < Pow2(n)
    decreases n
  {
    if n == 0 then 0 else 2 * Low(v / 2, n - 1) + v % 2
  }

  lemma {:induction false} LowBits(v: nat, n: nat)
    ensures BitsOf(Low(v, n), n) == BitsOf(v, n)
    decreases n
  {
    if n > 0 { LowBits(v / 2, n - 1); }
  }

  lemma {:induction false} LowIsValue(v: nat, n: nat)
    ensures ValueOf(BitsOf(v, n)) == Low(v, n)
    decreases n
  {
    if n > 0 {
      LowIsValue(v / 2, n - 1);
      assert BitsOf(v, n)[..n - 1] == BitsOf(v / 2, n - 1);
    }
  }

  class BitWriter {
    var putBuffer: nat
    var putBits: nat
    var output: seq<byte>

    /** The destination before this run of bits, the data bytes written since, and the bits sent since. */
    ghost var written: seq<byte>
    ghost var data: seq<byte>
    ghost var sent: seq<bool>

    ghost predicate Stuffed()
      reads this
    {
      output == written + Stuff(data)
    }

    /** Bytes and buffer together are what was sent. */
    ghost predicate Holding(v: nat, total: seq<bool>)
      reads this
    {
      Stuffed() && Holds(putBuffer, v, putBits) && BitsOfBytes(data) + BitsOf(v, putBits) == total
    }

    ghost predicate Valid()
      reads this
    {
      putBits <= 7 && exists v: nat :: Holding(v, sent)
    }

    constructor (destination: seq<byte>)
      ensures Valid() && output == written == destination && sent == []
    {
      putBuffer, putBits, output := 0, 0, destination;
      written, data, sent := destination, [], [];
      new;
      assert Holds(0, 0, 0) && ShiftLeft(0, 24) == 0 by { ZeroShift(24); }
      assert Holding(0, sent);
    }

    static lemma {:induction false} ZeroShift(n: nat)
      ensures ShiftLeft(0, n) == 0
      decreases n
    {
      if n > 0 { ZeroShift(n - 1); }
    }

    method EmitByte(val: byte)
      modifies this`output
      ensures output == old(output) + [val]
    {
      output := output + [val];
    }

    method EmitDataByte(c: byte)
      requires Stuffed()
      modifies this`output, this`data
      ensures Stuffed() && data == old(data) + [c]
    {
      StuffSnoc(data, c);
      EmitByte(c);
      if c == 0xFF {
        EmitByte(0);
      }
      data := data + [c];
    }

    /** Send the low `size` bits of `code`. A size of zero is the mark of a symbol without a code, an error. */
    method EmitBits(code: nat, size: nat) returns (ok: bool)
      requires Valid() && size <= 16
      modifies this
      ensures Valid() && written == old(written) && (ok <==> size != 0)
      ensures sent == if ok then old(sent) + BitsOf(code, size) else old(sent)
      ensures !ok ==> output == old(output) && putBits == old(putBits)
    {
      hide BitsOf, ShiftLeft, Pow2, Low, Stuff, BitsOfBytes;
      if size == 0 { return false; }
      ghost var v: nat :| Holding(v, sent);
      var masked := Low(code, size);
      LowBits(code, size);
      Merge(putBuffer, v, putBits, masked, size);
      BitsAppend(BitsOfBytes(data), BitsOf(v, putBits), BitsOf(code, size));
      putBits := putBits + size;
      putBuffer := putBuffer + ShiftLeft(masked, 24 - putBits);
      sent := sent + BitsOf(code, size);
      v := ShiftLeft(v, size) + masked;
      while putBits >= 8
        invariant Holding(v, sent) && written == old(written) && sent == old(sent) + BitsOf(code, size)
        decreases putBits
      {
        v := EmitTopByte(v);
      }
      ok := true;
    }

    method EmitTopByte(ghost v: nat) returns (ghost w: nat)
      requires putBits >= 8 && Holding(v, sent)
      modifies this
      ensures Holding(w, sent) && written == old(written) && sent == old(sent) && putBits == old(putBits) - 8
    {
      hide BitsOf, ShiftLeft, Pow2, Holds, BitsOfBytes;
      ghost var a: byte;
      a, w := TakeByte(putBuffer, v, putBits);
      BitsAppend(BitsOfBytes(data), BitsOf(a, 8), BitsOf(w, putBits - 8));
      BitsOfSnoc(data, a);
      var c := putBuffer / 0x10000 % 0x100;
      EmitDataByte(c);
      putBuffer := putBuffer * 0x100 % 0x1000000;
      putBits := putBits - 8;
    }

    static lemma BitsAppend(a: seq<bool>, b: seq<bool>, c: seq<bool>)
      ensures (a + b) + c == a + (b + c)
    {
    }

    /** Fill the last byte with ones, and empty the buffer: what was sent is now in whole bytes. */
    method FlushBits()
      requires Valid()
      modifies this
      ensures Valid() && written == output && sent == []
      ensures exists bytes :: BitsOfBytes(bytes) == Padded(old(sent)) && output == old(written) + Stuff(bytes)
    {
      hide BitsOf, ShiftLeft, Pow2, Holds;
      ghost var all := sent + BitsOf(0x7F, 7);
      var ok := EmitBits(0x7F, 7);
      ghost var v: nat :| Holding(v, sent);
      FlushedBits(data, BitsOf(v, putBits), old(sent));
      putBuffer := 0;
      putBits := 0;
      written, data, sent := output, [], [];
      assert Holds(0, 0, 0) && ShiftLeft(0, 24) == 0 by { ZeroShift(24); EmptyBuffer(); }
      assert Holding(0, sent);
    }

    /** A marker between segments. */
    method EmitMarker(code: byte)
      requires Valid() && sent == [] && written == output
      modifies this
      ensures Valid() && sent == [] && written == output == old(output) + [0xFF, code]
    {
      hide BitsOf, ShiftLeft, Pow2;
      ghost var v: nat :| Holding(v, sent);
      EmitByte(0xFF);
      EmitByte(code);
      written, data := output, [];
      NothingHeld(old(data), v);
      assert Holding(v, sent);
    }

    /** With nothing sent, no bytes and no bits are held. */
    lemma NothingHeld(bytes: seq<byte>, v: nat)
      requires BitsOfBytes(bytes) + BitsOf(v, putBits) == []
      ensures BitsOfBytes([]) + BitsOf(v, putBits) == []
    {
      assert |BitsOfBytes(bytes) + BitsOf(v, putBits)| == 8 * |bytes| + putBits;
    }

    static lemma EmptyBuffer()
      ensures Holds(0, 0, 0)
    {
      ZeroShift(24);
    }

    /** Seven ones more than fill the last byte; what is left over is dropped. */
    static lemma FlushedBits(bytes: seq<byte>, left: seq<bool>, before: seq<bool>)
      requires BitsOfBytes(bytes) + left == before + BitsOf(0x7F, 7) && |left| <= 7
      ensures BitsOfBytes(bytes) == Padded(before)
    {
      hide BitsOf, BitsOfBytes;
      var whole := BitsOfBytes(bytes);
      SevenOnes();
      var total := before + AllOnes(7);
      assert |whole| == |Padded(before)|;
      assert whole == total[..|whole|];
      assert Padded(before) == total[..|whole|];
    }

    static lemma SevenOnes()
      ensures BitsOf(0x7F, 7) == AllOnes(7)
    {
      assert BitsOf(0x0F, 4) == [true, true, true, true];
      assert BitsOf(0x7F, 7) == BitsOf(0x0F, 4) + [true] + [true] + [true];
    }
  }
}
