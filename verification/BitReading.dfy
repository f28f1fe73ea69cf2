/** Bit fetching and symbol decoding in the Huffman decoder (jpeg_fill_bit_buffer, the HUFF_DECODE macro and
    jpeg_huff_decode in jdhuff.c). The source refuses every refill: when the bytes at hand run out before a marker,
    the caller is told to suspend. */
module BitReading {
  import opened EstimationTable
  import opened Arithmetic
  import opened Bytes
  import opened Wrappers
  import opened Markers
  import opened HuffmanCode
  import opened HuffmanTables
  import opened BitWriting
  import opened HuffmanItems
  import opened Seqs

  const MIN_GET_BITS := 25

  /** The data bits in front: up to the next marker, or up to where the input breaks off. */
  function AheadBits(input: seq<byte>): seq<bool>
    decreases |input|
  {
    if input == [] then []
    else if input[0] != 0xFF then BitsOf(input[0], 8) + AheadBits(input[1..])
    else
      SkipFillIsShorter(input[1..]);
      var rest := SkipFill(input[1..]);
      if rest != [] && rest[0] == 0 then BitsOf(0xFF, 8) + AheadBits(rest[1..]) else []
  }

  /** The data bits are followed by a marker. */
  predicate Ends(input: seq<byte>)
    decreases |input|
  {
    if input == [] then false
    else if input[0] != 0xFF then Ends(input[1..])
    else
      SkipFillIsShorter(input[1..]);
      var rest := SkipFill(input[1..]);
      rest != [] && (rest[0] != 0 || Ends(rest[1..]))
  }

  /** What was stuffed is read back, and the marker after it ends the data. */
  lemma {:induction false} StuffedBitsAhead(data: seq<byte>, tail: seq<byte>)
    requires IsMarkerTail(tail)
    ensures AheadBits(Stuff(data) + tail) == BitsOfBytes(data) && Ends(Stuff(data) + tail)
    decreases |data|
  {
    hide BitsOf, BitsOfBytes;
    var s := Stuff(data) + tail;
    if data == [] {
      assert s == tail;
      assert BitsOfBytes(data) == [];
    } else {
      var rest := Stuff(data[1..]) + tail;
      assert s == StuffByte(data[0]) + rest;
      StuffedBitsAhead(data[1..], tail);
      BitsOfCons(data);
      if data[0] == 0xFF {
        assert s[1..] == [0] + rest && s[1..][1..] == rest;
      } else {
        assert s[1..] == rest;
      }
    }
  }

  /** Bytes appended by the application come behind the bits that are there already. */
  lemma {:induction false} AppendedBits(input: seq<byte>, extra: seq<byte>)
    requires !Ends(input)
    ensures AheadBits(input) <= AheadBits(input + extra)
    decreases |input|
  {
    hide BitsOf;
    if input != [] {
      if input[0] != 0xFF {
        assert (input + extra)[1..] == input[1..] + extra;
        AppendedBits(input[1..], extra);
      } else {
        assert (input + extra)[1..] == input[1..] + extra;
        SkipFillIsShorter(input[1..]);
        var rest := SkipFill(input[1..]);
        if rest != [] {
          SkipFillAppended(input[1..], extra);
          assert (rest + extra)[1..] == rest[1..] + extra;
          AppendedBits(rest[1..], extra);
        }
      }
    }
  }

  lemma {:induction false} BitsOfCons(data: seq<byte>)
    requires data != []
    ensures BitsOfBytes(data) == BitsOf(data[0], 8) + BitsOfBytes(data[1..])
    decreases |data|
  {
    hide BitsOf;
    var n := |data| - 1;
    if n == 0 {
      assert data[..0] == [] && data[1..] == [];
      assert [] + BitsOf(data[0], 8) == BitsOf(data[0], 8) + [];
    } else {
      BitsOfCons(data[..n]);
      var mid := data[1..n];
      assert data[..n][1..] == mid && data[1..] == mid + [data[n]];
      BitsOfSnoc(mid, data[n]);
      Assoc(BitsOf(data[0], 8), BitsOfBytes(mid), BitsOf(data[n], 8));
    }
  }

  function NoBits(n: nat): (s: seq<bool>)
    ensures |s| == n
  {
    seq(n, _ => false)
  }

  lemma {:induction false} BitsOfZeros(v: nat, m: nat, n: nat)
    ensures BitsOf(ShiftLeft(v, n), m + n) == BitsOf(v, m) + NoBits(n)
    decreases n
  {
    if n == 0 {
      assert BitsOf(v, m) + NoBits(0) == BitsOf(v, m);
    } else {
      BitsOfZeros(v, m, n - 1);
      var w := ShiftLeft(v, n - 1);
      assert BitsOf(2 * w, m + n) == BitsOf(w, m + n - 1) + [false];
      assert NoBits(n - 1) + [false] == NoBits(n);
      assert (BitsOf(v, m) + NoBits(n - 1)) + [false] == BitsOf(v, m) + NoBits(n);
    }
  }

  /** The first bits of a longer number. */
  lemma {:induction false} LeadingBits(v: nat, n: nat, k: nat)
    requires k <= n
    ensures BitsOf(v, n)[..k] == BitsOf(ShiftRight(v, n - k), k)
    ensures BitsOf(v, n)[k..] == BitsOf(v, n - k)
    decreases n
  {
    if k < n {
      LeadingBits(v / 2, n - 1, k);
      assert BitsOf(v, n)[..k] == BitsOf(v / 2, n - 1)[..k];
      assert BitsOf(v, n)[k..] == BitsOf(v / 2, n - 1)[k..] + [v % 2 == 1];
    }
  }

  /** `v >> n`, by halving. */
  function ShiftRight(v: nat, n: nat): nat
    decreases n
  {
    if n == 0 then v else ShiftRight(v / 2, n - 1)
  }

  /** The symbol that the bits give once zero bits are appended to them. */
  ghost predicate SuppliedZeros(t: HuffTable, s: seq<bool>, sym: nat, rest: seq<bool>)
    requires IsTable(t) && Legal(t.bits)
  {
    exists z: nat :: SymbolBehind(t, s + NoBits(z), sym, rest)
  }

  ghost predicate SymbolBehind(t: HuffTable, s: seq<bool>, sym: nat, rest: seq<bool>)
    requires IsTable(t) && Legal(t.bits)
  {
    var x := SymbolAt(t, s);
    x.Symbol? && x.sym == sym && rest == s[x.length..]
  }

  /** How the decoding of an MCU ends. LostSync: another marker than the restart marker that is due has come. */
  datatype Status = Fine | Suspended | LostSync

  class BitReader {
    var getBuffer: nat
    var bitsLeft: nat
    var input: seq<byte>
    var unreadMarker: byte
    var insufficientData: bool

    ghost predicate Valid()
      reads this
    {
      bitsLeft <= 32 && getBuffer < 0x1_0000_0000
    }

    /** The bits that can still be had: those in the buffer, and those of the bytes before the next marker. */
    ghost function Stream(): seq<bool>
      reads this
    {
      BitsOf(getBuffer, bitsLeft) + if unreadMarker != 0 then [] else AheadBits(input)
    }

    /** No more bytes can come: there is a marker. */
    ghost predicate Closed()
      reads this
    {
      unreadMarker != 0 || Ends(input)
    }

    /** The next marker, and what follows it. */
    ghost function MarkerAhead(): Option<(byte, seq<byte>)>
      reads this
    {
      if unreadMarker != 0 then Some((unreadMarker, input)) else NextMarker(input)
    }

    constructor (source: seq<byte>)
      ensures Valid() && Stream() == AheadBits(source) && (Closed() <==> Ends(source))
      ensures bitsLeft == 0 && input == source && unreadMarker == 0 && !insufficientData
    {
      getBuffer, bitsLeft, input, unreadMarker, insufficientData := 0, 0, source, 0, false;
    }

    /** The application appends bytes after the unread ones. */
    method Supply(extra: seq<byte>)
      modifies this`input
      ensures input == old(input) + extra
      ensures !old(Closed()) ==> old(Stream()) <= Stream()
    {
      if unreadMarker == 0 && !Ends(input) { AppendedBits(input, extra); }
      input := input + extra;
    }

    /** One byte more, if there is one; a run of 0xFF is passed over, and tells a data byte from a marker. */
    method NextByte(source: seq<byte>) returns (ok: bool, c: byte, marker: byte, rest: seq<byte>)
      ensures !ok ==> AheadBits(source) == [] && !Ends(source)
      ensures ok && marker == 0 ==>
                && AheadBits(source) == BitsOf(c, 8) + AheadBits(rest) && |rest| < |source|
                && (Ends(source) <==> Ends(rest)) && NextMarker(source) == NextMarker(rest)
      ensures ok && marker != 0 ==>
                AheadBits(source) == [] && Ends(source) && NextMarker(source) == Some((marker, rest))
    {
      marker := 0;
      if source == [] { return false, 0, 0, source; }
      c, rest := source[0], source[1..];
      if c == 0xFF {
        SkipFillIsShorter(rest);
        if rest == [] { return false, 0, 0, source; }
        c, rest := rest[0], rest[1..];
        while c == 0xFF
          invariant SkipFill(source[1..]) == SkipFill([c] + rest) && |rest| < |source|
          decreases |rest|
        {
          assert ([c] + rest)[1..] == rest;
          if rest == [] { return false, 0, 0, source; }
          assert rest == [rest[0]] + rest[1..];
          c, rest := rest[0], rest[1..];
        }
        assert SkipFill(source[1..]) == [c] + rest && ([c] + rest)[1..] == rest;
        if c == 0 {
          c := 0xFF;
        } else {
          marker := c;
        }
      }
      ok := true;
    }

    /** Load the buffer up to at least `nbits` bits; zero bits are supplied once the data has ended. False asks the
        caller to suspend, and then nothing has changed. */
    method FillBitBuffer(nbits: nat) returns (ok: bool)
      requires Valid() && nbits <= MIN_GET_BITS
      modifies this
      ensures Valid() && MarkerAhead() == old(MarkerAhead())
      ensures !ok ==> !old(Closed()) && !Closed()
                      && getBuffer == old(getBuffer) && bitsLeft == old(bitsLeft) && input == old(input)
                      && unreadMarker == old(unreadMarker) && insufficientData == old(insufficientData)
      ensures ok ==> nbits <= bitsLeft && (unreadMarker != 0 || bitsLeft >= MIN_GET_BITS)
      ensures ok && nbits <= |old(Stream())| ==>
                Stream() == old(Stream()) && Closed() == old(Closed()) && insufficientData == old(insufficientData)
      ensures ok && nbits > |old(Stream())| ==>
                && old(Closed()) && Closed() && insufficientData
                && Stream() == old(Stream()) + NoBits(MIN_GET_BITS - |old(Stream())|)
    {
      hide BitsOf, AheadBits, Ends, NextMarker;
      var buffer: nat, left: nat, next, marker := getBuffer, bitsLeft, input, unreadMarker;
      while marker == 0 && left < MIN_GET_BITS
        invariant buffer < 0x1_0000_0000 && left <= 32
        invariant BitsOf(buffer, left) + (if marker != 0 then [] else AheadBits(next)) == Stream()
        invariant (marker != 0 || Ends(next)) <==> Closed()
        invariant (if marker != 0 then Some((marker, next)) else NextMarker(next)) == MarkerAhead()
        decreases if marker == 0 then 1 else 0, |next|
        modifies {}
      {
        var c, mark: byte, rest;
        ok, c, mark, rest := NextByte(next);
        if !ok { return; }
        ByteLoaded(buffer, left, c);
        if mark == 0 {
          assert BitsOf(buffer, left) + (BitsOf(c, 8) + AheadBits(rest))
              == (BitsOf(buffer, left) + BitsOf(c, 8)) + AheadBits(rest);
          buffer := (buffer * 0x100 + c) % 0x1_0000_0000;
          left := left + 8;
        } else {
          marker := mark;
        }
        next := rest;
      }
      if left < nbits {
        assert BitsOf(buffer, left) + [] == BitsOf(buffer, left);
        ghost var n := MIN_GET_BITS - left;
        BitsOfZeros(buffer, left, n);
        TruncatedBits(ShiftLeft(buffer, n), MIN_GET_BITS);
        insufficientData := true;
        buffer := ShiftLeft(buffer, MIN_GET_BITS - left) % 0x1_0000_0000;
        left := MIN_GET_BITS;
        assert BitsOf(buffer, left) + [] == BitsOf(buffer, left);
      }
      getBuffer, bitsLeft, input, unreadMarker := buffer, left, next, marker;
      ok := true;
    }

    /** The register has 32 bits; the bits that fall out at the top are not among those counted. */
    static lemma ByteLoaded(buffer: nat, left: nat, c: byte)
      ensures left <= 24 ==>
                BitsOf((buffer * 0x100 + c) % 0x1_0000_0000, left + 8) == BitsOf(buffer, left) + BitsOf(c, 8)
    {
      if left <= 24 {
        hide *;
        Pow2Of24();
        BitsOfSum(buffer, c, left, 8);
        ShiftByBytes(buffer);
        TruncatedBits(buffer * 0x100 + c, left + 8);
      }
    }

    static lemma TruncatedBits(v: nat, n: nat)
      requires n <= 32
      ensures BitsOf(v % 0x1_0000_0000, n) == BitsOf(v, n)
    {
      hide BitsOf, ShiftLeft, Pow2;
      var k := v / 0x1_0000_0000;
      ShiftTwice(k, 32 - n, n);
      ShiftBy32(k);
      BitsOfRemainder(v, v % 0x1_0000_0000, ShiftLeft(k, 32 - n), n);
    }

    static lemma ShiftBy32(v: nat)
      ensures ShiftLeft(v, 32) == 0x1_0000_0000 * v
    {
      ShiftByBytes(v);
      ShiftTwice(v, 16, 16);
      ShiftByBytes(ShiftLeft(v, 16));
    }

    /** CHECK_BIT_BUFFER. */
    method CheckBitBuffer(nbits: nat) returns (ok: bool)
      requires Valid() && nbits <= MIN_GET_BITS
      modifies this
      ensures Valid() && MarkerAhead() == old(MarkerAhead())
      ensures !ok ==> !old(Closed()) && !Closed()
                      && getBuffer == old(getBuffer) && bitsLeft == old(bitsLeft) && input == old(input)
                      && unreadMarker == old(unreadMarker) && insufficientData == old(insufficientData)
      ensures ok ==> nbits <= bitsLeft
      ensures ok && nbits <= |old(Stream())| ==>
                Stream() == old(Stream()) && Closed() == old(Closed()) && insufficientData == old(insufficientData)
      ensures ok && nbits > |old(Stream())| ==>
                && old(Closed()) && Closed() && insufficientData
                && Stream() == old(Stream()) + NoBits(MIN_GET_BITS - |old(Stream())|)
    {
      ok := true;
      if bitsLeft < nbits {
        ok := FillBitBuffer(nbits);
      }
    }

    /** PEEK_BITS: the next `n` bits as a number, left in the buffer. */
    function PeekBits(n: nat): nat
      reads this
      requires n <= bitsLeft
    {
      Low(ShiftRight(getBuffer, bitsLeft - n), n)
    }

    lemma PeekedBits(n: nat)
      requires n <= bitsLeft
      ensures |Stream()| >= n && PeekBits(n) == ValueOf(Stream()[..n])
    {
      LeadingBits(getBuffer, bitsLeft, n);
      LowIsValue(ShiftRight(getBuffer, bitsLeft - n), n);
      assert Stream()[..n] == BitsOf(getBuffer, bitsLeft)[..n];
    }

    /** DROP_BITS. */
    method DropBits(n: nat)
      requires Valid() && n <= bitsLeft
      modifies this`bitsLeft
      ensures MarkerAhead() == old(MarkerAhead())
      ensures Valid() && n <= |old(Stream())| && Stream() == old(Stream())[n..] && Closed() == old(Closed())
      ensures bitsLeft == old(bitsLeft) - n
    {
      hide AheadBits, Ends, NextMarker, BitsOf;
      LeadingBits(getBuffer, bitsLeft, n);
      DropsFront(BitsOf(getBuffer, bitsLeft), if unreadMarker != 0 then [] else AheadBits(input), n);
      bitsLeft := bitsLeft - n;
    }

    static lemma DropsFront(a: seq<bool>, b: seq<bool>, n: nat)
      requires n <= |a|
      ensures (a + b)[n..] == a[n..] + b
    {
    }

    /** GET_BITS: fetch the next `n` bits. */
    method GetBits(n: nat) returns (v: nat)
      requires Valid() && n <= bitsLeft
      modifies this`bitsLeft
      ensures MarkerAhead() == old(MarkerAhead())
      ensures Valid() && n <= |old(Stream())| && Stream() == old(Stream())[n..] && Closed() == old(Closed())
      ensures v == ValueOf(old(Stream())[..n])
    {
      PeekedBits(n);
      v := PeekBits(n);
      DropBits(n);
    }

    /** HUFF_DECODE: the next symbol, by lookahead if there are eight bits and an entry for them. */
    method HuffDecode(d: DerivedTable) returns (ok: bool, sym: nat)
      requires Valid() && IsDerived(d)
      modifies this
      ensures Valid() && MarkerAhead() == old(MarkerAhead())
      ensures !ok ==> !old(Closed()) && !Closed() && insufficientData == old(insufficientData)
      ensures var x := SymbolAt(d.pub, old(Stream()));
              ok && x.Symbol? ==>
                && sym == x.sym && Stream() == old(Stream())[x.length..] && Closed() == old(Closed())
                && insufficientData == old(insufficientData)
      ensures ok && SymbolAt(d.pub, old(Stream())).TooShort? ==>
                && old(Closed()) && Closed() && insufficientData
                && SuppliedZeros(d.pub, old(Stream()), sym, Stream())
    {
      hide IsDerived, SymbolAt, Stream, MarkerAhead;
      if bitsLeft < HUFF_LOOKAHEAD {
        ok := FillBitBuffer(0);
        if !ok { return false, 0; }
        assert Stream() == old(Stream());
        if bitsLeft < HUFF_LOOKAHEAD {
          ok, sym := SlowDecode(d, 1);
          return;
        }
      }
      var look := PeekBits(HUFF_LOOKAHEAD);
      PeekedBits(HUFF_LOOKAHEAD);
      LookedUp(d, Stream(), look);
      var nb := d.lookNbits[look];
      if nb != 0 {
        DropBits(nb);
        ok, sym := true, d.lookSym[look];
      } else {
        ok, sym := SlowDecode(d, HUFF_LOOKAHEAD + 1);
      }
    }

    static lemma LookedUp(d: DerivedTable, s: seq<bool>, look: nat)
      requires IsDerived(d) && |s| >= 8 && look == ValueOf(s[..8])
      ensures look < 256 && |d.lookNbits| == |d.lookSym| == 256
      ensures d.lookNbits[look] != 0 ==> SymbolAt(d.pub, s) == Symbol(d.lookSym[look], d.lookNbits[look])
      ensures d.lookNbits[look] == 0 ==> Passed(d.pub.bits, s, 9)
      ensures d.lookNbits[look] <= 8
    {
      hide LookaheadEntry, Count, MatchWord, ValueOf;
      Pow2Of24();
      assert LookaheadEntry(d.pub, look, d.lookNbits[look], d.lookSym[look]);
      LookaheadAgrees(d.pub, s, d.lookNbits[look], d.lookSym[look]);
      EntryIsShort(d.pub, look, d.lookNbits[look], d.lookSym[look]);
    }

    static lemma EntryIsShort(t: HuffTable, b: nat, nbits: nat, sym: nat)
      requires IsTable(t) && NumSymbols(t) <= 256 && LookaheadEntry(t, b, nbits, sym)
      ensures nbits <= 8
    {
      hide MatchFrom, Count;
    }

    /** jpeg_huff_decode: the code is at least `minBits` long; collect the rest of it one bit at a time. */
    method SlowDecode(d: DerivedTable, minBits: nat) returns (ok: bool, sym: nat)
      requires Valid() && IsDerived(d) && 1 <= minBits <= 9 && minBits <= |Stream()| + 1
      requires Passed(d.pub.bits, Stream(), minBits)
      modifies this
      ensures Valid() && MarkerAhead() == old(MarkerAhead())
      ensures !ok ==> !old(Closed()) && !Closed() && insufficientData == old(insufficientData)
      ensures var x := SymbolAt(d.pub, old(Stream()));
              ok && x.Symbol? ==>
                && sym == x.sym && Stream() == old(Stream())[x.length..] && Closed() == old(Closed())
                && insufficientData == old(insufficientData)
      ensures ok && SymbolAt(d.pub, old(Stream())).TooShort? ==>
                && old(Closed()) && Closed() && insufficientData
                && SuppliedZeros(d.pub, old(Stream()), sym, Stream())
    {
      hide DecoderTables, IsDerived, SymbolAt, Stream, Passed, ValueOf, Ends, Closed, MarkerAhead;
      sym := 0;
      DerivedSizes(d);
      var l, code := minBits, 0;
      ghost var s0 := Stream();
      ghost var s, z := s0, 0;
      assert s0 + NoBits(0) == s0;
      ok := CheckBitBuffer(l);
      if !ok { return; }
      s, z := Supplied(d, s0, s, z, l, if |s0| < MIN_GET_BITS then MIN_GET_BITS - |s0| else 0);
      code := GetBits(l);
      while code > d.maxcode[l]
        invariant Collecting(d, s0, s, z, l, code) && MarkerAhead() == old(MarkerAhead())
        invariant if z == 0 then Closed() == old(Closed()) && insufficientData == old(insufficientData)
                  else old(Closed()) && Closed() && insufficientData
        decreases 17 - l
      {
        ComparedWithMaxcode(d, s, l);
        ok, code, s, z := CollectBit(d, s0, s, z, l, code);
        if !ok { return; }
        l := l + 1;
      }
      ComparedWithMaxcode(d, s, l);
      if l > 16 {
        assert SymbolBehind(d.pub, s0 + NoBits(z), 0, Stream());
        return true, 0;
      }
      sym := d.pub.huffval[code + d.valoffset[l]];
      assert SymbolBehind(d.pub, s0 + NoBits(z), sym, Stream());
      ok := true;
    }

    /** `l` bits of `s` have been taken, and no shorter code fits them; `z` zero bits were supplied. */
    ghost predicate Collecting(d: DerivedTable, s0: seq<bool>, s: seq<bool>, z: nat, l: nat, code: int)
      reads this
      requires IsDerived(d)
    {
      && Valid() && s == s0 + NoBits(z) && 1 <= l <= 17 && l <= |s| && Stream() == s[l..]
      && code == ValueOf(s[..l]) && Passed(d.pub.bits, s, l)
      && (z > 0 ==> SymbolAt(d.pub, s0).TooShort?)
    }

    method CollectBit(d: DerivedTable, ghost s0: seq<bool>, ghost s: seq<bool>, ghost z: nat, l: nat, code: int)
      returns (ok: bool, code': int, ghost s': seq<bool>, ghost z': nat)
      requires IsDerived(d) && Collecting(d, s0, s, z, l, code) && l <= 16 && Passed(d.pub.bits, s, l + 1)
      modifies this
      ensures Valid() && MarkerAhead() == old(MarkerAhead())
      ensures !ok ==> !old(Closed()) && !Closed() && insufficientData == old(insufficientData)
      ensures ok ==> Collecting(d, s0, s', z', l + 1, code')
      ensures ok && z' == z ==> Closed() == old(Closed()) && insufficientData == old(insufficientData)
      ensures ok && z' != z ==> old(Closed()) && Closed() && insufficientData && z' > 0
    {
      hide DecoderTables, IsDerived, SymbolAt, Stream, Passed, ValueOf, Ends, Closed, MarkerAhead;
      s', z' := s, z;
      code' := 2 * code;
      ok := CheckBitBuffer(1);
      if !ok { return; }
      s', z' := Supplied(d, s0, s, z, l + 1, MIN_GET_BITS);
      assert s'[..l] == s[..l] && Stream() == s'[l..];
      var bit := GetBits(1);
      ValueOfLonger(s', l);
      OneBitValue(s'[l..]);
      code' := code' + bit;
    }

    lemma DerivedSizes(d: DerivedTable)
      requires IsDerived(d)
      ensures |d.maxcode| == |d.valoffset| == 18 && IsTable(d.pub) && Legal(d.pub.bits)
    {
    }

    /** The string that is being matched, with zero bits appended if the `n` bits asked for were not there. */
    static lemma Supplied(d: DerivedTable, s0: seq<bool>, s: seq<bool>, z: nat, n: nat, added: nat)
      returns (s': seq<bool>, z': nat)
      requires IsDerived(d) && s == s0 + NoBits(z) && 1 <= n <= |s| + 1 && n <= 17 && Passed(d.pub.bits, s, n)
      requires z > 0 ==> SymbolAt(d.pub, s0).TooShort?
      requires n > |s| ==> 1 <= added
      ensures s' == s0 + NoBits(z') && n <= |s'| && Passed(d.pub.bits, s', n)
      ensures n <= |s| ==> s' == s && z' == z
      ensures n > |s| ==> s' == s + NoBits(added) && z' > 0
      ensures z' > 0 ==> SymbolAt(d.pub, s0).TooShort?
    {
      hide DecoderTables, ValueOf, Count, First, MatchWord;
      s', z' := s, z;
      if n > |s| {
        PassedIsShort(d.pub.bits, s);
        s', z' := s + NoBits(added), z + added;
        assert NoBits(z) + NoBits(added) == NoBits(z');
        assert s0 + NoBits(0) == s0;
        forall k | 1 <= k < n ensures s'[..k] == s[..k] {}
      }
    }

    // -------------------------------------------------------------- what the decoding routines ask for

    /** Once zero bits have been supplied, there is a marker ahead. */
    ghost predicate Flagged()
      reads this
    {
      insufficientData ==> Closed()
    }

    /** What every request and every routine built on requests keeps: the flag stays set, and a closed source never
        makes the decoder suspend. */
    twostate predicate Orderly(ok: bool)
      reads this
    {
      && Valid() && Flagged() && Closed() == old(Closed()) && MarkerAhead() == old(MarkerAhead())
      && (old(insufficientData) ==> insufficientData)
      && (!ok ==> !Closed())
    }

    /** `n` bits as a number, or a request to suspend. Zero bits may be supplied at the end of the data. */
    method Request(n: nat) returns (ok: bool, v: nat)
      requires Valid() && Flagged() && n <= 16
      modifies this
      ensures Orderly(ok) && v < Pow2(n)
      ensures ok && !insufficientData ==> ReadBits(n, old(Stream())) == Done(Stream(), v)
      ensures !old(insufficientData) && insufficientData ==> ReadBits(n, old(Stream())).Suspend?
    {
      hide Stream, Closed, MarkerAhead, ValueOf;
      v := 0;
      PositivePower(n);
      ok := CheckBitBuffer(n);
      if ok {
        v := GetBits(n);
      }
    }

    /** The next symbol, likewise. */
    method NextSymbol(d: DerivedTable) returns (ok: bool, sym: nat)
      requires Valid() && Flagged() && IsDerived(d)
      modifies this
      ensures Orderly(ok) && (ok ==> Listed(d.pub, sym))
      ensures ok && !insufficientData ==> ReadSymbol(d.pub, old(Stream())) == Done(Stream(), sym)
      ensures !old(insufficientData) && insufficientData ==> ReadSymbol(d.pub, old(Stream())).Suspend?
    {
      hide Stream, Closed, MarkerAhead, DecoderTables, SymbolAt;
      ok, sym := HuffDecode(d);
      SymbolIsListed(d.pub, old(Stream()));
      if ok && SymbolAt(d.pub, old(Stream())).TooShort? {
        SuppliedIsListed(d.pub, old(Stream()), sym, Stream());
      }
    }

    /** A symbol of the table, or the zero that stands in for a bad code. */
    static predicate Listed(t: HuffTable, sym: nat)
      requires IsTable(t)
    {
      sym <= 255 && (sym == 0 || exists p :: 0 <= p < NumSymbols(t) && p < 256 && t.huffval[p] == sym)
    }

    static lemma SymbolIsListed(t: HuffTable, s: seq<bool>)
      requires IsTable(t) && Legal(t.bits)
      ensures var x := SymbolAt(t, s); x.Symbol? ==> Listed(t, x.sym)
    {
      hide MatchWord, Count;
    }

    static lemma SuppliedIsListed(t: HuffTable, s: seq<bool>, sym: nat, rest: seq<bool>)
      requires IsTable(t) && Legal(t.bits) && SuppliedZeros(t, s, sym, rest)
      ensures Listed(t, sym)
    {
      hide SymbolAt;
      var z: nat :| SymbolBehind(t, s + NoBits(z), sym, rest);
      SymbolIsListed(t, s + NoBits(z));
    }

    /** A value whose size is known. */
    method Value(n: nat) returns (ok: bool, v: int)
      requires Valid() && Flagged() && n <= 16
      modifies this
      ensures Orderly(ok)
      ensures ok && !insufficientData ==> ReadValue(n, old(Stream())) == Done(Stream(), v)
      ensures !old(insufficientData) && insufficientData ==> ReadValue(n, old(Stream())).Suspend?
    {
      hide Stream, Closed, MarkerAhead, Valid, ReadBits;
      ok, v := true, 0;
      if n != 0 {
        var x: nat;
        ok, x := Request(n);
        v := Extend(x, n);
      }
    }

    lemma NoMarkerYet()
      ensures !Closed() ==> unreadMarker == 0
    {
    }

    /** The working state has been given up for the saved one. */
    twostate lemma RestoredState()
      requires !old(Closed()) && unreadMarker == 0 && input == old(input)
      requires getBuffer == old(getBuffer) && bitsLeft == old(bitsLeft)
      ensures Valid() == old(Valid()) && Stream() == old(Stream()) && !Closed() && MarkerAhead() == old(MarkerAhead())
    {
    }

    // -------------------------------------------------------------- markers

    /** next_marker. */
    method FindMarker() returns (ok: bool)
      requires unreadMarker == 0
      modifies this`input, this`unreadMarker
      ensures ok ==> NextMarker(old(input)) == Some((unreadMarker, input)) && unreadMarker != 0
      ensures !ok ==> unreadMarker == 0 && NextMarker(old(input)) == None && SameMarker(old(input), input)
    {
      ok, unreadMarker, input := FindNextMarker(input);
    }

    /** read_restart_marker, when the marker that comes is the expected one or none comes at all. */
    method ReadRestartMarker(expected: nat) returns (found: bool, lost: bool)
      requires expected < 8
      modifies this`input, this`unreadMarker
      ensures found <==> old(MarkerAhead()).Some? && old(MarkerAhead()).value.0 == RST0 + expected
      ensures lost <==> old(MarkerAhead()).Some? && old(MarkerAhead()).value.0 != RST0 + expected
      ensures found ==> unreadMarker == 0 && input == old(MarkerAhead()).value.1
      ensures !found && !lost ==> unreadMarker == old(unreadMarker) == 0 && SameMarker(old(input), input)
    {
      hide NextMarker, SameMarker;
      found, lost := false, false;
      if unreadMarker == 0 {
        var ok := FindMarker();
        if !ok { return; }
      }
      if unreadMarker != RST0 + expected { return false, true; }
      found := true;
      unreadMarker := 0;
    }

    /** What process_restart does to the bit reader: what is left of the segment is thrown away, and reading starts anew
        behind the marker. */
    method Restart(expected: nat) returns (found: bool, lost: bool)
      requires Valid() && Flagged() && expected < 8
      modifies this
      ensures found <==> old(MarkerAhead()).Some? && old(MarkerAhead()).value.0 == RST0 + expected
      ensures !lost ==> Valid() && Flagged()
      ensures found ==>
                && !lost && !insufficientData && Stream() == AheadBits(old(MarkerAhead()).value.1)
                && MarkerAhead() == NextMarker(old(MarkerAhead()).value.1)
      ensures !found && !lost ==> !Closed() && unreadMarker == 0 && SameMarker(old(input), input)
    {
      hide NextMarker, AheadBits, Ends, SameMarker;
      bitsLeft := 0;
      EndIsMarker(input);
      found, lost := ReadRestartMarker(expected);
      if lost { return; }
      EndIsMarker(input);
      if !found {
        NoMarkerIn(old(input), input);
        return;
      }
      if unreadMarker == 0 { insufficientData := false; }
      assert [] + AheadBits(input) == AheadBits(input);
    }

    static lemma {:induction false} EndIsMarker(s: seq<byte>)
      ensures Ends(s) <==> NextMarker(s).Some?
      decreases |s|
    {
      if s != [] {
        SkipFillIsShorter(s[1..]);
        if s[0] != 0xFF {
          EndIsMarker(s[1..]);
        } else {
          var rest := SkipFill(s[1..]);
          if rest != [] && rest[0] == 0 { EndIsMarker(rest[1..]); }
        }
      }
    }
  }
}
