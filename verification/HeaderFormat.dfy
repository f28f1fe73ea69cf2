/** The parameter segments of frame and scan headers: what the compressor writes (emit_dqt, emit_dht, emit_dac, emit_dri,
    emit_sof and emit_sos in jcmarker.c) and how the decompressor reads it (get_dqt and its siblings in jdmarker.c). */
module HeaderFormat {
  import opened Limits
  import opened EstimationTable

  // ---------------------------------------------------------------- bytes

  /** Short: the input at hand ends too early. Bad: the source gives up. */
  datatype Parsed<+T> = Short | Bad | Ok(rest: seq<byte>, v: T)
  {
    predicate IsFailure() { !Ok? }

    function PropagateFailure<U>(): Parsed<U>
      requires IsFailure()
    {
      if Short? then Short else Bad
    }

    function Extract(): (seq<byte>, T)
      requires !IsFailure()
    {
      (rest, v)
    }
  }

  function GetByte(s: seq<byte>): (x: Parsed<nat>)
    ensures x.Ok? ==> x.v < 256 && |x.rest| == |s| - 1
  {
    if s == [] then Short else Ok(s[1..], s[0])
  }

  function Get2Bytes(s: seq<byte>): (x: Parsed<nat>)
    ensures x.Ok? ==> x.v < 0x10000 && |x.rest| == |s| - 2
  {
    var (s1, hi) :- GetByte(s);
    var (s2, lo) :- GetByte(s1);
    Ok(s2, 256 * hi + lo)
  }

  /** `n` values of one byte each, or of two. */
  function GetValues(s: seq<byte>, n: nat, wide: bool): (x: Parsed<seq<nat>>)
    ensures x.Ok? ==> |x.rest| <= |s| && |x.v| == n && forall i :: 0 <= i < n ==> x.v[i] < 0x10000
    decreases n
  {
    if n == 0 then Ok(s, [])
    else
      var (s1, v) :- if wide then Get2Bytes(s) else GetByte(s);
      var (s2, more) :- GetValues(s1, n - 1, wide);
      Ok(s2, [v] + more)
  }

  function TwoBytes(v: nat): seq<byte>
    requires v < 0x10000
  {
    [v / 256, v % 256]
  }

  function ValueBytes(vs: seq<nat>, wide: bool): seq<byte>
    requires forall i :: 0 <= i < |vs| ==> vs[i] < if wide then 0x10000 else 256
    decreases |vs|
  {
    if vs == [] then [] else (if wide then TwoBytes(vs[0]) else [vs[0]]) + ValueBytes(vs[1..], wide)
  }

  // ---------------------------------------------------------------- what is written is read

  lemma ByteReads(b: byte, rest: seq<byte>)
    ensures GetByte([b] + rest) == Ok(rest, b)
  {
    assert ([b] + rest)[1..] == rest;
  }

  lemma TwoBytesRead(v: nat, rest: seq<byte>)
    requires v < 0x10000
    ensures Get2Bytes(TwoBytes(v) + rest) == Ok(rest, v)
  {
    var s := TwoBytes(v) + rest;
    assert s == [v / 256] + ([v % 256] + rest);
    ByteReads(v / 256, [v % 256] + rest);
    ByteReads(v % 256, rest);
  }

  lemma {:induction false} ValuesRead(vs: seq<nat>, wide: bool, rest: seq<byte>)
    requires forall i :: 0 <= i < |vs| ==> vs[i] < if wide then 0x10000 else 256
    ensures GetValues(ValueBytes(vs, wide) + rest, |vs|, wide) == Ok(rest, vs)
    decreases |vs|
  {
    hide GetByte, Get2Bytes;
    if vs == [] {
      assert ValueBytes(vs, wide) + rest == rest;
    } else {
      var more := ValueBytes(vs[1..], wide) + rest;
      if wide {
        assert ValueBytes(vs, wide) + rest == TwoBytes(vs[0]) + more;
        TwoBytesRead(vs[0], more);
      } else {
        assert ValueBytes(vs, wide) + rest == [vs[0]] + more;
        ByteReads(vs[0], more);
      }
      ValuesRead(vs[1..], wide, rest);
      assert vs == [vs[0]] + vs[1..];
    }
  }

  // ---------------------------------------------------------------- bytes that arrive later

  /** The outcome with more input: the same, unless the input ended too early. */
  ghost predicate Extends<T>(x: Parsed<T>, y: Parsed<T>, extra: seq<byte>) {
    match x
    case Short => true
    case Bad => y.Bad?
    case Ok(rest, v) => y == Ok(rest + extra, v)
  }

  lemma ByteExtends(s: seq<byte>, extra: seq<byte>)
    ensures Extends(GetByte(s), GetByte(s + extra), extra)
  {
    if s != [] { assert (s + extra)[1..] == s[1..] + extra; }
  }

  lemma TwoBytesExtend(s: seq<byte>, extra: seq<byte>)
    ensures Extends(Get2Bytes(s), Get2Bytes(s + extra), extra)
  {
    ByteExtends(s, extra);
    var x := GetByte(s);
    if x.Ok? { ByteExtends(x.rest, extra); }
  }

  lemma {:induction false} ValuesExtend(s: seq<byte>, n: nat, wide: bool, extra: seq<byte>)
    ensures Extends(GetValues(s, n, wide), GetValues(s + extra, n, wide), extra)
    decreases n
  {
    hide GetByte, Get2Bytes;
    if n > 0 {
      ByteExtends(s, extra);
      TwoBytesExtend(s, extra);
      var x := if wide then Get2Bytes(s) else GetByte(s);
      if x.Ok? { ValuesExtend(x.rest, n - 1, wide, extra); }
    }
  }

  // ---------------------------------------------------------------- quantisation tables

  /** Zigzag orders: that of the full block, and those of blocks of two to seven rows. */
  datatype Orders = Orders(full: seq<nat>, small: seq<seq<nat>>) {
    predicate Valid() {
      && IsOrder(full) && |full| == 64 && (forall p :: 0 <= p < 64 ==> p in full)
      && |small| == 8 && forall b :: 2 <= b <= 7 ==> IsOrder(small[b]) && |small[b]| == b * b
    }

    static predicate IsOrder(o: seq<nat>) {
      && (forall i :: 0 <= i < |o| ==> o[i] < 64)
      && (forall i, j :: 0 <= i < j < |o| ==> o[i] != o[j])
    }

    /** The order that the reader takes, by the number of values. */
    function For(count: nat): (o: seq<nat>)
      requires Valid() && count <= 64
      ensures IsOrder(o) && count <= |o| && (count == 64 ==> o == full)
    {
      if count == 4 then small[2] else if count == 9 then small[3] else if count == 16 then small[4]
      else if count == 25 then small[5] else if count == 36 then small[6] else if count == 49 then small[7] else full
    }

    /** The order that the writer takes, by the block size. */
    function OfBlockSize(b: nat): seq<nat>
      requires Valid()
    {
      if 2 <= b <= 7 then small[b] else full
    }
  }

  /** lim_Se + 1. */
  function Coefficients(blockSize: nat): nat { if blockSize < 8 then blockSize * blockSize else 64 }

  lemma OrdersAgree(os: Orders, b: nat)
    requires os.Valid() && b >= 1
    ensures 1 <= Coefficients(b) <= 64 && os.OfBlockSize(b) == os.For(Coefficients(b))
  {
    assert b == 1 || b == 2 || b == 3 || b == 4 || b == 5 || b == 6 || b == 7 || b >= 8;
  }

  /** A number of values that is no square of a block size from two to seven is taken for part of a full block. */
  lemma OrderIsBySquares(os: Orders, count: nat)
    requires os.Valid() && count <= 64
    ensures os.For(count) == if count in {4, 9, 16, 25, 36, 49} then os.OfBlockSize(SquareRoot(count)) else os.full
    ensures count in {4, 9, 16, 25, 36, 49} ==> SquareRoot(count) * SquareRoot(count) == count
  {
  }

  function SquareRoot(count: nat): (b: nat)
    ensures 2 <= b <= 7
  {
    if count < 9 then 2 else if count < 16 then 3 else if count < 25 then 4 else if count < 36 then 5 else if count < 49 then 6 else 7
  }

  /** A table, in natural order. */
  type QuantTable = q: seq<nat> | |q| == 64 witness seq(64, _ => 1)

  datatype QuantDef = QuantDef(index: nat, vals: seq<nat>)

  predicate IsQuantDef(d: QuantDef) { d.index < NUM_QUANT_TBLS && |d.vals| <= 64 }

  /** The first `n` values put in their places. */
  function Filled(o: seq<nat>, vals: seq<nat>, n: nat, base: QuantTable): QuantTable
    requires Orders.IsOrder(o) && n <= |vals| && n <= |o|
    decreases n
  {
    if n == 0 then base else Filled(o, vals, n - 1, base)[o[n - 1] := vals[n - 1]]
  }

  function Ones(): QuantTable { seq(64, _ => 1) }

  function Defined(os: Orders, vals: seq<nat>): QuantTable
    requires os.Valid() && |vals| <= 64
  {
    Filled(os.For(|vals|), vals, |vals|, Ones())
  }

  lemma {:induction false} FilledAt(o: seq<nat>, vals: seq<nat>, n: nat, base: QuantTable, i: nat)
    requires Orders.IsOrder(o) && i < n <= |vals| && n <= |o|
    ensures Filled(o, vals, n, base)[o[i]] == vals[i]
    decreases n
  {
    if i < n - 1 { FilledAt(o, vals, n - 1, base, i); }
  }

  lemma {:induction false} FilledElsewhere(o: seq<nat>, vals: seq<nat>, n: nat, base: QuantTable, p: nat)
    requires Orders.IsOrder(o) && n <= |vals| && n <= |o| && p < 64 && p !in o[..n]
    ensures Filled(o, vals, n, base)[p] == base[p]
    decreases n
  {
    if n > 0 {
      assert o[n - 1] == o[..n][n - 1];
      assert forall j :: 0 <= j < n - 1 ==> o[..n - 1][j] == o[..n][j];
      FilledElsewhere(o, vals, n - 1, base, p);
    }
  }

  /** With all the values, nothing is left of the table before. */
  lemma AllFilled(os: Orders, vals: seq<nat>, base: QuantTable)
    requires os.Valid() && |vals| == 64
    ensures Filled(os.full, vals, 64, base) == Defined(os, vals)
  {
    forall p: nat | p < 64 ensures Filled(os.full, vals, 64, base)[p] == Defined(os, vals)[p] {
      assert p in os.full;
      var i: nat :| i < 64 && os.full[i] == p;
      FilledAt(os.full, vals, 64, base, i);
      FilledAt(os.full, vals, 64, Ones(), i);
    }
  }

  /** What is left of a DQT segment. */
  function DqtTables(s: seq<byte>, length: int): (x: Parsed<seq<QuantDef>>)
    ensures x.Ok? ==> |x.rest| <= |s| && forall i :: 0 <= i < |x.v| ==> IsQuantDef(x.v[i])
    decreases length
  {
    if length <= 0 then (if length == 0 then Ok(s, []) else Bad)
    else
      var (s1, n) :- GetByte(s);
      if n % 16 >= NUM_QUANT_TBLS then Bad
      else
        var wide, left := n / 16 != 0, length - 1;
        var count := ValueCount(left, wide);
        var (s2, vals) :- GetValues(s1, count, wide);
        var (s3, more) :- DqtTables(s2, left - if wide then 2 * count else count);
        Ok(s3, [QuantDef(n % 16, vals)] + more)
  }

  function ValueCount(left: nat, wide: bool): (n: nat)
    ensures n <= 64
  {
    if wide then (if left < 128 then left / 2 else 64) else if left < 64 then left else 64
  }

  function ParseDqt(s: seq<byte>): (x: Parsed<seq<QuantDef>>)
    ensures x.Ok? ==> |x.rest| <= |s| && forall i :: 0 <= i < |x.v| ==> IsQuantDef(x.v[i])
  {
    var (s1, length) :- Get2Bytes(s);
    DqtTables(s1, length - 2)
  }

  lemma {:induction false} DqtTablesExtend(s: seq<byte>, length: int, extra: seq<byte>)
    ensures Extends(DqtTables(s, length), DqtTables(s + extra, length), extra)
    decreases length
  {
    hide GetByte, GetValues, ValueCount;
    if length > 0 {
      ByteExtends(s, extra);
      var x := GetByte(s);
      if x.Ok? && x.v % 16 < NUM_QUANT_TBLS {
        var wide, left := x.v / 16 != 0, length - 1;
        var count := ValueCount(left, wide);
        ValuesExtend(x.rest, count, wide, extra);
        var y := GetValues(x.rest, count, wide);
        if y.Ok? { DqtTablesExtend(y.rest, left - (if wide then 2 * count else count), extra); }
      }
    }
  }

  lemma DqtExtends(s: seq<byte>, extra: seq<byte>)
    ensures Extends(ParseDqt(s), ParseDqt(s + extra), extra)
  {
    hide Get2Bytes, DqtTables;
    TwoBytesExtend(s, extra);
    var x := Get2Bytes(s);
    if x.Ok? { DqtTablesExtend(x.rest, (x.v as int) - 2, extra); }
  }

  /** The values that the writer sends. */
  function Zigzag(os: Orders, q: QuantTable, blockSize: nat): (vals: seq<nat>)
    requires os.Valid() && blockSize >= 1
    ensures |vals| == Coefficients(blockSize)
  {
    OrdersAgree(os, blockSize);
    var o := os.OfBlockSize(blockSize);
    seq(Coefficients(blockSize), i requires 0 <= i < Coefficients(blockSize) => q[o[i]])
  }

  predicate IsWide(vals: seq<nat>) { exists i :: 0 <= i < |vals| && vals[i] > 255 }

  predicate SixteenBits(q: seq<nat>) { forall i :: 0 <= i < |q| ==> q[i] < 0x10000 }

  /** The parameters of a DQT segment that holds one table. */
  function DqtBytes(index: nat, vals: seq<nat>): seq<byte>
    requires index < NUM_QUANT_TBLS && 1 <= |vals| <= 64 && SixteenBits(vals)
  {
    var wide := IsWide(vals);
    TwoBytes(if wide then 2 * |vals| + 3 else |vals| + 3)
      + ([index + if wide then 16 else 0] + ValueBytes(vals, wide))
  }

  lemma DqtReads(index: nat, vals: seq<nat>, rest: seq<byte>)
    requires index < NUM_QUANT_TBLS && 1 <= |vals| <= 64 && SixteenBits(vals)
    ensures ParseDqt(DqtBytes(index, vals) + rest) == Ok(rest, [QuantDef(index, vals)])
  {
    hide Get2Bytes, GetByte, GetValues, ValueBytes, TwoBytes;
    var wide := IsWide(vals);
    var length := if wide then 2 * |vals| + 3 else |vals| + 3;
    var n, body := index + (if wide then 16 else 0), ValueBytes(vals, wide);
    assert DqtBytes(index, vals) + rest == TwoBytes(length) + ([n] + (body + rest));
    TwoBytesRead(length, [n] + (body + rest));
    ByteReads(n, body + rest);
    ValuesRead(vals, wide, rest);
    assert ValueCount(length - 3, wide) == |vals|;
    assert DqtTables(rest, 0) == Ok(rest, []);
    assert [QuantDef(index, vals)] + [] == [QuantDef(index, vals)];
  }

  /** A table read back: every value that was sent is in its place, and all of the others are one. */
  lemma TableRestored(os: Orders, q: QuantTable, blockSize: nat)
    requires os.Valid() && blockSize >= 1
    ensures var o, n, r := os.OfBlockSize(blockSize), Coefficients(blockSize), Defined(os, Zigzag(os, q, blockSize));
            && n <= |o|
            && (forall i :: 0 <= i < n ==> r[o[i]] == q[o[i]])
            && (forall p :: 0 <= p < 64 && p !in o[..n] ==> r[p] == 1)
            && (n == 64 ==> r == q)
  {
    hide Filled;
    OrdersAgree(os, blockSize);
    var o, n, vals := os.OfBlockSize(blockSize), Coefficients(blockSize), Zigzag(os, q, blockSize);
    var r := Defined(os, vals);
    assert r == Filled(o, vals, n, Ones());
    forall i: nat | i < n ensures r[o[i]] == q[o[i]] {
      FilledAt(o, vals, n, Ones(), i);
    }
    forall p: nat | p < 64 && p !in o[..n] ensures r[p] == 1 {
      FilledElsewhere(o, vals, n, Ones(), p);
    }
    if n == 64 {
      forall p: nat | p < 64 ensures r[p] == q[p] {
        assert p in os.full;
      }
    }
  }
}
