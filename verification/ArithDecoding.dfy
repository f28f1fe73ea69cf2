/** The adaptive binary arithmetic decoder as a state transformer on values (jdarith.c), and the proof that it
    returns what the encoder was given. */
module ArithDecoding {
  import opened EstimationTable
  import opened Bytes
  import opened Wrappers
  import opened Markers
  import opened ArithCoding

  /** Decoder registers. `ct` counts the bits of `c` that lie below the interval; `input` is what the
      source still holds; `marker` is the marker that ended the segment, 0 while there is none. */
  datatype Dec = Dec(c: int, a: int, ct: int, input: seq<byte>, marker: byte)

  function StartDec(input: seq<byte>): Dec { Dec(0, 0, -16, input, 0) }

  // ---------------------------------------------------------------- data bytes

  datatype Fetched = Fetched(data: byte, input: seq<byte>, marker: byte)

  /** The next data byte: a stuffed zero is dropped, a marker is remembered, and zero bytes are supplied
      from then on. None when the source runs dry, which this decoder treats as an error. */
  function Fetch(input: seq<byte>, marker: byte): Option<Fetched> {
    if marker != 0 then Some(Fetched(0, input, marker))
    else if input == [] then None
    else if input[0] != 0xFF then Some(Fetched(input[0], input[1..], 0))
    else
      var rest := SkipFill(input[1..]);
      if rest == [] then None
      else if rest[0] == 0 then Some(Fetched(0xFF, rest[1..], 0))
      else Some(Fetched(0, rest[1..], rest[0]))
  }

  // ---------------------------------------------------------------- decoding

  /** The registers stay in these bounds on any input, corrupt or not. */
  predicate DecShape(d: Dec) {
    || (d.a == 0 && d.ct == -16 && d.c == 0)
    || (d.a == 0 && d.ct == -8 && 0 <= d.c < 0x100)
    || (0 < d.a <= 0x10000 && 0 <= d.ct <= 7 && 0 <= d.c < Up(d.a, d.ct))
  }

  /** One turn of the renormalisation loop. */
  function DecShift(d: Dec): (r: Option<Dec>)
    requires DecShape(d) && d.a < 0x8000
    ensures r.Some? ==> DecShape(r.value)
    ensures r.Some? && d.a > 0 ==> r.value.a == 2 * d.a
    ensures r.Some? && d.a == 0 ==> if d.ct == -16 then r.value.ct == -8 && r.value.a == 0 else r.value.a == 0x10000
  {
    if d.ct - 1 < 0 then
      match Fetch(d.input, d.marker)
      case None => None
      case Some(f) =>
        ShiftInByte(d, f.data);
        var ct := d.ct - 1 + 8;
        var d1 := d.(c := d.c * 0x100 + f.data, input := f.input, marker := f.marker);
        if ct < 0 then
          var a := if ct + 1 == 0 then 0x8000 else d.a;
          Some(d1.(ct := ct + 1, a := 2 * a))
        else Some(d1.(ct := ct, a := 2 * d.a))
    else Some(d.(ct := d.ct - 1, a := 2 * d.a))
  }

  lemma ShiftInByte(d: Dec, data: byte)
    requires DecShape(d) && d.ct <= 0
    ensures d.ct == 0 ==> 0 <= d.c * 0x100 + data < Up(2 * d.a, 7)
    ensures d.ct < 0 ==> 0 <= d.c * 0x100 + data < Up(0x10000, 0)
  {
    assert Up(2 * d.a, 7) == Up(16 * d.a, 4);
  }

  function DecRenorm(d: Dec): (r: Option<Dec>)
    requires DecShape(d)
    ensures r.Some? ==> DecShape(r.value) && 0x8000 <= r.value.a
    decreases if d.a == 0 then 1 else 0, if d.a == 0 then -d.ct else 0x8000 - d.a
  {
    if d.a >= 0x8000 then Some(d)
    else
      match DecShift(d)
      case None => None
      case Some(d1) => DecRenorm(d1)
  }

  datatype Decoded = Decoded(d: Dec, stat: Stat, bit: bool)

  /** The decision itself, once the registers are normalised. */
  function Decide(d: Dec, sv: Stat): (r: Decoded)
    requires DecShape(d) && 0x8000 <= d.a
    ensures DecShape(r.d)
  {
    var r := Lookup(sv);
    var a1 := d.a - r.qe;
    var temp := Up(a1, d.ct);
    assert Up(d.a, d.ct) == temp + Up(r.qe, d.ct) by { UpIsAdditive(a1, r.qe, d.ct); }
    if d.c >= temp then
      var d1 := d.(c := d.c - temp, a := r.qe);
      if a1 < r.qe then Decoded(d1, Successor(sv, r.afterMps), Mps(sv))
      else Decoded(d1, Successor(sv, r.afterLps), !Mps(sv))
    else
      var d1 := d.(a := a1);
      if a1 < 0x8000 then
        if a1 < r.qe then Decoded(d1, Successor(sv, r.afterLps), !Mps(sv))
        else Decoded(d1, Successor(sv, r.afterMps), Mps(sv))
      else Decoded(d1, sv, Mps(sv))
  }

  lemma {:induction false} UpIsAdditive(x: int, y: int, k: nat)
    ensures Up(x + y, k) == Up(x, k) + Up(y, k)
    decreases k
  {
    if k > 0 { UpIsAdditive(2 * x, 2 * y, k - 1); }
  }

  function Decode(d: Dec, sv: Stat): (r: Option<Decoded>)
    requires DecShape(d)
    ensures r.Some? ==> DecShape(r.value.d)
  {
    match DecRenorm(d)
    case None => None
    case Some(d1) => Some(Decide(d1, sv))
  }

  // ---------------------------------------------------------------- staying in step with the encoder

  /** The source holds exactly the data bytes `data`, then the marker; or the marker has been met. */
  predicate Feeds(d: Dec, data: seq<byte>, tail: seq<byte>)
    requires IsMarkerTail(tail)
  {
    if d.marker == 0 then d.input == Stuff(data) + tail
    else data == [] && [d.marker] + d.input == SkipFill(tail[1..])
  }

  lemma FractionNext(data: seq<byte>)
    ensures Fraction(data, 0.0)
         == ((if data == [] then 0 else data[0]) as real + Fraction(if data == [] then [] else data[1..], 0.0)) / 256.0
  {
  }

  lemma FetchTakesNextByte(d: Dec, data: seq<byte>, tail: seq<byte>)
    requires IsMarkerTail(tail) && Feeds(d, data, tail)
    ensures var f := Fetch(d.input, d.marker);
            && f.Some?
            && f.value.data == (if data == [] then 0 else data[0])
            && Feeds(d.(input := f.value.input, marker := f.value.marker), if data == [] then [] else data[1..], tail)
    ensures Fraction(data, 0.0)
            == (Fetch(d.input, d.marker).value.data as real
                + Fraction(if data == [] then [] else data[1..], 0.0)) / 256.0
  {
    FractionNext(data);
    hide Fraction;
    if d.marker == 0 && data != [] {
      FetchData(data, tail);
    } else if d.marker == 0 {
      assert d.input == tail;
    }
  }

  lemma FetchData(data: seq<byte>, tail: seq<byte>)
    requires data != []
    ensures Fetch(Stuff(data) + tail, 0) == Some(Fetched(data[0], Stuff(data[1..]) + tail, 0))
  {
    hide Stuff, StuffByte, Fetch;
    StuffNext(data, tail);
    FetchByte(data[0], Stuff(data[1..]) + tail);
  }

  lemma FetchByte(b: byte, rest: seq<byte>)
    ensures Fetch(StuffByte(b) + rest, 0) == Some(Fetched(b, rest, 0))
  {
    var input := StuffByte(b) + rest;
    if b == 0xFF {
      assert input[1..] == [0] + rest;
      assert SkipFill(input[1..]) == input[1..];
      assert input[1..][1..] == rest;
    } else {
      assert input[1..] == rest;
    }
  }

  lemma StuffNext(data: seq<byte>, tail: seq<byte>)
    requires data != []
    ensures Stuff(data) + tail == StuffByte(data[0]) + (Stuff(data[1..]) + tail)
  {
  }

  /** `z` shifted left by `k` binary places, for a real `z`. */
  function UpR(z: real, k: nat): real
    decreases k
  {
    if k == 0 then z else UpR(2.0 * z, k - 1)
  }

  /** The decoder's register and its unread bytes together are the position `y` of the interval. */
  ghost predicate InStep(d: Dec, data: seq<byte>, tail: seq<byte>, y: real) {
    && DecShape(d) && IsMarkerTail(tail) && Feeds(d, data, tail)
    && (if d.a > 0 then d.c as real + Fraction(data, 0.0) == UpR(Unscaled(d.a, y), d.ct)
        else d.ct == -16 && y == 65536.0 * Fraction(data, 0.0))
  }

  lemma {:induction false} UpRFacts(x: real, y: real, z: int, k: nat)
    ensures UpR(x + y, k) == UpR(x, k) + UpR(y, k)
    ensures UpR(z as real, k) == Up(z, k) as real
    ensures x < y ==> UpR(x, k) < UpR(y, k)
    decreases k
  {
    if k > 0 {
      UpRFacts(2.0 * x, 2.0 * y, 2 * z, k - 1);
      assert 2.0 * (x + y) == 2.0 * x + 2.0 * y;
      assert 2.0 * (z as real) == (2 * z) as real;
    }
  }

  lemma UpR7(z: real)
    ensures UpR(z, 7) == 128.0 * z
  {
    calc {
      UpR(z, 7);
      UpR(4.0 * z, 5);
      UpR(16.0 * z, 3);
      UpR(64.0 * z, 1);
      128.0 * z;
    }
  }

  lemma DecShiftStaysInStep(d: Dec, data: seq<byte>, tail: seq<byte>, y: real) returns (rest: seq<byte>)
    requires InStep(d, data, tail, y) && 0 < d.a < 0x8000
    ensures DecShift(d).Some? && InStep(DecShift(d).value, rest, tail, y)
  {
    if d.ct == 0 {
      FetchTakesNextByte(d, data, tail);
      rest := if data == [] then [] else data[1..];
      UpR7(Unscaled(2 * d.a, y));
    } else {
      rest := data;
    }
  }

  lemma {:induction false} DecRenormStaysInStep(d: Dec, data: seq<byte>, tail: seq<byte>, y: real)
    returns (rest: seq<byte>)
    requires InStep(d, data, tail, y) && 0 < d.a
    ensures var r := DecRenorm(d);
            r.Some? && InStep(r.value, rest, tail, y) && r.value.a == Size(d.a)
    decreases 0x8000 - d.a
  {
    hide Fetch;
    if d.a >= 0x8000 {
      rest := data;
    } else {
      var data1 := DecShiftStaysInStep(d, data, tail, y);
      rest := DecRenormStaysInStep(DecShift(d).value, data1, tail, y);
    }
  }

  /** The first call reads two bytes; the interval is then the whole unit interval. */
  lemma StartStaysInStep(d: Dec, data: seq<byte>, tail: seq<byte>, y: real) returns (rest: seq<byte>)
    requires InStep(d, data, tail, y) && d.a == 0
    ensures var r := DecRenorm(d);
            r.Some? && InStep(r.value, rest, tail, y) && r.value.a == 0x10000
  {
    FetchTakesNextByte(d, data, tail);
    var data1 := if data == [] then [] else data[1..];
    var d1 := DecShift(d).value;
    FetchTakesNextByte(d1, data1, tail);
    rest := if data1 == [] then [] else data1[1..];
    var d2 := DecShift(d1).value;
    assert DecRenorm(d) == DecRenorm(d1) == DecRenorm(d2) == Some(d2);
  }

  /** The comparison in the register decides on which side of the cut the position lies. */
  lemma ComparisonIsExact(d: Dec, data: seq<byte>, y: real, cut: int)
    requires DecShape(d) && 0 < d.a
    requires d.c as real + Fraction(data, 0.0) == UpR(y, d.ct)
    ensures d.c >= Up(cut, d.ct) <==> y >= cut as real
  {
    FractionBounds(data, 0.0);
    UpRFacts(y, cut as real, cut, d.ct);
    if y > cut as real { UpRFacts(cut as real, y, cut, d.ct); }
  }

  /** If the comparison falls on the side that `bit` was coded with, the decoder makes the same choice. */
  lemma DecideFollowsComparison(d: Dec, sv: Stat, bit: bool)
    requires DecShape(d) && 0x8000 <= d.a
    requires var cut := d.a - Lookup(sv).qe;
             d.c >= Up(cut, d.ct) <==> Choose(d.a, sv, bit).offset == cut
    ensures var r, ch := Decide(d, sv), Choose(d.a, sv, bit);
            && r.bit == bit && r.stat == ch.stat
            && r.d == d.(c := d.c - Up(ch.offset, d.ct), a := ch.size)
  {
    hide Lookup, Successor, Up;
    UpOfZero(d.ct);
  }

  /** The position lies on the side of the cut that `bit` was coded with. */
  lemma PositionPicksSide(d: Dec, sv: Stat, bit: bool, data: seq<byte>, u: real)
    requires DecShape(d) && 0x8000 <= d.a
    requires var ch := Choose(d.a, sv, bit);
             && 0.0 <= u < ch.size as real
             && d.c as real + Fraction(data, 0.0) == UpR(ch.offset as real + u, d.ct)
    ensures var cut := d.a - Lookup(sv).qe;
            d.c >= Up(cut, d.ct) <==> Choose(d.a, sv, bit).offset == cut
  {
    hide Lookup, Choose, UpR, Up, Fraction;
    ChoiceSides(d.a, sv, bit);
    var ch, cut := Choose(d.a, sv, bit), d.a - Lookup(sv).qe;
    ComparisonIsExact(d, data, ch.offset as real + u, cut);
    hide *;
    if ch.offset == cut {
      assert ch.offset as real + u >= cut as real;
    } else {
      assert ch.offset as real + u < cut as real;
    }
  }

  lemma RegisterAfterChoice(c: int, t: real, ct: nat, offset: int, u: real)
    requires c as real + t == UpR(offset as real + u, ct)
    ensures (c - Up(offset, ct)) as real + t == UpR(u, ct)
  {
    UpRFacts(offset as real, u, offset, ct);
  }

  lemma DecideIsRight(d: Dec, sv: Stat, bit: bool, data: seq<byte>, tail: seq<byte>, y: real)
    requires DecShape(d) && 0x8000 <= d.a
    requires 0.0 <= y < EncodedSize(d.a, sv, bit) as real
    requires InStep(d, data, tail, Before(d.a, sv, bit, y))
    ensures var r, ch := Decide(d, sv), Choose(d.a, sv, bit);
            r.bit == bit && r.stat == ch.stat && r.d.a == ch.size && InStep(r.d, data, tail, y)
  {
    hide *;
    ShapeBounds(d);
    var ch := Choose(d.a, sv, bit);
    ChoiceBounds(d.a, sv, bit);
    PointOfChoice(d.a, sv, bit, y);
    InStepMeans(d, data, tail, Before(d.a, sv, bit, y));
    var u := Unscaled(ch.size, y);
    PointIsThere(d.a, ch.offset as real + u);
    PositionPicksSide(d, sv, bit, data, u);
    DecideFollowsComparison(d, sv, bit);
    RegisterAfterChoice(d.c, Fraction(data, 0.0), d.ct, ch.offset, u);
    FeedsDependsOnInput(d, Decide(d, sv).d, data, tail);
    InStepAgain(Decide(d, sv).d, data, tail, y);
  }

  /** Position `y` of the chosen part, seen from the old interval. */
  lemma PointOfChoice(a: int, sv: Stat, bit: bool, y: real)
    requires 0x8000 <= a <= 0x10000 && 0.0 <= y < EncodedSize(a, sv, bit) as real
    ensures var ch := Choose(a, sv, bit);
            && 0 < ch.size && 0.0 <= Unscaled(ch.size, y) < ch.size as real
            && Before(a, sv, bit, y) == ch.offset as real + Unscaled(ch.size, y)
  {
    hide Choose, Unscaled, Size;
    ChoiceBounds(a, sv, bit);
    var ch := Choose(a, sv, bit);
    UnscaledStaysInside(ch.size, Size(ch.size), y);
  }

  /** Nothing is scaled while the size is in range. */
  lemma PointIsThere(a: int, x: real)
    requires 0x8000 <= a
    ensures Unscaled(a, x) == x
  {
  }

  lemma ShapeBounds(d: Dec)
    requires DecShape(d) && 0 < d.a
    ensures d.a <= 0x10000 && 0 <= d.ct
  {
  }

  lemma InStepMeans(d: Dec, data: seq<byte>, tail: seq<byte>, y: real)
    requires InStep(d, data, tail, y) && 0 < d.a
    ensures DecShape(d) && d.a <= 0x10000 && IsMarkerTail(tail) && Feeds(d, data, tail)
    ensures 0x8000 <= d.a ==> 0 <= d.ct
    ensures 0 <= d.ct ==> d.c as real + Fraction(data, 0.0) == UpR(Unscaled(d.a, y), d.ct)
  {
    hide Feeds, IsMarkerTail, Fraction, UpR, Unscaled;
  }

  lemma InStepAgain(d: Dec, data: seq<byte>, tail: seq<byte>, y: real)
    requires DecShape(d) && 0 < d.a <= 0x10000 && 0 <= d.ct && IsMarkerTail(tail) && Feeds(d, data, tail)
    requires d.c as real + Fraction(data, 0.0) == UpR(Unscaled(d.a, y), d.ct)
    ensures InStep(d, data, tail, y)
  {
    hide Feeds, IsMarkerTail, Fraction, UpR, Unscaled, DecShape;
  }

  lemma FeedsDependsOnInput(d: Dec, d': Dec, data: seq<byte>, tail: seq<byte>)
    requires IsMarkerTail(tail) && Feeds(d, data, tail) && d.input == d'.input && d.marker == d'.marker
    ensures Feeds(d', data, tail)
  {
  }

  lemma ChoiceSides(a: int, sv: Stat, bit: bool)
    requires 0x8000 <= a <= 0x10000
    ensures var ch, cut := Choose(a, sv, bit), a - Lookup(sv).qe;
            if ch.offset == cut then 0 < cut else ch.offset == 0 && ch.size == cut
  {
    hide Lookup;
  }

  function EncodedSize(a: int, sv: Stat, bit: bool): int
    requires 0x8000 <= a <= 0x10000
  {
    ChoiceBounds(a, sv, bit);
    Size(Choose(a, sv, bit).size)
  }

  // ---------------------------------------------------------------- whole segments

  datatype DecRun = DecRun(d: Dec, bins: seq<Stat>)

  /** Decode one decision and update its statistics bin. */
  function DecodeStep(r: DecRun, bin: nat): (x: Option<(DecRun, bool)>)
    requires DecShape(r.d) && bin < |r.bins|
    ensures x.Some? ==> DecShape(x.value.0.d) && |x.value.0.bins| == |r.bins|
  {
    match Decode(r.d, r.bins[bin])
    case None => None
    case Some(x) => Some((DecRun(x.d, r.bins[bin := x.stat]), x.bit))
  }

  function DecodeRun(r: DecRun, asked: seq<nat>): (x: Option<(DecRun, seq<bool>)>)
    requires DecShape(r.d) && forall i :: 0 <= i < |asked| ==> asked[i] < |r.bins|
    decreases |asked|
  {
    if asked == [] then Some((r, []))
    else
      match DecodeStep(r, asked[0])
      case None => None
      case Some(x) =>
        match DecodeRun(x.0, asked[1..])
        case None => None
        case Some(rest) => Some((rest.0, [x.1] + rest.1))
  }

  /** The decoder is where the encoder was before it coded `ds`: same statistics, same interval size, and a
      register that together with the unread input is the point the encoder finally chose. */
  ghost predicate Synced(r: DecRun, e: EncRun, ds: seq<Decision>, tail: seq<byte>) {
    && Ready(e.e) && InRange(ds, |e.bins|) && r.bins == e.bins
    && (if r.d.a > 0 then Size(r.d.a) == e.e.a else r.d.a == 0 && e.e.a == 0x10000)
    && exists data :: InStep(r.d, data, tail, Target(e, ds))
  }

  /** While the two are in step, the decoder returns the next decision and stays in step. */
  lemma DecodeStepIsRight(r: DecRun, e: EncRun, ds: seq<Decision>, tail: seq<byte>)
    requires Synced(r, e, ds, tail) && ds != []
    ensures DecShape(r.d) && ds[0].bin < |r.bins|
    ensures var x := DecodeStep(r, ds[0].bin);
            x.Some? && x.value.1 == ds[0].bit && Synced(x.value.0, EncodeStep(e, ds[0]), ds[1..], tail)
  {
    hide Decide, Choose, Encode, DecShift;
    var sv, bit := e.bins[ds[0].bin], ds[0].bit;
    var e' := EncodeStep(e, ds[0]);
    var data :| InStep(r.d, data, tail, Target(e, ds));
    ghost var rest: seq<byte>;
    if r.d.a > 0 {
      rest := DecRenormStaysInStep(r.d, data, tail, Target(e, ds));
    } else {
      rest := StartStaysInStep(r.d, data, tail, Target(e, ds));
    }
    var d1 := DecRenorm(r.d).value;
    TargetIsInside(e', ds[1..]);
    EncodeSize(e.e, sv, bit);
    DecideIsRight(d1, sv, bit, rest, tail, Target(e', ds[1..]));
  }

  lemma StartIsSynced(ds: seq<Decision>, bins: seq<Stat>, tail: seq<byte>)
    requires InRange(ds, |bins|) && IsMarkerTail(tail)
    ensures Ready(START_ENC)
    ensures var data := Finish(EncodeRun(EncRun(START_ENC, bins), ds).e);
            Synced(DecRun(StartDec(Stuff(data) + tail), bins), EncRun(START_ENC, bins), ds, tail)
  {
    StartIsReady();
    var e := EncRun(START_ENC, bins);
    RunHitsTarget(e, ds);
    var data := Finish(EncodeRun(e, ds).e);
    var y := Target(e, ds);
    assert Digits(START_ENC) == [];
    assert Value(START_ENC, y) == Down(y, 16);
    Down16(y);
    assert InStep(StartDec(Stuff(data) + tail), data, tail, y);
  }

  lemma Down16(z: real)
    ensures Down(z, 16) == z / 65536.0
  {
    calc {
      Down(z, 16);
      Down(z / 4.0, 14);
      Down(z / 16.0, 12);
      Down(z / 64.0, 10);
      Down(z / 256.0, 8);
      Down(z / 1024.0, 6);
      Down(z / 4096.0, 4);
      Down(z / 16384.0, 2);
      z / 65536.0;
    }
  }

  function Bins(ds: seq<Decision>): seq<nat> { seq(|ds|, i requires 0 <= i < |ds| => ds[i].bin) }

  function Bits(ds: seq<Decision>): seq<bool> { seq(|ds|, i requires 0 <= i < |ds| => ds[i].bit) }

  lemma {:induction false} SyncedRunDecodes(r: DecRun, e: EncRun, ds: seq<Decision>, tail: seq<byte>)
    requires Synced(r, e, ds, tail)
    ensures DecShape(r.d) && forall i :: 0 <= i < |Bins(ds)| ==> Bins(ds)[i] < |r.bins|
    ensures var x := DecodeRun(r, Bins(ds));
            x.Some? && x.value.1 == Bits(ds) && x.value.0.bins == EncodeRun(e, ds).bins
    decreases |ds|
  {
    hide DecodeStep, EncodeStep, Target;
    if ds != [] {
      DecodeStepIsRight(r, e, ds, tail);
      assert Bins(ds)[1..] == Bins(ds[1..]);
      assert Bits(ds) == [ds[0].bit] + Bits(ds[1..]);
      SyncedRunDecodes(DecodeStep(r, ds[0].bin).value.0, EncodeStep(e, ds[0]), ds[1..], tail);
    }
  }

  /** Arithmetic coding is lossless over whole segments: any decisions on any bins, coded from the start
      state, finished, stuffed and followed by any marker, are decoded to the same decisions, and every
      statistics bin ends in the same state on both sides. */
  lemma ArithmeticCodingIsLossless(ds: seq<Decision>, bins: seq<Stat>, tail: seq<byte>)
    requires InRange(ds, |bins|) && IsMarkerTail(tail)
    ensures Ready(START_ENC)
    ensures forall i :: 0 <= i < |Bins(ds)| ==> Bins(ds)[i] < |bins|
    ensures var coded := EncodeRun(EncRun(START_ENC, bins), ds);
            var x := DecodeRun(DecRun(StartDec(Stuff(Finish(coded.e)) + tail), bins), Bins(ds));
            x.Some? && x.value.1 == Bits(ds) && x.value.0.bins == coded.bins
  {
    StartIsReady();
    StartIsSynced(ds, bins, tail);
    var coded := EncodeRun(EncRun(START_ENC, bins), ds);
    SyncedRunDecodes(DecRun(StartDec(Stuff(Finish(coded.e)) + tail), bins), EncRun(START_ENC, bins), ds, tail);
  }
}
