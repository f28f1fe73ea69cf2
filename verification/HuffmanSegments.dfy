/** Huffman-coded segments between restart markers: bits packed into bytes and padded with ones, stuffed, and split
    again by the reader. */
module HuffmanSegments {
  import opened Wrappers
  import opened EstimationTable
  import opened Arithmetic
  import opened Bytes
  import opened Markers
  import opened HuffmanCode
  import opened BitWriting
  import opened BitReading
  import opened Seqs

  /** Whole bytes of bits, highest bit first. */
  function Pack(p: seq<bool>): (data: seq<byte>)
    requires |p| % 8 == 0
    ensures 8 * |data| == |p|
    decreases |p|
  {
    if p == [] then []
    else
      var v := ValueOf(p[..8]);
      assert v < 256 by { EightBitValue(p[..8]); }
      [v] + Pack(p[8..])
  }

  lemma EightBitValue(s: seq<bool>)
    requires |s| == 8
    ensures ValueOf(s) < 256
  {
    Pow2Of24();
  }

  lemma {:induction false} PackedBits(p: seq<bool>)
    requires |p| % 8 == 0
    ensures BitsOfBytes(Pack(p)) == p
    decreases |p|
  {
    hide ValueOf, BitsOf, BitsOfBytes;
    if p == [] {
      NoBytes();
    } else {
      PackedBits(p[8..]);
      BitsOfCons(Pack(p));
      BitsOfValue(p[..8]);
      assert Pack(p)[1..] == Pack(p[8..]) && p == p[..8] + p[8..];
    }
  }

  lemma NoBytes()
    ensures BitsOfBytes([]) == []
  {
  }

  /** Bytes are determined by their bits. */
  lemma {:induction false} SameBytes(a: seq<byte>, b: seq<byte>)
    requires BitsOfBytes(a) == BitsOfBytes(b)
    ensures a == b
    decreases |a|
  {
    if a != [] {
      var x, y := a[0], b[0];
      BitsOfCons(a);
      BitsOfCons(b);
      hide BitsOfBytes, BitsOf, ValueOf;
      assert BitsOf(x, 8) == BitsOfBytes(a)[..8] == BitsOf(y, 8);
      assert BitsOfBytes(a[1..]) == BitsOfBytes(a)[8..] == BitsOfBytes(b[1..]);
      Pow2Of24();
      ValueOfBits(x, 8);
      ValueOfBits(y, 8);
      SameBytes(a[1..], b[1..]);
    }
  }

  /** The bytes of a segment. */
  function SegmentBytes(bits: seq<bool>): seq<byte> { Stuff(Pack(Padded(bits))) }

  /** Whatever bytes hold the padded bits are these. */
  lemma BytesOfSegment(data: seq<byte>, bits: seq<bool>)
    requires BitsOfBytes(data) == Padded(bits)
    ensures Stuff(data) == SegmentBytes(bits)
  {
    PackedBits(Padded(bits));
    SameBytes(data, Pack(Padded(bits)));
  }

  lemma SegmentIsAhead(bits: seq<bool>, tail: seq<byte>)
    requires IsMarkerTail(tail)
    ensures AheadBits(SegmentBytes(bits) + tail) == Padded(bits) && Ends(SegmentBytes(bits) + tail)
    ensures var m := SkipFill(tail[1..]); NextMarker(SegmentBytes(bits) + tail) == Some((m[0], m[1..]))
  {
    var data := Pack(Padded(bits));
    PackedBits(Padded(bits));
    StuffedBitsAhead(data, tail);
    NextMarkerSkipsData(data, tail);
  }

  /** Segments with restart markers numbered modulo eight between them. */
  function ScanBytes(segments: seq<seq<bool>>, restart: nat): seq<byte>
    requires segments != [] && restart < 8
    decreases |segments|
  {
    if |segments| == 1 then SegmentBytes(segments[0])
    else SegmentBytes(segments[0]) + ([0xFF, RST0 + restart] + ScanBytes(segments[1..], (restart + 1) % 8))
  }

  /** The same as far as it goes: a restart marker behind every segment. */
  function ClosedBytes(segments: seq<seq<bool>>, restart: nat): seq<byte>
    requires restart < 8
    decreases |segments|
  {
    if segments == [] then []
    else SegmentBytes(segments[0]) + ([0xFF, RST0 + restart] + ClosedBytes(segments[1..], (restart + 1) % 8))
  }

  /** The number of the next restart marker. */
  function NextRestart(restart: nat, n: nat): (r: nat)
    requires restart < 8
    ensures r < 8
  {
    if n == 0 then restart else (NextRestart(restart, n - 1) + 1) % 8
  }

  lemma {:induction false} NextRestartLater(restart: nat, n: nat)
    requires restart < 8
    ensures NextRestart((restart + 1) % 8, n) == NextRestart(restart, n + 1)
    decreases n
  {
    if n > 0 { NextRestartLater(restart, n - 1); }
  }

  /** One segment more, with its marker. */
  lemma {:induction false} OneMoreClosed(segments: seq<seq<bool>>, bits: seq<bool>, restart: nat)
    requires restart < 8
    ensures ClosedBytes(segments + [bits], restart)
         == ClosedBytes(segments, restart) + (SegmentBytes(bits) + [0xFF, RST0 + NextRestart(restart, |segments|)])
    decreases |segments|
  {
    hide SegmentBytes;
    if segments == [] {
      assert [bits][1..] == [];
      assert [0xFF, RST0 + restart] + [] == [0xFF, RST0 + restart];
    } else {
      assert (segments + [bits])[1..] == segments[1..] + [bits];
      OneMoreClosed(segments[1..], bits, (restart + 1) % 8);
      NextRestartLater(restart, |segments| - 1);
      var head, mark := SegmentBytes(segments[0]), [0xFF, RST0 + restart];
      var rest, last := ClosedBytes(segments[1..], (restart + 1) % 8), SegmentBytes(bits) + [0xFF, RST0 + NextRestart(restart, |segments|)];
      Assoc4(head, mark, rest, last);
    }
  }

  /** The last segment, without a marker. */
  lemma {:induction false} LastSegment(segments: seq<seq<bool>>, bits: seq<bool>, restart: nat)
    requires restart < 8
    ensures ScanBytes(segments + [bits], restart) == ClosedBytes(segments, restart) + SegmentBytes(bits)
    decreases |segments|
  {
    hide SegmentBytes;
    if segments == [] {
      assert [bits][0] == bits;
    } else {
      assert (segments + [bits])[1..] == segments[1..] + [bits];
      LastSegment(segments[1..], bits, (restart + 1) % 8);
      Assoc4(SegmentBytes(segments[0]), [0xFF, RST0 + restart], ClosedBytes(segments[1..], (restart + 1) % 8), SegmentBytes(bits));
    }
  }

  /** What the reader gets to see: the bits up to the next marker, then after it, `n` times. None when a restart
      marker is not there. */
  function Split(input: seq<byte>, n: nat, restart: nat): (x: Option<seq<seq<bool>>>)
    requires n >= 1
    ensures x.Some? ==> |x.value| == n
    decreases n
  {
    if n == 1 then Some([AheadBits(input)])
    else
      match NextMarker(input)
      case None => None
      case Some(m) =>
        if m.0 != RST0 + restart then None
        else
          match Split(m.1, n - 1, (restart + 1) % 8)
          case None => None
          case Some(more) => Some([AheadBits(input)] + more)
  }

  function AllPadded(segments: seq<seq<bool>>): (r: seq<seq<bool>>)
    ensures |r| == |segments|
  {
    seq(|segments|, i requires 0 <= i < |segments| => Padded(segments[i]))
  }

  /** The reader sees every segment, filled up with ones. */
  lemma {:induction false} SegmentsAreSplit(segments: seq<seq<bool>>, restart: nat, tail: seq<byte>)
    requires segments != [] && restart < 8 && IsMarkerTail(tail)
    ensures Split(ScanBytes(segments, restart) + tail, |segments|, restart) == Some(AllPadded(segments))
    decreases |segments|
  {
    hide SegmentBytes, AheadBits, NextMarker, Padded, Ends;
    if |segments| == 1 {
      SegmentIsAhead(segments[0], tail);
      assert AllPadded(segments) == [Padded(segments[0])];
    } else {
      var next := ScanBytes(segments[1..], (restart + 1) % 8);
      var mark := Marked(restart, next + tail);
      Assoc4(SegmentBytes(segments[0]), [0xFF, RST0 + restart], next, tail);
      RestartFollows(segments[0], restart, next + tail);
      SegmentsAreSplit(segments[1..], (restart + 1) % 8, tail);
      assert AllPadded(segments) == [Padded(segments[0])] + AllPadded(segments[1..]);
    }
  }

  lemma RestartFollows(bits: seq<bool>, restart: nat, rest: seq<byte>)
    requires restart < 8
    ensures var s := SegmentBytes(bits) + ([0xFF, RST0 + restart] + rest);
            AheadBits(s) == Padded(bits) && NextMarker(s) == Some((RST0 + restart, rest))
  {
    hide SegmentBytes, AheadBits, NextMarker, Padded, Ends;
    var mark := Marked(restart, rest);
    SegmentIsAhead(bits, mark);
    assert mark[1..] == [RST0 + restart] + rest;
    assert SkipFill(mark[1..]) == mark[1..];
    assert ([RST0 + restart] + rest)[1..] == rest;
  }
}
