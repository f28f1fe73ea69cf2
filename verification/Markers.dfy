/** Markers in the byte stream (jdmarker.c): how the next one is found, whatever stands before it. */
module Markers {
  import opened Wrappers
  import opened EstimationTable
  import opened Bytes

  const RST0 := 0xD0

  /** Without the fill bytes in front. */
  function SkipFill(s: seq<byte>): seq<byte> {
    if s != [] && s[0] == 0xFF then SkipFill(s[1..]) else s
  }

  lemma {:induction false} SkipFillIsShorter(s: seq<byte>)
    ensures |SkipFill(s)| <= |s|
    decreases |s|
  {
    if s != [] && s[0] == 0xFF { SkipFillIsShorter(s[1..]); }
  }

  lemma {:induction false} SkipFillAppended(s: seq<byte>, extra: seq<byte>)
    requires SkipFill(s) != []
    ensures SkipFill(s + extra) == SkipFill(s) + extra
    decreases |s|
  {
    if s != [] && s[0] == 0xFF {
      assert (s + extra)[1..] == s[1..] + extra;
      SkipFillAppended(s[1..], extra);
    }
  }

  /** Bytes that end a segment: 0xFF, any number of fill bytes, and a marker code. */
  predicate IsMarkerTail(tail: seq<byte>) {
    && tail != [] && tail[0] == 0xFF
    && SkipFill(tail[1..]) != [] && SkipFill(tail[1..])[0] != 0
  }

  /** Read forward to the next marker: its code, and what follows it. */
  function NextMarker(s: seq<byte>): (m: Option<(byte, seq<byte>)>)
    decreases |s|
  {
    if s == [] then None
    else if s[0] != 0xFF then NextMarker(s[1..])
    else
      var rest := SkipFill(s[1..]);
      assert |rest| <= |s| - 1 by { SkipFillIsShorter(s[1..]); }
      if rest == [] then None
      else if rest[0] != 0 then Some((rest[0], rest[1..]))
      else NextMarker(rest[1..])
  }

  /** Whatever data bytes the decoder has not asked for are skipped, stuffed zeros included. */
  lemma {:induction false} NextMarkerSkipsData(data: seq<byte>, tail: seq<byte>)
    requires IsMarkerTail(tail)
    ensures var m := SkipFill(tail[1..]); NextMarker(Stuff(data) + tail) == Some((m[0], m[1..]))
    decreases |data|
  {
    var s := Stuff(data) + tail;
    if data == [] {
      assert s == tail;
    } else {
      var rest := Stuff(data[1..]) + tail;
      assert s == StuffByte(data[0]) + rest;
      NextMarkerSkipsData(data[1..], tail);
      if data[0] == 0xFF {
        assert s[1..] == [0] + rest && s[1..][1..] == rest;
      } else {
        assert s[1..] == rest;
      }
    }
  }

  /** A restart marker and what follows it. */
  function Marked(restart: nat, rest: seq<byte>): (s: seq<byte>)
    requires restart < 8
    ensures IsMarkerTail(s) && s == [0xFF, RST0 + restart] + rest
  {
    var s := [0xFF, RST0 + restart] + rest;
    assert s[1..] == [RST0 + restart] + rest;
    s
  }

  // ---------------------------------------------------------------- looking for a marker

  /** next_marker: skip anything in front of the next marker. When input runs out, the bytes that are known to be in front
      of it have been discarded, and the search can go on from there. */
  method FindNextMarker(input: seq<byte>) returns (ok: bool, code: byte, rest: seq<byte>)
    ensures ok ==> NextMarker(input) == Some((code, rest)) && code != 0
    ensures !ok ==> code == 0 && NextMarker(input) == None && SameMarker(input, rest)
  {
    hide NextMarker;
    rest := input;
    while true
      invariant SameMarker(input, rest)
      decreases |rest|
    {
      NoMarkerIn(input, rest);
      if rest == [] { return false, 0, rest; }
      if rest[0] != 0xFF {
        DataByte(input, rest);
        rest := rest[1..];
      } else {
        var next := rest[1..];
        SkipFillIsShorter(next);
        while next != [] && next[0] == 0xFF
          invariant |next| < |rest| && SkipFill(next) == SkipFill(rest[1..])
          decreases |next|
        {
          next := next[1..];
        }
        if next == [] { return false, 0, rest; }
        if next[0] != 0 { return true, next[0], next[1..]; }
        StuffedZero(input, rest, next);
        rest := next[1..];
      }
    }
  }

  /** Whatever comes behind them, the next marker is the same. */
  ghost predicate SameMarker(a: seq<byte>, b: seq<byte>) {
    forall extra :: NextMarker(a + extra) == NextMarker(b + extra)
  }

  lemma NoMarkerIn(a: seq<byte>, b: seq<byte>)
    requires SameMarker(a, b)
    ensures NextMarker(a) == NextMarker(b)
    ensures b == [] ==> NextMarker(b) == None
    ensures b != [] && b[0] == 0xFF && SkipFill(b[1..]) == [] ==> NextMarker(b) == None
    ensures b != [] && b[0] == 0xFF ==>
              var rest := SkipFill(b[1..]);
              rest != [] && rest[0] != 0 ==> NextMarker(b) == Some((rest[0], rest[1..]))
  {
    assert a + [] == a && b + [] == b;
  }

  lemma DataByte(a: seq<byte>, b: seq<byte>)
    requires SameMarker(a, b) && b != [] && b[0] != 0xFF
    ensures SameMarker(a, b[1..])
  {
    forall extra ensures NextMarker(a + extra) == NextMarker(b[1..] + extra) {
      assert (b + extra)[1..] == b[1..] + extra;
    }
  }

  lemma StuffedZero(a: seq<byte>, b: seq<byte>, next: seq<byte>)
    requires SameMarker(a, b) && b != [] && b[0] == 0xFF && next != [] && next[0] == 0 && SkipFill(b[1..]) == next
    ensures SameMarker(a, next[1..])
  {
    forall extra ensures NextMarker(a + extra) == NextMarker(next[1..] + extra) {
      assert (b + extra)[1..] == b[1..] + extra;
      SkipFillAppended(b[1..], extra);
      assert (next + extra)[1..] == next[1..] + extra;
    }
  }
}
