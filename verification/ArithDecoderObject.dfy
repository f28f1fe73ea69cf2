/** The arithmetic decoder object (jdarith.c). A failed result stands for the error exit that is taken when the
    source cannot supply a byte. */
module ArithDecoderObject {
  import opened Wrappers
  import opened Markers
  import opened EstimationTable
  import opened EstimationColumns
  import opened Bytes
  import opened ArithCoding
  import opened ArithDecoding

  class ArithDecoder {
    var c: int
    var a: int
    var ct: int
    var input: seq<byte>
    var unreadMarker: byte
    const stats: array<Stat>

    function Regs(): Dec
      reads this
    {
      Dec(c, a, ct, input, unreadMarker)
    }

    ghost predicate Valid()
      reads this
    {
      DecShape(Regs())
    }

    constructor (bins: nat, source: seq<byte>)
      ensures Valid() && Regs() == StartDec(source)
      ensures fresh(stats) && stats[..] == StartStats(bins)
    {
      stats := new Stat[bins + 1](i => if i == bins then EVEN_ODDS else 0);
      c, a, ct, input, unreadMarker := 0, 0, -16, source, 0;
    }

    method GetByte() returns (ok: bool, data: byte)
      modifies this`input
      ensures ok <==> old(input) != []
      ensures ok ==> data == old(input)[0] && input == old(input)[1..]
    {
      if input == [] {
        return false, 0;
      }
      data := input[0];
      input := input[1..];
      ok := true;
    }

    /** The data byte that renormalisation shifts in. */
    method FetchByte() returns (ok: bool, data: byte)
      modifies this`input, this`unreadMarker
      ensures var f := Fetch(old(input), old(unreadMarker));
              && (ok <==> f.Some?)
              && (ok ==> f.value == Fetched(data, input, unreadMarker))
    {
      if unreadMarker != 0 {
        return true, 0;
      }
      ok, data := GetByte();
      if !ok { return; }
      if data == 0xFF {
        ghost var rest := input;
        ok, data := GetByte();
        if !ok { return; }
        while data == 0xFF
          invariant unreadMarker == 0 && SkipFill(rest) == SkipFill([data] + input)
          decreases |input|
        {
          assert ([data] + input)[1..] == input;
          assert input != [] ==> [input[0]] + input[1..] == input;
          ok, data := GetByte();
          if !ok { return; }
        }
        assert ([data] + input)[1..] == input;
        if data == 0 {
          data := 0xFF;
        } else {
          unreadMarker := data;
          data := 0;
        }
      }
    }

    method Renormalize() returns (ok: bool)
      requires Valid()
      modifies this
      ensures ok <==> DecRenorm(old(Regs())).Some?
      ensures ok ==> DecRenorm(old(Regs())) == Some(Regs())
    {
      while a < 0x8000
        invariant Valid() && DecRenorm(Regs()) == DecRenorm(old(Regs()))
        decreases if a == 0 then 1 else 0, if a == 0 then -ct else 0x8000 - a
      {
        ghost var before := Regs();
        ct := ct - 1;
        if ct < 0 {
          var data: byte;
          ok, data := FetchByte();
          if !ok { return; }
          ShiftInByte(before, data);
          c := c * 0x100 + data;
          ct := ct + 8;
          if ct < 0 {
            ct := ct + 1;
            if ct == 0 {
              a := 0x8000;
            }
          }
        }
        a := 2 * a;
        assert DecShift(before) == Some(Regs());
      }
      ok := true;
    }

    /** Decode one binary decision on the bin `st`. */
    method ArithDecode(st: nat) returns (ok: bool, val: bool)
      requires Valid() && st < stats.Length
      modifies this, stats
      ensures var x := Decode(old(Regs()), old(stats[st]));
              && (ok <==> x.Some?)
              && (ok ==> Valid() && Regs() == x.value.d && val == x.value.bit
                         && stats[..] == old(stats[..])[st := x.value.stat])
      ensures ok ==> Adapted(old(stats[st]), val, a >= 0x8000, stats[st])
    {
      hide Adapted, Lookup, Successor, Fetch, DecRenorm, DecShape, Up, Decide;
      DecisionIsByColumns(Regs(), stats[st]);
      val := false;
      ok := Renormalize();
      if !ok { return; }
      val := DecideBin(st);
    }

    /** The comparison, and what becomes of the bin. */
    method DecideBin(st: nat) returns (val: bool)
      requires Valid() && a >= 0x8000 && st < stats.Length
      modifies this, stats
      ensures Decide(old(Regs()), old(stats[st])) == Decoded(Regs(), stats[st], val)
      ensures Valid() && stats[..] == old(stats[..])[st := stats[st]]
    {
      ghost var decided := Decide(Regs(), stats[st]);
      assert a <= 0x10000 && 0 <= ct;
      hide Lookup, Successor, DecShape, Up;
      var sv := stats[st];
      var r := Lookup(sv);
      val := Mps(sv);
      var temp := a - r.qe;
      a := temp;
      temp := Up(temp, ct);
      if c >= temp {
        c := c - temp;
        if a < r.qe {
          a := r.qe;
          stats[st] := Successor(sv, r.afterMps);
        } else {
          a := r.qe;
          stats[st] := Successor(sv, r.afterLps);
          val := !val;
        }
      } else if a < 0x8000 {
        if a < r.qe {
          stats[st] := Successor(sv, r.afterLps);
          val := !val;
        } else {
          stats[st] := Successor(sv, r.afterMps);
        }
      }
      assert decided == Decoded(Regs(), stats[st], val);
    }
  }
}
