/** The arithmetic encoder object (jcarith.c): registers and statistics updated in place, stuffed bytes written
    to the destination. Every method is proved against the value-level coder of ArithCoding. */
module ArithEncoderObject {
  import opened EstimationTable
  import opened EstimationColumns
  import opened Bytes
  import opened ArithCoding
  import opened Seqs

  class ArithEncoder {
    var c: int
    var a: int
    var sc: nat
    var zc: nat
    var ct: int
    var buffer: int
    var output: seq<byte>
    const stats: array<Stat>

    /** The destination and the statistics when this segment began, the data bytes written since then, and the
        decisions coded since then. */
    ghost var written: seq<byte>
    ghost var startBins: seq<Stat>
    ghost var data: seq<byte>
    ghost var log: seq<Decision>

    ghost function Regs(): Enc
      reads this
    {
      Enc(c, a, sc, zc, ct, buffer, data)
    }

    /** What was written is the data with a zero byte stuffed after every 0xFF. */
    ghost predicate Stuffed()
      reads this
    {
      output == written + Stuff(data)
    }

    /** The state that the value-level encoder is in after the same decisions. */
    ghost function Coded(): EncRun
      reads this
      requires Ready(START_ENC) && InRange(log, |startBins|)
    {
      EncodeRun(EncRun(START_ENC, startBins), log)
    }

    ghost predicate Valid()
      reads this, stats
    {
      && Stuffed() && Ready(START_ENC)
      && |startBins| == stats.Length && InRange(log, |startBins|)
      && EncRun(Regs(), stats[..]) == Coded()
    }

    /** The bytes of the segment, should it end here. */
    ghost function Segment(): seq<byte>
      reads this, stats
      requires Valid()
    {
      hide EncodeRun;
      Stuff(Finish(Coded().e))
    }

    /** Bins for the models, and the bin for evenly distributed decisions. */
    constructor (bins: nat)
      ensures Valid() && output == written == [] && log == []
      ensures fresh(stats) && stats.Length == bins + 1 && startBins == stats[..] == StartStats(bins)
    {
      hide Ready;
      stats := new Stat[bins + 1](i => if i == bins then EVEN_ODDS else 0);
      output := [];
      new;
      StartSegment();
    }

    /** The coding variables at the start of a segment. */
    method StartSegment()
      modifies this
      ensures Valid() && output == written == old(output) && log == [] && startBins == stats[..]
    {
      hide Ready, Value, Fraction, Down, Up, Digits;
      StartIsReady();
      c, a, sc, zc, ct, buffer := 0, 0x10000, 0, 0, 11, -1;
      written, startBins, data, log := output, stats[..], [], [];
    }

    method EmitByte(val: byte)
      modifies this`output
      ensures output == old(output) + [val]
    {
      output := output + [val];
    }

    /** A data byte below 0xFF needs no stuffing. */
    method EmitPlain(val: byte)
      requires Stuffed() && val < 0xFF
      modifies this`output, this`data
      ensures Stuffed() && data == old(data) + [val]
    {
      StuffSnoc(data, val);
      EmitByte(val);
      data := data + [val];
    }

    /** A data byte that may be 0xFF, and then gets its zero byte. */
    method EmitStuffed(val: byte)
      requires Stuffed()
      modifies this`output, this`data
      ensures Stuffed() && data == old(data) + [val]
    {
      StuffSnoc(data, val);
      EmitByte(val);
      if val == 0xFF {
        EmitByte(0x00);
      }
      data := data + [val];
    }

    method EmitPendingZeros()
      requires Stuffed()
      modifies this`output, this`data, this`zc
      ensures Stuffed() && zc == 0 && data == old(data) + Zeros(old(zc))
    {
      hide Stuff;
      ghost var n := zc;
      while zc > 0
        invariant zc <= n && Stuffed() && data == old(data) + Zeros(n - zc)
      {
        EmitPlain(0x00);
        assert Zeros(n - zc) + [0] == Zeros(n - zc + 1);
        zc := zc - 1;
      }
    }

    /** Let the carry go through: the buffered byte takes it, the stacked 0xFF bytes become zeros. */
    method HandleCarry()
      requires Stuffed() && -1 <= buffer <= 0xFE
      modifies this`output, this`data, this`zc, this`sc
      ensures Stuffed() && sc == 0
      ensures data == if buffer >= 0 then old(data) + Zeros(old(zc)) + [buffer + 1] else old(data)
      ensures zc == (if buffer >= 0 then 0 else old(zc)) + old(sc)
    {
      if buffer >= 0 {
        EmitPendingZeros();
        EmitStuffed(buffer + 1);
      }
      zc := zc + sc;
      sc := 0;
    }

    /** Write everything that no carry can reach any more. */
    method EmitSettled()
      requires Stuffed() && -1 <= buffer <= 0xFE
      modifies this`output, this`data, this`zc, this`sc
      ensures Stuffed() && Regs() == SettleStack(old(Regs()))
    {
      if buffer == 0 {
        zc := zc + 1;
      } else if buffer >= 0 {
        EmitPendingZeros();
        EmitPlain(buffer);
      }
      if sc > 0 {
        EmitPendingZeros();
        EmitStack();
      }
    }

    method EmitStack()
      requires Stuffed()
      modifies this`output, this`data, this`sc
      ensures Stuffed() && sc == 0 && data == old(data) + Ones(old(sc))
    {
      hide Stuff;
      ghost var n := sc;
      while sc > 0
        invariant sc <= n && Stuffed() && data == old(data) + Ones(n - sc)
      {
        EmitStuffed(0xFF);
        assert Ones(n - sc) + [0xFF] == Ones(n - sc + 1);
        sc := sc - 1;
      }
    }

    method OutputByte()
      requires Stuffed() && Shape(Regs()) && ct == 0
      modifies this
      ensures Stuffed() && written == old(written) && startBins == old(startBins) && log == old(log)
      ensures old(c) < 0x9000000 && Regs() == ByteOut(old(Regs()))
    {
      hide Value, Fraction, Down, Up, Digits, Stuff;
      CarryIsCaught(Regs());
      var temp := c / 0x80000;
      if temp > 0xFF {
        HandleCarry();
        buffer := temp % 0x100;
      } else if temp == 0xFF {
        sc := sc + 1;
      } else {
        EmitSettled();
        buffer := temp % 0x100;
      }
      c := c % 0x80000;
      ct := ct + 8;
    }

    /** Shift until the interval size is back in range, writing each byte that becomes complete. The source
        tests the condition after the body; it is called only when at least one shift is due. */
    method Renormalize()
      requires Stuffed() && Shape(Regs()) && 1 <= ct && a < 0x8000
      modifies this
      ensures Stuffed() && written == old(written) && startBins == old(startBins) && log == old(log)
      ensures Regs() == Renorm(old(Regs()))
    {
      while a < 0x8000
        invariant Stuffed() && written == old(written) && startBins == old(startBins) && log == old(log)
        invariant Shape(Regs()) && 1 <= ct && Renorm(Regs()) == Renorm(old(Regs()))
        decreases 0x8000 - a
      {
        ShiftOnce();
      }
    }

    method ShiftOnce()
      requires Stuffed() && Shape(Regs()) && 1 <= ct && a < 0x8000
      modifies this
      ensures Stuffed() && written == old(written) && startBins == old(startBins) && log == old(log)
      ensures Regs() == Shift(old(Regs()))
      ensures Shape(Regs()) && 1 <= ct && a == 2 * old(a)
    {
      hide Value, Fraction, Down, Up, Digits, Stuff;
      ShiftedKeepsShape(Regs());
      ShiftKeepsValue(Regs(), 0.0);
      a := 2 * a;
      c := 2 * c;
      ct := ct - 1;
      if ct == 0 {
        OutputByte();
      }
    }

    /** Code one binary decision on the bin `st`. */
    method ArithEncode(st: nat, val: bool)
      requires Valid() && st < stats.Length
      modifies this, stats
      ensures Valid() && written == old(written) && startBins == old(startBins)
      ensures log == old(log) + [Decision(st, val)]
      ensures AdaptedIn(old(a), old(stats[st]), val, stats[st])
    {
      hide Ready, EncodeRun, EncodeStep, Stuff, AdaptedIn;
      CodedAfterOne(Decision(st, val));
      StepIsByColumns(EncRun(Regs(), stats[..]), Decision(st, val));
      EncodeWithBin(st, val);
      log := log + [Decision(st, val)];
    }

    lemma CodedAfterOne(d: Decision)
      requires Valid() && d.bin < stats.Length
      ensures Ready(Regs())
      ensures InRange(log + [d], |startBins|)
      ensures EncodeRun(EncRun(START_ENC, startBins), log + [d]) == EncodeStep(EncRun(Regs(), stats[..]), d)
    {
      EncodeRunConcat(EncRun(START_ENC, startBins), log, [d]);
      hide Encode, Choose;
      assert [d][1..] == [];
      assert EncodeRun(Coded(), [d]) == EncodeStep(Coded(), d);
    }

    method EncodeWithBin(st: nat, val: bool)
      requires Stuffed() && Ready(Regs()) && st < stats.Length
      modifies this, stats
      ensures Stuffed() && written == old(written) && startBins == old(startBins) && log == old(log)
      ensures EncRun(Regs(), stats[..]) == EncodeStep(old(EncRun(Regs(), stats[..])), Decision(st, val))
    {
      hide Lookup, Renorm, Successor;
      ghost var start, ch := Regs(), Choose(a, stats[st], val);
      ChoiceBounds(a, stats[st], val);
      NarrowKeepsShape(start, ch);
      hide Shape;
      var sv := stats[st];
      var r := Lookup(sv);
      a := a - r.qe;
      if val != Mps(sv) {
        if a >= r.qe {
          c := c + a;
          a := r.qe;
        }
        stats[st] := Successor(sv, r.afterLps);
      } else {
        if a >= 0x8000 {
          NoRenormalisation(Regs());
          assert stats[..] == old(stats[..])[st := ch.stat];
          return;
        }
        if a < r.qe {
          c := c + a;
          a := r.qe;
        }
        stats[st] := Successor(sv, r.afterMps);
      }
      assert Regs() == Narrow(start, ch) && stats[st] == ch.stat;
      assert stats[..] == old(stats[..])[st := ch.stat];
      hide Choose;
      Renormalize();
    }

    /** Write what is left in the register, unless it is all zero. */
    method EmitLastBytes()
      requires Stuffed() && 0 <= c
      modifies this`output, this`data, this`zc
      ensures Stuffed()
      ensures data ==
              if c % 0x8000000 / 0x800 != 0 then
                old(data) + Zeros(old(zc)) + [c / 0x80000 % 0x100]
                + (if c % 0x80000 / 0x800 != 0 then [c / 0x800 % 0x100] else [])
              else old(data)
    {
      if c % 0x8000000 / 0x800 != 0 {
        EmitPendingZeros();
        EmitStuffed(c / 0x80000 % 0x100);
        if c % 0x80000 / 0x800 != 0 {
          EmitStuffed(c / 0x800 % 0x100);
        } else {
          assert data + [] == data;
        }
      }
    }

    /** Terminate the segment with the point of the interval that leaves the fewest bytes to write. */
    method FinishPass()
      requires Valid()
      modifies this
      ensures written == old(written) && startBins == old(startBins)
      ensures stats[..] == old(stats[..]) && output == written + old(Segment())
    {
      hide Value, Fraction, Down, Up, Digits, Stuff, EncodeRun, Finish;
      FinalPointIsInside(Regs());
      FinalRegisterBounds(Regs());
      var temp := a - 1 + c;
      temp := temp - temp % 0x10000;
      if temp < c {
        c := temp + 0x8000;
      } else {
        c := temp;
      }
      assert c == FinalPoint(old(Regs()));
      FlushRegister(old(Regs()));
    }

    method FlushRegister(ghost e: Enc)
      requires Stuffed() && Ready(e) && Regs() == e.(c := FinalPoint(e))
      modifies this
      ensures written == old(written) && startBins == old(startBins)
      ensures output == written + Stuff(Finish(e))
    {
      hide FinalPoint, Up, Value, Fraction, Down, Digits, Stuff;
      FinalRegisterBounds(e);
      c := Up(c, ct);
      if c >= 0x8000000 {
        HandleCarry();
      } else {
        EmitSettled();
      }
      EmitLastBytes();
    }
  }
}
