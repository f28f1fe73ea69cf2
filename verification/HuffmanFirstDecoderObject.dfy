/** The first AC scan of a band as the Huffman decoder runs it (decode_mcu_AC_first in jdhuff.c). A suspended attempt
    changes nothing permanent; the coefficients that it has stored already are stored again by the next one. */
module HuffmanFirstDecoderObject {
  import opened Wrappers
  import opened EstimationTable
  import opened Markers
  import opened Arithmetic
  import opened PointTransform
  import opened HuffmanCode
  import opened HuffmanTables
  import opened BitWriting
  import opened BitReading
  import opened HuffmanItems
  import opened HuffmanEobRuns
  import opened HuffmanFirst
  import R = HuffmanRefinement

  /** From `s0`, `b0`, `k0` the decoder has come to `s`, `b`, `k`; and a second time, with what it has stored in front of
      `k` in place already, it comes there as well, whatever arrives later. */
  ghost predicate Reached(p: Band, t: HuffTable, s0: seq<bool>, b0: Block, k0: nat, s: seq<bool>, b: Block, k: nat)
    requires ValidBand(p) && Reads(t) && p.ss <= k0 <= k
  {
    && (forall more :: Symbols(p, t, s0 + more, b0, k0) == Symbols(p, t, s + more, b, k))
    && (forall more, c :: Agree(c, b, k) ==> Symbols(p, t, s0 + more, c, k0) == Symbols(p, t, s + more, c, k))
  }

  lemma ReachedFirst(p: Band, t: HuffTable, s: seq<bool>, b: Block, k: nat)
    requires ValidBand(p) && Reads(t) && p.ss <= k
    ensures Reached(p, t, s, b, k, s, b, k)
  {
  }

  /** Over a symbol and the coefficient that it announces. */
  lemma ReachedCoefficient(p: Band, t: HuffTable, s0: seq<bool>, b0: Block, k0: nat, s: seq<bool>, b: Block, k: nat,
                           s1: seq<bool>, sym: nat, s2: seq<bool>, v: int)
    requires ValidBand(p) && Reads(t) && p.ss <= k0 <= k <= p.se && Reached(p, t, s0, b0, k0, s, b, k) && sym % 16 != 0
    requires ReadSymbol(t, s) == Done(s1, sym) && ReadValue(sym % 16, s1) == Done(s2, v)
    ensures var q := k + sym / 16; Reached(p, t, s0, b0, k0, s2, b[Place(q) := Short(v * Pow2(p.al))], q + 1)
  {
    hide ReadSymbol, ReadValue, Reads, Short, Pow2, R.ReadRun;
    var q, w := k + sym / 16, Short(v * Pow2(p.al));
    var b1 := b[Place(q) := w];
    forall more, c: Block | Agree(c, b, k)
      ensures Symbols(p, t, s + more, c, k) == Symbols(p, t, s2 + more, c[Place(q) := w], q + 1)
    {
      SymbolWithMore(t, s, more);
      ValueWithMore(sym % 16, s1, more);
    }
    forall more ensures Symbols(p, t, s0 + more, b0, k0) == Symbols(p, t, s2 + more, b1, q + 1) {
      assert Agree(b, b, k);
    }
    forall more, c | Agree(c, b1, q + 1) ensures Symbols(p, t, s0 + more, c, k0) == Symbols(p, t, s2 + more, c, q + 1) {
      assert Agree(c, b, k);
      assert c[Place(q) := w] == c;
    }
  }

  lemma ReachedZrl(p: Band, t: HuffTable, s0: seq<bool>, b0: Block, k0: nat, s: seq<bool>, b: Block, k: nat,
                   s1: seq<bool>, sym: nat)
    requires ValidBand(p) && Reads(t) && p.ss <= k0 <= k <= p.se && Reached(p, t, s0, b0, k0, s, b, k)
    requires sym % 16 == 0 && sym / 16 == 15 && ReadSymbol(t, s) == Done(s1, sym)
    ensures Reached(p, t, s0, b0, k0, s1, b, k + 16)
  {
    hide ReadSymbol, ReadValue, Reads, Short, Pow2, R.ReadRun;
    forall more, c: Block ensures Symbols(p, t, s + more, c, k) == Symbols(p, t, s1 + more, c, k + 16) {
      SymbolWithMore(t, s, more);
    }
    forall more, c | Agree(c, b, k + 16) ensures Symbols(p, t, s0 + more, c, k0) == Symbols(p, t, s1 + more, c, k + 16) {
      assert Agree(c, b, k);
    }
  }

  lemma ReachedRun(p: Band, t: HuffTable, s0: seq<bool>, b0: Block, k0: nat, s: seq<bool>, b: Block, k: nat,
                   s1: seq<bool>, sym: nat)
    requires ValidBand(p) && Reads(t) && p.ss <= k0 <= k <= p.se && Reached(p, t, s0, b0, k0, s, b, k)
    requires sym % 16 == 0 && sym / 16 != 15 && ReadSymbol(t, s) == Done(s1, sym)
    ensures var x := R.ReadRun(sym / 16, s1);
            Symbols(p, t, s0, b0, k0) == if x.Suspend? then Suspend else Done(x.rest, (x.v - 1, b))
  {
    RunEnds(p, t, s, b, k, s1, sym);
    hide Symbols, ReadSymbol, Reads, R.ReadRun;
    assert s0 + [] == s0 && s + [] == s;
  }

  lemma ReachedEnd(p: Band, t: HuffTable, s0: seq<bool>, b0: Block, k0: nat, s: seq<bool>, b: Block, k: nat)
    requires ValidBand(p) && Reads(t) && p.ss <= k0 <= k && p.se < k && Reached(p, t, s0, b0, k0, s, b, k)
    ensures Symbols(p, t, s0, b0, k0) == Done(s, (0, b))
  {
    assert s0 + [] == s0 && s + [] == s;
  }

  lemma ReachedShort(p: Band, t: HuffTable, s0: seq<bool>, b0: Block, k0: nat, s: seq<bool>, b: Block, k: nat)
    requires ValidBand(p) && Reads(t) && p.ss <= k0 <= k <= p.se && Reached(p, t, s0, b0, k0, s, b, k)
    requires var x := ReadSymbol(t, s); x.Suspend? || (x.v % 16 != 0 && ReadValue(x.v % 16, x.rest).Suspend?)
    ensures Symbols(p, t, s0, b0, k0).Suspend?
  {
    hide ReadSymbol, ReadValue, Reads, Short, Pow2, R.ReadRun;
    assert s0 + [] == s0 && s + [] == s;
  }

  /** Whatever bits arrive later: with them, one block is decoded like the other. */
  ghost predicate SameResult(p: Band, t: HuffTable, s: seq<bool>, b: Block, b1: Block, run: nat)
    requires ValidBand(p) && Reads(t)
  {
    forall more :: ReadBlock(p, t, s + more, b1, p.ss, run) == ReadBlock(p, t, s + more, b, p.ss, run)
  }

  lemma ReachedIsSame(p: Band, t: HuffTable, s0: seq<bool>, b0: Block, s: seq<bool>, b: Block, k: nat)
    requires ValidBand(p) && Reads(t) && p.ss <= k && Reached(p, t, s0, b0, p.ss, s, b, k)
    ensures SameResult(p, t, s0, b0, b, 0)
  {
    hide Reads, Symbols;
    forall more ensures Symbols(p, t, s0 + more, b, p.ss) == Symbols(p, t, s0 + more, b0, p.ss) {
      assert Agree(b, b, k);
    }
  }

  class HuffmanFirstDecoder {
    const reader: BitReader
    const d: DerivedTable
    const p: Band
    var eobrun: nat
    const restartInterval: nat
    var restartsToGo: nat
    var nextRestartNum: nat

    ghost predicate Ready()
      reads reader
    {
      reader.Valid() && reader.Flagged() && IsDerived(d) && ValidBand(p)
    }

    constructor (reader: BitReader, d: DerivedTable, p: Band, restartInterval: nat)
      requires reader.Valid() && reader.Flagged() && IsDerived(d) && ValidBand(p)
      ensures this.reader == reader && this.d == d && this.p == p && eobrun == 0 && Ready()
      ensures this.restartInterval == restartInterval == restartsToGo && nextRestartNum == 0
    {
      this.reader, this.d, this.p, this.restartInterval := reader, d, p, restartInterval;
      eobrun, restartsToGo, nextRestartNum := 0, restartInterval, 0;
    }

    /** The length of a run, after its symbol. */
    method Run(r: nat) returns (ok: bool, run: nat)
      requires reader.Valid() && reader.Flagged() && r <= 16
      modifies reader
      ensures reader.Orderly(ok) && run >= 1
      ensures ok && !reader.insufficientData ==> R.ReadRun(r, old(reader.Stream())) == Done(reader.Stream(), run)
      ensures !old(reader.insufficientData) && reader.insufficientData ==> R.ReadRun(r, old(reader.Stream())).Suspend?
    {
      hide BitReader.Stream, BitReader.Closed, BitReader.MarkerAhead, BitReader.Valid, ReadBits, Pow2;
      PositivePower(r);
      ok, run := true, Pow2(r);
      NoBits(reader.Stream());
      if r != 0 {
        var low: nat;
        ok, low := reader.Request(r);
        run := run + low;
      }
    }

    static lemma NoBits(s: seq<bool>)
      ensures ReadBits(0, s) == Done(s, 0)
    {
    }

    /** The symbols of a block that is not in a run. */
    method DecodeSymbols(block: array<int>) returns (ok: bool, run: nat)
      requires Ready() && !reader.insufficientData && block.Length == 64
      modifies reader, block
      ensures reader.Orderly(ok) && Reads(d.pub)
      ensures ok && !reader.insufficientData ==>
                Symbols(p, d.pub, old(reader.Stream()), old(block[..]), p.ss) == Done(reader.Stream(), (run, block[..]))
      ensures reader.insufficientData ==> Symbols(p, d.pub, old(reader.Stream()), old(block[..]), p.ss).Suspend?
      ensures !ok ==> SameResult(p, d.pub, old(reader.Stream()), old(block[..]), block[..], 0)
    {
      hide BitReader.Stream, BitReader.Closed, BitReader.MarkerAhead, BitReader.Valid, IsDerived, ReadSymbol, ReadValue, Reads, Reached,
           SameResult, Symbols, R.ReadRun, Short, Pow2;
      DerivedReads(d);
      ghost var t, s0, b0 := d.pub, reader.Stream(), block[..];
      var k := p.ss;
      run := 0;
      ReachedFirst(p, t, s0, b0, k);
      while k <= p.se
        invariant reader.Orderly(true) && p.ss <= k && run == 0
        invariant !reader.insufficientData ==> Reached(p, t, s0, b0, p.ss, reader.Stream(), block[..], k)
        invariant reader.insufficientData ==> Symbols(p, t, s0, b0, p.ss).Suspend?
        decreases p.se + 1 - k
      {
        ghost var s, b, short := reader.Stream(), block[..], reader.insufficientData;
        if !short { ReachedIsSame(p, t, s0, b0, s, b, k); }
        var sym: nat;
        ok, sym := reader.NextSymbol(d);
        if !short && reader.insufficientData { ReachedShort(p, t, s0, b0, p.ss, s, b, k); }
        if !ok { return; }
        ghost var s1, shortNow := reader.Stream(), reader.insufficientData;
        var r, n := sym / 16, sym % 16;
        if n != 0 {
          k := k + r;
          var v;
          ok, v := reader.Value(n);
          if !shortNow && reader.insufficientData { ReachedShort(p, t, s0, b0, p.ss, s, b, k - r); }
          if !ok { return; }
          if !reader.insufficientData { ReachedCoefficient(p, t, s0, b0, p.ss, s, b, k - r, s1, sym, reader.Stream(), v); }
          block[Place(k)] := Short(v * Pow2(p.al));
          assert block[..] == b[Place(k) := Short(v * Pow2(p.al))];
          k := k + 1;
        } else if r == 15 {
          if !reader.insufficientData { ReachedZrl(p, t, s0, b0, p.ss, s, b, k, s1, sym); }
          k := k + 16;
        } else {
          if !shortNow { ReachedRun(p, t, s0, b0, p.ss, s, b, k, s1, sym); }
          ok, run := Run(r);
          run := run - 1;
          return;
        }
      }
      ok := true;
      if !reader.insufficientData { ReachedEnd(p, t, s0, b0, p.ss, reader.Stream(), block[..], k); }
    }

    static lemma DerivedReads(d: DerivedTable)
      requires IsDerived(d)
      ensures Reads(d.pub)
    {
      hide DecoderTables;
    }

    /** decode_mcu_AC_first behind the restart logic. */
    method DecodeBlock(block: array<int>) returns (ok: bool)
      requires Ready() && block.Length == 64
      modifies this`eobrun, reader, block
      ensures Ready() && Reads(d.pub) && reader.Closed() == old(reader.Closed())
      ensures old(reader.insufficientData) ==> ok && block[..] == old(block[..]) && eobrun == old(eobrun) && reader.insufficientData
      ensures ok && !reader.insufficientData ==>
                ReadBlock(p, d.pub, old(reader.Stream()), old(block[..]), p.ss, old(eobrun)) == Done(reader.Stream(), (eobrun, block[..]))
      ensures ok && !old(reader.insufficientData) && reader.insufficientData ==>
                ReadBlock(p, d.pub, old(reader.Stream()), old(block[..]), p.ss, old(eobrun)).Suspend?
      ensures !ok ==>
                && reader.Stream() == old(reader.Stream()) && eobrun == old(eobrun) && !reader.insufficientData
                && reader.input == old(reader.input)
                && SameResult(p, d.pub, reader.Stream(), old(block[..]), block[..], eobrun)
    {
      hide BitReader.Stream, BitReader.Closed, BitReader.MarkerAhead, BitReader.Valid, IsDerived, Reads, SameResult, Symbols;
      DerivedReads(d);
      ok := true;
      if reader.insufficientData { return; }
      if eobrun > 0 {
        eobrun := eobrun - 1;
        return;
      }
      var buffer, left, input := reader.getBuffer, reader.bitsLeft, reader.input;
      var run: nat;
      ok, run := DecodeSymbols(block);
      if ok {
        eobrun := run;
      } else {
        reader.NoMarkerYet();
        reader.getBuffer, reader.bitsLeft, reader.input := buffer, left, input;
        reader.RestoredState();
      }
    }

    // -------------------------------------------------------------- restarts

    predicate RestartDue()
      reads this
    {
      restartInterval != 0 && restartsToGo == 0
    }

    /** Where the next block starts: the bits, and how many blocks are left of a run. None: the restart marker that is due is
        not there. */
    ghost function Begin(): Option<(seq<bool>, nat)>
      reads this, reader
    {
      if RestartDue() then
        var m := reader.MarkerAhead();
        if m.Some? && m.value.0 == RST0 + nextRestartNum then Some((AheadBits(m.value.1), 0)) else None
      else Some((reader.Stream(), eobrun))
    }

    /** process_restart. */
    method ProcessRestart() returns (status: Status)
      requires Ready() && reader.Flagged() && nextRestartNum < 8 && RestartDue()
      modifies this`eobrun, this`restartsToGo, this`nextRestartNum, reader
      ensures status != LostSync ==> Ready() && reader.Flagged() && nextRestartNum < 8
      ensures status == Fine <==> old(Begin()).Some?
      ensures status == Fine ==>
                && !RestartDue() && restartsToGo == restartInterval && nextRestartNum == (old(nextRestartNum) + 1) % 8
                && !reader.insufficientData && Begin() == old(Begin())
                && reader.MarkerAhead() == NextMarker(old(reader.MarkerAhead()).value.1)
      ensures status == Suspended ==>
                && RestartDue() && nextRestartNum == old(nextRestartNum) && eobrun == old(eobrun) && !reader.Closed()
                && reader.unreadMarker == 0 && SameMarker(old(reader.input), reader.input)
    {
      hide NextMarker, AheadBits, Ends, SameMarker, BitReader.Stream, BitReader.Closed, IsDerived;
      var found, lost := reader.Restart(nextRestartNum);
      if lost { return LostSync; }
      if !found { return Suspended; }
      nextRestartNum := (nextRestartNum + 1) % 8;
      eobrun := 0;
      restartsToGo := restartInterval;
      status := Fine;
    }

    /** decode_mcu_AC_first. */
    method DecodeMcu(block: array<int>) returns (status: Status)
      requires Ready() && reader.Flagged() && nextRestartNum < 8 && block.Length == 64 && block as object != reader
      modifies this`eobrun, this`restartsToGo, this`nextRestartNum, reader, block
      ensures status != LostSync ==> Ready() && reader.Flagged() && nextRestartNum < 8 && Reads(d.pub)
      ensures old(Begin()).None? ==> status != Fine && block[..] == old(block[..])
      ensures old(reader.insufficientData) && !old(RestartDue()) ==> status == Fine && block[..] == old(block[..]) && eobrun == old(eobrun)
      ensures status == Fine && restartInterval != 0 ==>
                restartsToGo == (if old(RestartDue()) then restartInterval else old(restartsToGo)) - 1
      ensures status == Fine && (!old(reader.insufficientData) || old(RestartDue())) && !reader.insufficientData ==>
                && old(Begin()).Some?
                && ReadBlock(p, d.pub, old(Begin()).value.0, old(block[..]), p.ss, old(Begin()).value.1)
                   == Done(reader.Stream(), (eobrun, block[..]))
      ensures status == Fine && (!old(reader.insufficientData) || old(RestartDue())) && reader.insufficientData ==>
                && old(Begin()).Some?
                && ReadBlock(p, d.pub, old(Begin()).value.0, old(block[..]), p.ss, old(Begin()).value.1).Suspend?
      ensures status == Suspended && old(Begin()).Some? ==> Begin() == old(Begin()) && !RestartDue()
      ensures status == Suspended && old(Begin()).Some? ==>
                SameResult(p, d.pub, reader.Stream(), old(block[..]), block[..], eobrun)
    {
      hide NextMarker, AheadBits, Ends, SameMarker, BitReader.Stream, BitReader.Closed, BitReader.Valid, IsDerived, Reads, ReadBlock,
           SameResult;
      DerivedReads(d);
      if restartInterval != 0 {
        if restartsToGo == 0 {
          status := ProcessRestart();
          if status != Fine { return; }
        }
      }
      var ok: bool;
      ok := DecodeBlock(block);
      if !ok { return Suspended; }
      if restartInterval != 0 { restartsToGo := restartsToGo - 1; }
      status := Fine;
    }
  }
}
