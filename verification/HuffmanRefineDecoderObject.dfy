/** The AC refinement routine of the Huffman decoder as it runs (decode_mcu_AC_refine in jdhuff.c): the block is
    updated in place, the positions of new coefficients are remembered, and a suspended attempt undoes them. */
module HuffmanRefineDecoderObject {
  import opened Wrappers
  import opened EstimationTable
  import opened Markers
  import opened Arithmetic
  import opened PointTransform
  import opened HuffmanCode
  import opened HuffmanTables
  import opened BitWriting
  import opened BitReading
  import opened HuffmanItems
  import opened HuffmanEobRuns
  import opened HuffmanRefinement
  import opened RefinementSuspension

  // ---------------------------------------------------------------- undoing several positions

  ghost predicate Places(positions: seq<nat>) {
    forall i :: 0 <= i < |positions| ==> positions[i] <= 63
  }

  ghost function UndoneAll(x: Attempt<(nat, Block)>, positions: seq<nat>): Attempt<(nat, Block)>
    requires Places(positions)
    decreases |positions|
  {
    if positions == [] then x
    else UndoneAll(Undone(x, positions[|positions| - 1]), positions[..|positions| - 1])
  }

  ghost function Zeroed(b: Block, positions: seq<nat>): Block
    requires Places(positions)
    decreases |positions|
  {
    if positions == [] then b
    else Zeroed(b[positions[|positions| - 1] := 0], positions[..|positions| - 1])
  }

  lemma {:induction false} UndoneStopped(b: Block, positions: seq<nat>)
    requires Places(positions)
    ensures UndoneAll(Stopped(b), positions) == Stopped(Zeroed(b, positions))
    decreases |positions|
  {
    if positions != [] {
      UndoneStopped(b[positions[|positions| - 1] := 0], positions[..|positions| - 1]);
    }
  }

  lemma {:induction false} UndoneWent(x: Attempt<(nat, Block)>, positions: seq<nat>)
    requires x.Went? && Places(positions)
    ensures UndoneAll(x, positions) == x
    decreases |positions|
  {
    if positions != [] { UndoneWent(x, positions[..|positions| - 1]); }
  }

  lemma UndoneOneMore(x: Attempt<(nat, Block)>, positions: seq<nat>, q: nat)
    requires q <= 63 && Places(positions)
    ensures UndoneAll(x, positions + [q]) == UndoneAll(Undone(x, q), positions)
  {
    assert (positions + [q])[..|positions|] == positions;
  }

  /** Whatever bits arrive later: with them, one block is decoded like the other. */
  ghost predicate SameResult(p: Band, t: HuffTable, s: seq<bool>, b: Block, b1: Block, run: nat)
    requires ValidBand(p) && Reads(t)
  {
    forall more :: ReadBlock(p, t, s + more, b1, p.ss, run) == ReadBlock(p, t, s + more, b, p.ss, run)
  }

  lemma StoppedIsSame(o: Start, n: nat, b1: Block)
    requires o.Valid() && IsShortBlock(o.b) && Trial(o, n) == Stopped(b1)
    ensures IsShortBlock(b1) && SameResult(o.p, o.t, o.s, o.b, b1, o.run)
  {
    hide ReadBlock, TryBlock, Reads;
    forall more ensures ReadBlock(o.p, o.t, o.s + more, b1, o.p.ss, o.run) == ReadBlock(o.p, o.t, o.s + more, o.b, o.p.ss, o.run) {
      SuspensionIsTransparent(o.p, o.t, o.s, more, o.b, o.run, n);
    }
    SuspensionIsTransparent(o.p, o.t, o.s, [], o.b, o.run, n);
  }

  // ---------------------------------------------------------------- the routine

  class HuffmanRefineDecoder {
    const reader: BitReader
    const d: DerivedTable
    const p: Band
    var eobrun: nat
    const restartInterval: nat
    var restartsToGo: nat
    var nextRestartNum: nat

    ghost predicate Ready()
      reads reader
    {
      reader.Valid() && IsDerived(d) && ValidBand(p)
    }

    constructor (reader: BitReader, d: DerivedTable, p: Band, restartInterval: nat)
      requires reader.Valid() && IsDerived(d) && ValidBand(p)
      ensures this.reader == reader && this.d == d && this.p == p && eobrun == 0 && Ready()
      ensures this.restartInterval == restartInterval == restartsToGo && nextRestartNum == 0
    {
      this.reader, this.d, this.p, this.restartInterval := reader, d, p, restartInterval;
      eobrun, restartsToGo, nextRestartNum := 0, restartInterval, 0;
    }

    // -------------------------------------------------------------- correction bits

    /** Append a correction bit to the coefficient at `k`, unless it is there already. */
    method Correct(block: array<int>, k: nat) returns (ok: bool, ghost bit: nat)
      requires reader.Valid() && reader.Flagged() && block.Length == 64 && k <= 63 && block as object != reader
      modifies reader, block
      ensures reader.Orderly(ok)
      ensures ok && !reader.insufficientData ==>
                && ReadBits(1, old(reader.Stream())) == Done(reader.Stream(), bit)
                && block[..] == CorrectAt(old(block[..]), k, p.al, bit)
      ensures !old(reader.insufficientData) && reader.insufficientData ==> ReadBits(1, old(reader.Stream())).Suspend?
      ensures !ok ==> block[..] == old(block[..])
    {
      hide ReadBits, Short, Pow2, BitIsSet, BitReader.Stream, BitReader.Closed, BitReader.MarkerAhead, BitReader.Valid;
      var b: nat;
      ok, b := reader.Request(1);
      bit := b;
      if !ok || b != 1 { return; }
      if !BitIsSet(block[k], p.al) {
        if block[k] >= 0 {
          block[k] := Short(block[k] + Pow2(p.al));
        } else {
          block[k] := Short(block[k] - Pow2(p.al));
        }
      }
      assert block[..] == old(block[..])[k := Corrected(old(block[k]), p.al)];
    }

    /** Advance over already-nonzero coefficients and `r0` still-zero ones, appending correction bits to the nonzeroes.
        `n` requests were served. */
    method AdvanceOver(block: array<int>, k0: nat, r0: nat) returns (ok: bool, k: nat, ghost n: nat)
      requires Ready() && reader.Flagged() && block.Length == 64 && block as object != reader && p.ss <= k0 <= p.se
      modifies reader, block
      ensures reader.Orderly(ok) && k0 <= k <= p.se + 1
      ensures !ok && !old(reader.insufficientData) ==>
                TryAdvance(p, old(reader.Stream()), old(block[..]), k0, r0, n) == Stopped(block[..])
      ensures ok && !reader.insufficientData ==>
                Arrives(p, old(reader.Stream()), old(block[..]), k0, r0, n, reader.Stream(), k, block[..])
      ensures !old(reader.insufficientData) && reader.insufficientData ==>
                Advance(p, old(reader.Stream()), old(block[..]), k0, r0).Suspend?
    {
      hide ReadBits, CorrectAt, BitReader.Stream, BitReader.Closed, BitReader.MarkerAhead, BitReader.Valid, Passing, Arrives, IsDerived;
      k, n := k0, 0;
      var r := r0;
      ghost var s0, b0 := reader.Stream(), block[..];
      PassingStarts(p, s0, b0, k0, r0);
      while true
        invariant reader.Orderly(true) && k0 <= k <= p.se
        invariant !reader.insufficientData ==> Passing(p, s0, b0, k0, r0, n, reader.Stream(), block[..], k, r)
        invariant !old(reader.insufficientData) && reader.insufficientData ==> Advance(p, s0, b0, k0, r0).Suspend?
        decreases p.se - k
      {
        ghost var s, b := reader.Stream(), block[..];
        if block[k] != 0 {
          ghost var bit: nat;
          PassingStops(p, s0, b0, k0, r0, n, s, b, k, r);
          ok, bit := Correct(block, k);
          if !ok { return; }
          PassingBit(p, s0, b0, k0, r0, n, s, b, k, r);
          n := n + 1;
        } else {
          PassingZero(p, s0, b0, k0, r0, n, s, b, k, r);
          if r == 0 { break; }
          r := r - 1;
        }
        k := k + 1;
        if k > p.se { break; }
      }
      ok := true;
    }

    /** The end-of-band logic: a correction bit for every coefficient from `k0` on that is nonzero. */
    method TailOver(block: array<int>, k0: nat) returns (ok: bool, ghost n: nat)
      requires Ready() && reader.Flagged() && block.Length == 64 && block as object != reader && p.ss <= k0
      modifies reader, block
      ensures reader.Orderly(ok)
      ensures !ok && !old(reader.insufficientData) ==>
                TryTail(p, old(reader.Stream()), old(block[..]), k0, n) == Stopped(block[..])
      ensures ok && !reader.insufficientData ==>
                && Tail(p, old(reader.Stream()), old(block[..]), k0) == Done(reader.Stream(), block[..])
                && forall x: nat :: n <= x ==> TryTail(p, old(reader.Stream()), old(block[..]), k0, x) == Went(reader.Stream(), x - n, block[..])
      ensures !old(reader.insufficientData) && reader.insufficientData ==>
                Tail(p, old(reader.Stream()), old(block[..]), k0).Suspend?
    {
      hide ReadBits, CorrectAt, BitReader.Stream, BitReader.Closed, BitReader.MarkerAhead, BitReader.Valid, IsDerived, Trailing;
      n := 0;
      var k := k0;
      ghost var s0, b0 := reader.Stream(), block[..];
      TrailingStarts(p, s0, b0, k0);
      while k <= p.se
        invariant reader.Orderly(true) && k0 <= k
        invariant !reader.insufficientData ==> Trailing(p, s0, b0, k0, n, reader.Stream(), block[..], k)
        invariant !old(reader.insufficientData) && reader.insufficientData ==> Tail(p, s0, b0, k0).Suspend?
        decreases p.se + 1 - k
      {
        ghost var s, b := reader.Stream(), block[..];
        if block[k] != 0 {
          ghost var bit: nat;
          TrailingStops(p, s0, b0, k0, n, s, b, k);
          ok, bit := Correct(block, k);
          if !ok { return; }
          TrailingBit(p, s0, b0, k0, n, s, b, k);
          n := n + 1;
        } else {
          TrailingZero(p, s0, b0, k0, n, s, b, k);
        }
        k := k + 1;
      }
      TrailingEnds(p, s0, b0, k0, n, reader.Stream(), block[..], k);
      ok := true;
    }

    // -------------------------------------------------------------- symbols

    /** A symbol, what belongs to it, and the way to its place: one turn of the loop, before the coefficient is stored.
        `run` is positive if the symbol ended the band. */
    method OneSymbol(block: array<int>, k0: nat, ghost o: Start, ghost n0: nat, ghost pos: seq<nat>)
      returns (ok: bool, k: nat, v: Option<int>, run: nat, ghost n: nat)
      requires Ready() && reader.Flagged() && block.Length == 64 && block as object != reader && p.ss <= k0 <= p.se
      requires o.p == p && o.t == d.pub && o.Valid() && Places(pos)
      requires !reader.insufficientData ==> AtSymbol(o, n0, reader.Stream(), block[..], k0, pos)
      requires reader.insufficientData ==> Result(o).Suspend?
      modifies reader, block
      ensures reader.Orderly(ok) && k0 <= k <= p.se + 1
      ensures !ok ==> Trial(o, n) == UndoneAll(Stopped(block[..]), pos)
      ensures ok && !reader.insufficientData ==>
                if run > 0 then AtTail(o, n, reader.Stream(), block[..], k, run, pos)
                else AtPlace(o, n, reader.Stream(), block[..], k, v, pos)
      ensures reader.insufficientData ==> Result(o).Suspend?
    {
      hide ReadBits, ReadSymbol, BitReader.Stream, BitReader.Closed, BitReader.MarkerAhead, BitReader.Valid, Result, Trial, UndoneAll, AtSymbol,
           AtSign, AtAdvance, AtPlace, AtRun, AtTail, Arrives, Advance, TryAdvance, Tail, TryTail, IsDerived, Short, Pow2;
      k, v, run, n := k0, None, 0, n0;
      ghost var s, b := reader.Stream(), block[..];
      AtSymbolStops(o, n0, s, b, k0, pos);
      var sym: nat;
      ok, sym := reader.NextSymbol(d);
      if !ok { return; }
      n := n + 1;
      var r, size := sym / 16, sym % 16;
      ghost var s1 := reader.Stream();
      if size == 0 && r != 15 {
        TakeRunSymbol(o, n0, s, b, k0, pos, s1, sym);
        ok, run, n := RunLength(block, r, k0, o, n, pos);
        return;
      }
      if size != 0 {
        var positive: nat;
        TakeNewSymbol(o, n0, s, b, k0, pos, s1, sym);
        AtSignStops(o, n, s1, b, k0, r, pos);
        ok, positive := reader.Request(1);
        if !ok { return; }
        v := Some(Short(if positive == 1 then Pow2(p.al) else -Pow2(p.al)));
        TakeSign(o, n, s1, b, k0, r, pos, reader.Stream(), positive);
        n := n + 1;
      } else {
        TakeZrl(o, n0, s, b, k0, pos, s1, sym);
      }
      ghost var s2 := reader.Stream();
      ghost var m: nat;
      AtAdvanceStops(o, n, s2, b, k0, r, v, pos);
      ok, k, m := AdvanceOver(block, k0, r);
      if !ok {
        AtAdvanceBreaks(o, n, s2, b, k0, r, v, pos, m, block[..]);
        n := n + m;
        return;
      }
      AtAdvanceArrives(o, n, s2, b, k0, r, v, pos, m, reader.Stream(), k, block[..]);
      n := n + m;
    }

    /** The length of a run that starts at this block. */
    method RunLength(block: array<int>, r: nat, ghost k: nat, ghost o: Start, ghost n0: nat, ghost pos: seq<nat>)
      returns (ok: bool, run: nat, ghost n: nat)
      requires Ready() && reader.Flagged() && block.Length == 64 && block as object != reader && p.ss <= k <= p.se && r < 15
      requires o.p == p && o.t == d.pub && o.Valid() && Places(pos)
      requires !reader.insufficientData ==> AtRun(o, n0, reader.Stream(), block[..], k, r, pos)
      requires reader.insufficientData ==> Result(o).Suspend?
      modifies reader
      ensures reader.Orderly(ok) && run > 0
      ensures !ok ==> Trial(o, n) == UndoneAll(Stopped(block[..]), pos)
      ensures ok && !reader.insufficientData ==> AtTail(o, n, reader.Stream(), block[..], k, run, pos)
      ensures reader.insufficientData ==> Result(o).Suspend?
    {
      hide ReadBits, BitReader.Stream, BitReader.Closed, BitReader.MarkerAhead, BitReader.Valid, Result, Trial, UndoneAll,
           AtRun, AtTail, IsDerived, Pow2;
      ghost var s, b := reader.Stream(), block[..];
      ok, run, n := true, Pow2(r), n0;
      PositivePower(r);
      if r > 0 {
        var low: nat;
        AtRunStops(o, n, s, b, k, r, pos);
        ok, low := reader.Request(r);
        if !ok { return; }
        TakeRunBits(o, n, s, b, k, r, pos, reader.Stream(), low);
        n := n + 1;
        run := run + low;
      } else {
        RunWithoutBits(o, n, s, b, k, pos);
      }
    }

    /** decode_mcu_AC_refine behind the restart logic. */
    method DecodeBlock(block: array<int>) returns (ok: bool, ghost n: nat)
      requires Ready() && reader.Flagged() && block.Length == 64 && block as object != reader
      modifies this`eobrun, reader, block
      ensures Ready() && reader.Flagged() && reader.Closed() == old(reader.Closed())
      ensures old(reader.insufficientData) ==> ok && block[..] == old(block[..]) && eobrun == old(eobrun) && reader.insufficientData
      ensures ok && !reader.insufficientData ==>
                ReadBlock(p, d.pub, old(reader.Stream()), old(block[..]), p.ss, old(eobrun)) == Done(reader.Stream(), (eobrun, block[..]))
      ensures ok && !old(reader.insufficientData) && reader.insufficientData ==>
                ReadBlock(p, d.pub, old(reader.Stream()), old(block[..]), p.ss, old(eobrun)).Suspend?
      ensures !ok ==>
                && TryBlock(p, d.pub, old(reader.Stream()), old(block[..]), old(eobrun), n) == Stopped(block[..])
                && reader.Stream() == old(reader.Stream()) && eobrun == old(eobrun) && !reader.insufficientData
                && reader.input == old(reader.input)
      ensures !ok && IsShortBlock(old(block[..])) ==>
                && IsShortBlock(block[..])
                && SameResult(p, d.pub, reader.Stream(), old(block[..]), block[..], eobrun)
    {
      hide ReadBits, ReadSymbol, BitReader.Stream, BitReader.Closed, BitReader.MarkerAhead, BitReader.Valid, UndoneAll, AtSymbol, ReadBlock, TryBlock,
           AtPlace, AtTail, Tail, TryTail, IsDerived, Zeroed, Reads, SameResult;
      n := 0;
      if reader.insufficientData { return true, n; }
      var buffer, left, input := reader.getBuffer, reader.bitsLeft, reader.input;
      var newnz: seq<nat> := [];
      var run: nat := eobrun;
      ghost var o := Start(p, d.pub, reader.Stream(), block[..], eobrun);
      DerivedReads(d);
      var k := p.ss;
      ok := true;
      StartsBlock(o);
      while ok && run == 0 && k <= p.se
        invariant reader.Orderly(ok) && p.ss <= k && Places(newnz) && eobrun == old(eobrun)
        invariant !ok ==> Trial(o, n) == UndoneAll(Stopped(block[..]), newnz)
        invariant ok && !reader.insufficientData ==>
                    if run > 0 then AtTail(o, n, reader.Stream(), block[..], k, run, newnz)
                    else AtSymbol(o, n, reader.Stream(), block[..], k, newnz)
        invariant reader.insufficientData ==> Result(o).Suspend?
        decreases ok, if run == 0 then 1 else 0, p.se + 1 - k
      {
        var v;
        ok, k, v, run, n := OneSymbol(block, k, o, n, newnz);
        if ok && run == 0 {
          StoreAtPlace(o, n, reader.Stream(), block[..], k, v, newnz);
          if v.Some? {
            block[Place(k)] := v.value;
            newnz := newnz + [Place(k)];
          }
          k := k + 1;
        }
      }
      if ok && run == 0 {
        EndsBlock(o, n, reader.Stream(), block[..], k, newnz);
      } else if ok {
        ghost var s, b := reader.Stream(), block[..];
        ghost var m: nat;
        ok, m := TailOver(block, k);
        TailEnds(o, n, s, b, k, run, newnz, m, reader.Stream(), block[..]);
        n := n + m;
        run := run - 1;
      }
      if ok {
        eobrun := run;
      } else {
        UndoneStopped(block[..], newnz);
        if IsShortBlock(o.b) { StoppedIsSame(o, n, Zeroed(block[..], newnz)); }
        UndoAll(block, newnz);
        reader.NoMarkerYet();
        reader.getBuffer, reader.bitsLeft, reader.input := buffer, left, input;
        reader.RestoredState();
      }
    }

    /** Set the coefficients that became nonzero back to zero. */
    method UndoAll(block: array<int>, newnz: seq<nat>)
      requires block.Length == 64 && Places(newnz)
      modifies block
      ensures block[..] == Zeroed(old(block[..]), newnz)
    {
      var num := |newnz|;
      assert newnz[..num] == newnz;
      while num > 0
        invariant 0 <= num <= |newnz| && Places(newnz[..num])
        invariant Zeroed(block[..], newnz[..num]) == Zeroed(old(block[..]), newnz)
      {
        ghost var b := block[..];
        num := num - 1;
        assert newnz[..num + 1][..num] == newnz[..num];
        block[newnz[num]] := 0;
        assert block[..] == b[newnz[num] := 0];
      }
    }

    // -------------------------------------------------------------- restarts

    predicate RestartDue()
      reads this
    {
      restartInterval != 0 && restartsToGo == 0
    }

    /** Where the next block starts: the bits, and how many blocks are left of a run. None: the restart marker that is due is
        not there. */
    ghost function Begin(): Option<(seq<bool>, nat)>
      reads this, reader
    {
      if RestartDue() then
        var m := reader.MarkerAhead();
        if m.Some? && m.value.0 == RST0 + nextRestartNum then Some((AheadBits(m.value.1), 0)) else None
      else Some((reader.Stream(), eobrun))
    }

    /** process_restart. */
    method ProcessRestart() returns (status: Status)
      requires Ready() && reader.Flagged() && nextRestartNum < 8 && RestartDue()
      modifies this`eobrun, this`restartsToGo, this`nextRestartNum, reader
      ensures status != LostSync ==> Ready() && reader.Flagged() && nextRestartNum < 8
      ensures status == Fine <==> old(Begin()).Some?
      ensures status == Fine ==>
                && !RestartDue() && restartsToGo == restartInterval && nextRestartNum == (old(nextRestartNum) + 1) % 8
                && !reader.insufficientData && Begin() == old(Begin())
                && reader.MarkerAhead() == NextMarker(old(reader.MarkerAhead()).value.1)
      ensures status == Suspended ==>
                && RestartDue() && nextRestartNum == old(nextRestartNum) && eobrun == old(eobrun) && !reader.Closed()
                && reader.unreadMarker == 0 && SameMarker(old(reader.input), reader.input)
    {
      hide NextMarker, AheadBits, Ends, SameMarker, BitReader.Stream, BitReader.Closed, IsDerived;
      var found, lost := reader.Restart(nextRestartNum);
      if lost { return LostSync; }
      if !found { return Suspended; }
      nextRestartNum := (nextRestartNum + 1) % 8;
      eobrun := 0;
      restartsToGo := restartInterval;
      status := Fine;
    }

    /** decode_mcu_AC_refine. */
    method DecodeMcu(block: array<int>) returns (status: Status)
      requires Ready() && reader.Flagged() && nextRestartNum < 8 && block.Length == 64 && block as object != reader
      modifies this`eobrun, this`restartsToGo, this`nextRestartNum, reader, block
      ensures status != LostSync ==> Ready() && reader.Flagged() && nextRestartNum < 8 && Reads(d.pub)
      ensures old(Begin()).None? ==> status != Fine && block[..] == old(block[..])
      ensures old(reader.insufficientData) && !old(RestartDue()) ==> status == Fine && block[..] == old(block[..]) && eobrun == old(eobrun)
      ensures status == Fine && restartInterval != 0 ==>
                restartsToGo == (if old(RestartDue()) then restartInterval else old(restartsToGo)) - 1
      ensures status == Fine && (!old(reader.insufficientData) || old(RestartDue())) && !reader.insufficientData ==>
                && old(Begin()).Some?
                && ReadBlock(p, d.pub, old(Begin()).value.0, old(block[..]), p.ss, old(Begin()).value.1)
                   == Done(reader.Stream(), (eobrun, block[..]))
      ensures status == Fine && (!old(reader.insufficientData) || old(RestartDue())) && reader.insufficientData ==>
                && old(Begin()).Some?
                && ReadBlock(p, d.pub, old(Begin()).value.0, old(block[..]), p.ss, old(Begin()).value.1).Suspend?
      ensures status == Suspended && old(Begin()).Some? ==> Begin() == old(Begin()) && !RestartDue()
      ensures status == Suspended && old(Begin()).Some? && IsShortBlock(old(block[..])) ==>
                SameResult(p, d.pub, reader.Stream(), old(block[..]), block[..], eobrun)
    {
      hide NextMarker, AheadBits, Ends, SameMarker, BitReader.Stream, BitReader.Closed, BitReader.Valid, IsDerived, Reads, ReadBlock,
           SameResult, IsShortBlock;
      DerivedReads(d);
      if restartInterval != 0 {
        if restartsToGo == 0 {
          status := ProcessRestart();
          if status != Fine { return; }
        }
      }
      var ok: bool;
      ghost var n: nat := 0;
      ok, n := DecodeBlock(block);
      if !ok { return Suspended; }
      if restartInterval != 0 { restartsToGo := restartsToGo - 1; }
      status := Fine;
    }
  }

  // ---------------------------------------------------------------- the state of an attempt

  /** What an attempt at a block starts from. */
  datatype Start = Start(p: Band, t: HuffTable, s: seq<bool>, b: Block, run: nat) {
    ghost predicate Valid() { ValidBand(p) && Reads(t) }
  }

  /** The result without interruption. */
  ghost function Result(o: Start): BitRead<(nat, Block)>
    requires o.Valid()
  {
    ReadBlock(o.p, o.t, o.s, o.b, o.p.ss, o.run)
  }

  /** The attempt in which `x` requests are served. */
  ghost function Trial(o: Start, x: nat): Attempt<(nat, Block)>
    requires o.Valid()
  {
    TryBlock(o.p, o.t, o.s, o.b, o.run, x)
  }

  ghost function Stored(b: Block, k: nat, v: Option<int>): Block {
    if v.Some? then b[Place(k) := v.value] else b
  }

  ghost function Then(p: Band, t: HuffTable, s: seq<bool>, b: Block, k: nat, v: Option<int>): BitRead<(nat, Block)>
    requires ValidBand(p) && Reads(t) && p.ss <= k
  {
    Symbols(p, t, s, Stored(b, k, v), k + 1)
  }

  ghost function TryThen(p: Band, t: HuffTable, s: seq<bool>, b: Block, k: nat, v: Option<int>, n: nat): Attempt<(nat, Block)>
    requires ValidBand(p) && Reads(t) && p.ss <= k
  {
    var x := TrySymbols(p, t, s, Stored(b, k, v), k + 1, n);
    if v.Some? then Undone(x, Place(k)) else x
  }

  ghost function AdvanceThen(p: Band, t: HuffTable, s: seq<bool>, b: Block, k: nat, r: nat, v: Option<int>): BitRead<(nat, Block)>
    requires ValidBand(p) && Reads(t) && p.ss <= k <= p.se
  {
    var (s3, x) :- Advance(p, s, b, k, r);
    Then(p, t, s3, x.1, x.0, v)
  }

  ghost function TryAdvanceThen(p: Band, t: HuffTable, s: seq<bool>, b: Block, k: nat, r: nat, v: Option<int>, n: nat)
    : Attempt<(nat, Block)>
    requires ValidBand(p) && Reads(t) && p.ss <= k <= p.se
  {
    match TryAdvance(p, s, b, k, r, n)
    case Stopped(b1) => Stopped(b1)
    case Went(s2, n2, x) => TryThen(p, t, s2, x.1, x.0, v, n2)
  }

  ghost function TailThen(p: Band, s: seq<bool>, b: Block, k: nat, run: nat): BitRead<(nat, Block)>
    requires ValidBand(p) && run > 0
  {
    var (s3, b3) :- Tail(p, s, b, k);
    Done(s3, (run - 1, b3))
  }

  ghost function TryTailThen(p: Band, s: seq<bool>, b: Block, k: nat, run: nat, n: nat): Attempt<(nat, Block)>
    requires ValidBand(p) && run > 0
  {
    match TryTail(p, s, b, k, n)
    case Stopped(b1) => Stopped(b1)
    case Went(s2, n2, b2) => Went(s2, n2, (run - 1, b2))
  }

  /** After `n` requests the attempt is before a symbol, and has made the coefficients at `pos` nonzero. */
  ghost predicate AtSymbol(o: Start, n: nat, s: seq<bool>, b: Block, k: nat, pos: seq<nat>)
    requires o.Valid() && Places(pos) && o.p.ss <= k
  {
    && Result(o) == Symbols(o.p, o.t, s, b, k)
    && forall x: nat {:trigger Trial(o, x)} :: n <= x ==> Trial(o, x) == UndoneAll(TrySymbols(o.p, o.t, s, b, k, x - n), pos)
  }

  /** Before the sign bit of a new coefficient. */
  ghost predicate AtSign(o: Start, n: nat, s: seq<bool>, b: Block, k: nat, r: nat, pos: seq<nat>)
    requires o.Valid() && Places(pos) && o.p.ss <= k <= o.p.se
  {
    && Result(o) == NewAndOn(o.p, o.t, s, b, k, r)
    && forall x: nat {:trigger Trial(o, x)} :: n <= x ==> Trial(o, x) == UndoneAll(TryNew(o.p, o.t, s, b, k, r, x - n), pos)
  }

  /** Before the way to the place of `v`. */
  ghost predicate AtAdvance(o: Start, n: nat, s: seq<bool>, b: Block, k: nat, r: nat, v: Option<int>, pos: seq<nat>)
    requires o.Valid() && Places(pos) && o.p.ss <= k <= o.p.se
  {
    && Result(o) == AdvanceThen(o.p, o.t, s, b, k, r, v)
    && forall x: nat {:trigger Trial(o, x)} :: n <= x ==> Trial(o, x) == UndoneAll(TryAdvanceThen(o.p, o.t, s, b, k, r, v, x - n), pos)
  }

  /** At that place. */
  ghost predicate AtPlace(o: Start, n: nat, s: seq<bool>, b: Block, k: nat, v: Option<int>, pos: seq<nat>)
    requires o.Valid() && Places(pos) && o.p.ss <= k
  {
    && Result(o) == Then(o.p, o.t, s, b, k, v)
    && forall x: nat {:trigger Trial(o, x)} :: n <= x ==> Trial(o, x) == UndoneAll(TryThen(o.p, o.t, s, b, k, v, x - n), pos)
  }

  /** Before the low bits of a run length. */
  ghost predicate AtRun(o: Start, n: nat, s: seq<bool>, b: Block, k: nat, r: nat, pos: seq<nat>)
    requires o.Valid() && Places(pos) && o.p.ss <= k
  {
    && Result(o) == RunAndTail(o.p, s, b, k, r)
    && forall x: nat {:trigger Trial(o, x)} :: n <= x ==> Trial(o, x) == UndoneAll(TryRun(o.p, s, b, k, r, x - n), pos)
  }

  /** Before the correction bits behind the end of the band. */
  ghost predicate AtTail(o: Start, n: nat, s: seq<bool>, b: Block, k: nat, run: nat, pos: seq<nat>)
    requires o.Valid() && Places(pos) && o.p.ss <= k && run > 0
  {
    && Result(o) == TailThen(o.p, s, b, k, run)
    && forall x: nat {:trigger Trial(o, x)} :: n <= x ==> Trial(o, x) == UndoneAll(TryTailThen(o.p, s, b, k, run, x - n), pos)
  }

  lemma AtSymbolStops(o: Start, n: nat, s: seq<bool>, b: Block, k: nat, pos: seq<nat>)
    requires o.Valid() && Places(pos) && o.p.ss <= k <= o.p.se
    ensures AtSymbol(o, n, s, b, k, pos) ==> Trial(o, n) == UndoneAll(Stopped(b), pos)
    ensures AtSymbol(o, n, s, b, k, pos) && ReadSymbol(o.t, s).Suspend? ==> Result(o).Suspend?
  {
    hide Result, Trial, UndoneAll, Advance, TryAdvance, Tail, TryTail, ReadBits, ReadSymbol, Reads, Short, Pow2;
  }

  lemma TakeNewSymbol(o: Start, n: nat, s: seq<bool>, b: Block, k: nat, pos: seq<nat>, s1: seq<bool>, sym: nat)
    requires o.Valid() && Places(pos) && o.p.ss <= k <= o.p.se && sym % 16 != 0
    ensures AtSymbol(o, n, s, b, k, pos) && ReadSymbol(o.t, s) == Done(s1, sym) ==> AtSign(o, n + 1, s1, b, k, sym / 16, pos)
  {
    hide Result, Trial, UndoneAll, Advance, TryAdvance, Tail, TryTail, ReadBits, ReadSymbol, Reads, Short, Pow2;
  }

  lemma TakeRunSymbol(o: Start, n: nat, s: seq<bool>, b: Block, k: nat, pos: seq<nat>, s1: seq<bool>, sym: nat)
    requires o.Valid() && Places(pos) && o.p.ss <= k <= o.p.se && sym % 16 == 0 && sym / 16 != 15
    ensures AtSymbol(o, n, s, b, k, pos) && ReadSymbol(o.t, s) == Done(s1, sym) ==> AtRun(o, n + 1, s1, b, k, sym / 16, pos)
  {
    hide Result, Trial, UndoneAll, Advance, TryAdvance, Tail, TryTail, ReadBits, ReadSymbol, Reads, Short, Pow2;
  }

  lemma TakeZrl(o: Start, n: nat, s: seq<bool>, b: Block, k: nat, pos: seq<nat>, s1: seq<bool>, sym: nat)
    requires o.Valid() && Places(pos) && o.p.ss <= k <= o.p.se && sym % 16 == 0 && sym / 16 == 15
    ensures AtSymbol(o, n, s, b, k, pos) && ReadSymbol(o.t, s) == Done(s1, sym) ==> AtAdvance(o, n + 1, s1, b, k, 15, None, pos)
  {
    hide Result, Trial, UndoneAll, Advance, TryAdvance, Tail, TryTail, ReadBits, ReadSymbol, Reads, Short, Pow2;
  }

  lemma AtSignStops(o: Start, n: nat, s: seq<bool>, b: Block, k: nat, r: nat, pos: seq<nat>)
    requires o.Valid() && Places(pos) && o.p.ss <= k <= o.p.se
    ensures AtSign(o, n, s, b, k, r, pos) ==> Trial(o, n) == UndoneAll(Stopped(b), pos)
    ensures AtSign(o, n, s, b, k, r, pos) && ReadBits(1, s).Suspend? ==> Result(o).Suspend?
  {
    hide Result, Trial, UndoneAll, Symbols, TrySymbols, Advance, TryAdvance, Tail, TryTail, ReadBits, ReadSymbol, Reads, Short, Pow2;
  }

  lemma TakeSign(o: Start, n: nat, s: seq<bool>, b: Block, k: nat, r: nat, pos: seq<nat>, s1: seq<bool>, positive: nat)
    requires o.Valid() && Places(pos) && o.p.ss <= k <= o.p.se
    ensures AtSign(o, n, s, b, k, r, pos) && ReadBits(1, s) == Done(s1, positive) ==>
              AtAdvance(o, n + 1, s1, b, k, r, Some(Short(if positive == 1 then Pow2(o.p.al) else -Pow2(o.p.al))), pos)
  {
    hide Result, Trial, UndoneAll, Symbols, TrySymbols, Advance, TryAdvance, Tail, TryTail, ReadBits, ReadSymbol, Reads, Short, Pow2;
  }

  lemma AtRunStops(o: Start, n: nat, s: seq<bool>, b: Block, k: nat, r: nat, pos: seq<nat>)
    requires o.Valid() && Places(pos) && o.p.ss <= k && r > 0
    ensures AtRun(o, n, s, b, k, r, pos) ==> Trial(o, n) == UndoneAll(Stopped(b), pos)
    ensures AtRun(o, n, s, b, k, r, pos) && ReadBits(r, s).Suspend? ==> Result(o).Suspend?
  {
    hide Result, Trial, UndoneAll, Symbols, TrySymbols, Advance, TryAdvance, Tail, TryTail, ReadBits, ReadSymbol, Reads, Short, Pow2;
  }

  lemma TakeRunBits(o: Start, n: nat, s: seq<bool>, b: Block, k: nat, r: nat, pos: seq<nat>, s1: seq<bool>, low: nat)
    requires o.Valid() && Places(pos) && o.p.ss <= k && r > 0
    ensures AtRun(o, n, s, b, k, r, pos) && ReadBits(r, s) == Done(s1, low) ==> Pow2(r) + low > 0 && AtTail(o, n + 1, s1, b, k, Pow2(r) + low, pos)
  {
    hide Result, Trial, UndoneAll, Symbols, TrySymbols, Advance, TryAdvance, Tail, TryTail, ReadBits, ReadSymbol, Reads, Short, Pow2;
    PositivePower(r);
  }

  lemma RunWithoutBits(o: Start, n: nat, s: seq<bool>, b: Block, k: nat, pos: seq<nat>)
    requires o.Valid() && Places(pos) && o.p.ss <= k
    ensures Pow2(0) == 1
    ensures AtRun(o, n, s, b, k, 0, pos) ==> AtTail(o, n, s, b, k, 1, pos)
  {
    hide Result, Trial, UndoneAll, Symbols, TrySymbols, Advance, TryAdvance, Tail, TryTail, ReadBits, ReadSymbol, Reads;
    NoBitsNeeded(s);
  }

  lemma AtAdvanceStops(o: Start, n: nat, s: seq<bool>, b: Block, k: nat, r: nat, v: Option<int>, pos: seq<nat>)
    requires o.Valid() && Places(pos) && o.p.ss <= k <= o.p.se
    ensures AtAdvance(o, n, s, b, k, r, v, pos) && Advance(o.p, s, b, k, r).Suspend? ==> Result(o).Suspend?
  {
    hide Result, Trial, UndoneAll, Symbols, TrySymbols, Advance, TryAdvance, Tail, TryTail, ReadBits, ReadSymbol, Reads, Short, Pow2;
  }

  lemma AtAdvanceBreaks(o: Start, n: nat, s: seq<bool>, b: Block, k: nat, r: nat, v: Option<int>, pos: seq<nat>, m: nat, b1: Block)
    requires o.Valid() && Places(pos) && o.p.ss <= k <= o.p.se
    ensures AtAdvance(o, n, s, b, k, r, v, pos) && TryAdvance(o.p, s, b, k, r, m) == Stopped(b1) ==>
              Trial(o, n + m) == UndoneAll(Stopped(b1), pos)
  {
    hide Result, Trial, UndoneAll, Symbols, TrySymbols, Advance, TryAdvance, Tail, TryTail, ReadBits, ReadSymbol, Reads, Short, Pow2;
  }

  lemma AtAdvanceArrives(o: Start, n: nat, s: seq<bool>, b: Block, k: nat, r: nat, v: Option<int>, pos: seq<nat>, m: nat, s1: seq<bool>, k1: nat, b1: Block)
    requires o.Valid() && Places(pos) && o.p.ss <= k <= o.p.se && k <= k1
    ensures AtAdvance(o, n, s, b, k, r, v, pos) && Arrives(o.p, s, b, k, r, m, s1, k1, b1) ==> AtPlace(o, n + m, s1, b1, k1, v, pos)
  {
    hide Result, Trial, UndoneAll, Symbols, TrySymbols, Advance, TryAdvance, Tail, TryTail, ReadBits, ReadSymbol, Reads, Short, Pow2, Then, TryThen;
  }

  lemma StoreAtPlace(o: Start, n: nat, s: seq<bool>, b: Block, k: nat, v: Option<int>, pos: seq<nat>)
    requires o.Valid() && Places(pos) && o.p.ss <= k
    ensures var pos1 := if v.Some? then pos + [Place(k)] else pos;
            Places(pos1) && (AtPlace(o, n, s, b, k, v, pos) ==> AtSymbol(o, n, s, Stored(b, k, v), k + 1, pos1))
  {
    hide Result, Trial, UndoneAll, Symbols, TrySymbols, Advance, TryAdvance, Tail, TryTail, ReadBits, ReadSymbol, Reads, Short, Pow2;
    var b1 := Stored(b, k, v);
    if v.Some? && AtPlace(o, n, s, b, k, v, pos) {
      forall x: nat | n <= x
        ensures Trial(o, x) == UndoneAll(TrySymbols(o.p, o.t, s, b1, k + 1, x - n), pos + [Place(k)])
      {
        UndoneOneMore(TrySymbols(o.p, o.t, s, b1, k + 1, x - n), pos, Place(k));
      }
    }
  }

  lemma StartsBlock(o: Start)
    requires o.Valid()
    ensures if o.run > 0 then AtTail(o, 0, o.s, o.b, o.p.ss, o.run, []) else AtSymbol(o, 0, o.s, o.b, o.p.ss, [])
  {
    hide Symbols, TrySymbols, Tail, TryTail, Reads;
  }

  lemma EndsBlock(o: Start, n: nat, s: seq<bool>, b: Block, k: nat, pos: seq<nat>)
    requires o.Valid() && Places(pos) && o.p.se < k
    ensures AtSymbol(o, n, s, b, k, pos) ==> Result(o) == Done(s, (0, b))
  {
    hide Result, Trial, UndoneAll, Advance, TryAdvance, Tail, TryTail, ReadBits, ReadSymbol, Reads, Short, Pow2;
  }

  lemma TailEnds(o: Start, n: nat, s: seq<bool>, b: Block, k: nat, run: nat, pos: seq<nat>, m: nat, s1: seq<bool>, b1: Block)
    requires o.Valid() && Places(pos) && o.p.ss <= k && run > 0
    ensures AtTail(o, n, s, b, k, run, pos) && TryTail(o.p, s, b, k, m) == Stopped(b1) ==> Trial(o, n + m) == UndoneAll(Stopped(b1), pos)
    ensures AtTail(o, n, s, b, k, run, pos) && Tail(o.p, s, b, k) == Done(s1, b1) ==> Result(o) == Done(s1, (run - 1, b1))
    ensures AtTail(o, n, s, b, k, run, pos) && Tail(o.p, s, b, k).Suspend? ==> Result(o).Suspend?
  {
    hide Result, Trial, UndoneAll, Symbols, TrySymbols, Advance, TryAdvance, Tail, TryTail, ReadBits, ReadSymbol, Reads, Short, Pow2;
  }

  lemma DerivedReads(d: DerivedTable)
    requires IsDerived(d)
    ensures Reads(d.pub)
  {
    hide DecoderTables;
  }

  // ---------------------------------------------------------------- the tail

  /** After `n` requests the run over the tail from `k0` is at `s`, `b`, `k`. */
  ghost predicate Trailing(p: Band, s0: seq<bool>, b0: Block, k0: nat, n: nat, s: seq<bool>, b: Block, k: nat)
    requires ValidBand(p)
  {
    && Tail(p, s0, b0, k0) == Tail(p, s, b, k)
    && forall x: nat :: n <= x ==> TryTail(p, s0, b0, k0, x) == TryTail(p, s, b, k, x - n)
  }

  lemma TrailingStarts(p: Band, s: seq<bool>, b: Block, k: nat)
    requires ValidBand(p)
    ensures Trailing(p, s, b, k, 0, s, b, k)
  {
  }

  lemma TrailingZero(p: Band, s0: seq<bool>, b0: Block, k0: nat, n: nat, s: seq<bool>, b: Block, k: nat)
    requires ValidBand(p) && k <= p.se && b[k] == 0
    ensures Trailing(p, s0, b0, k0, n, s, b, k) ==> Trailing(p, s0, b0, k0, n, s, b, k + 1)
  {
    hide ReadBits, CorrectAt;
    if Trailing(p, s0, b0, k0, n, s, b, k) {
      forall y: nat | n <= y ensures TryTail(p, s0, b0, k0, y) == TryTail(p, s, b, k + 1, y - n) {
        assert TryTail(p, s0, b0, k0, y) == TryTail(p, s, b, k, y - n);
      }
    }
  }

  lemma TrailingStops(p: Band, s0: seq<bool>, b0: Block, k0: nat, n: nat, s: seq<bool>, b: Block, k: nat)
    requires ValidBand(p) && k <= p.se && b[k] != 0
    ensures Trailing(p, s0, b0, k0, n, s, b, k) ==> TryTail(p, s0, b0, k0, n) == Stopped(b)
    ensures Trailing(p, s0, b0, k0, n, s, b, k) && ReadBits(1, s).Suspend? ==> Tail(p, s0, b0, k0).Suspend?
  {
    hide ReadBits;
    if Trailing(p, s0, b0, k0, n, s, b, k) {
      assert TryTail(p, s0, b0, k0, n) == TryTail(p, s, b, k, 0) == Stopped(b);
    }
  }

  lemma TrailingBit(p: Band, s0: seq<bool>, b0: Block, k0: nat, n: nat, s: seq<bool>, b: Block, k: nat)
    requires ValidBand(p) && k <= p.se && b[k] != 0
    ensures var x := ReadBits(1, s);
            Trailing(p, s0, b0, k0, n, s, b, k) && x.Done? ==>
              Trailing(p, s0, b0, k0, n + 1, x.rest, CorrectAt(b, k, p.al, x.v), k + 1)
  {
    hide ReadBits, CorrectAt;
    var x := ReadBits(1, s);
    if Trailing(p, s0, b0, k0, n, s, b, k) && x.Done? {
      var b1 := CorrectAt(b, k, p.al, x.v);
      forall y: nat | n + 1 <= y ensures TryTail(p, s0, b0, k0, y) == TryTail(p, x.rest, b1, k + 1, y - (n + 1)) {
        assert TryTail(p, s0, b0, k0, y) == TryTail(p, s, b, k, y - n);
      }
    }
  }

  lemma TrailingEnds(p: Band, s0: seq<bool>, b0: Block, k0: nat, n: nat, s: seq<bool>, b: Block, k: nat)
    requires ValidBand(p) && p.se < k
    ensures Trailing(p, s0, b0, k0, n, s, b, k) ==>
              && Tail(p, s0, b0, k0) == Done(s, b)
              && forall x: nat :: n <= x ==> TryTail(p, s0, b0, k0, x) == Went(s, x - n, b)
  {
  }

  // ---------------------------------------------------------------- the way to a place

  /** After `n` requests the run that started with `s0`, `b0`, `k0`, `r0` is at `s`, `b`, `k`, `r`. */
  ghost predicate Passing(p: Band, s0: seq<bool>, b0: Block, k0: nat, r0: nat, n: nat, s: seq<bool>, b: Block, k: nat, r: nat)
    requires ValidBand(p) && p.ss <= k0 <= p.se && p.ss <= k <= p.se
  {
    && Advance(p, s0, b0, k0, r0) == Advance(p, s, b, k, r)
    && forall x: nat :: n <= x ==> TryAdvance(p, s0, b0, k0, r0, x) == TryAdvance(p, s, b, k, r, x - n)
  }

  /** After `n` requests it is over. */
  ghost predicate Arrives(p: Band, s0: seq<bool>, b0: Block, k0: nat, r0: nat, n: nat, rest: seq<bool>, k: nat, b: Block)
    requires ValidBand(p) && p.ss <= k0 <= p.se
  {
    && Advance(p, s0, b0, k0, r0) == Done(rest, (k, b))
    && forall x: nat :: n <= x ==> TryAdvance(p, s0, b0, k0, r0, x) == Went(rest, x - n, (k, b))
  }

  lemma PassingStarts(p: Band, s: seq<bool>, b: Block, k: nat, r: nat)
    requires ValidBand(p) && p.ss <= k <= p.se
    ensures Passing(p, s, b, k, r, 0, s, b, k, r)
  {
  }

  lemma PassingStops(p: Band, s0: seq<bool>, b0: Block, k0: nat, r0: nat, n: nat, s: seq<bool>, b: Block, k: nat, r: nat)
    requires ValidBand(p) && p.ss <= k0 <= p.se && p.ss <= k <= p.se && b[k] != 0
    ensures Passing(p, s0, b0, k0, r0, n, s, b, k, r) ==> TryAdvance(p, s0, b0, k0, r0, n) == Stopped(b)
    ensures ReadBits(1, s).Suspend? ==> Advance(p, s, b, k, r).Suspend?
    ensures Passing(p, s0, b0, k0, r0, n, s, b, k, r) ==> Advance(p, s0, b0, k0, r0) == Advance(p, s, b, k, r)
  {
    hide ReadBits;
    if Passing(p, s0, b0, k0, r0, n, s, b, k, r) {
      assert TryAdvance(p, s0, b0, k0, r0, n) == TryAdvance(p, s, b, k, r, 0) == Stopped(b);
    }
  }

  lemma PassingBit(p: Band, s0: seq<bool>, b0: Block, k0: nat, r0: nat, n: nat, s: seq<bool>, b: Block, k: nat, r: nat)
    requires ValidBand(p) && p.ss <= k0 <= p.se && p.ss <= k <= p.se && b[k] != 0
    ensures var x := ReadBits(1, s);
            Passing(p, s0, b0, k0, r0, n, s, b, k, r) && x.Done? ==>
              var b1 := CorrectAt(b, k, p.al, x.v);
              if k == p.se then Arrives(p, s0, b0, k0, r0, n + 1, x.rest, k + 1, b1)
              else Passing(p, s0, b0, k0, r0, n + 1, x.rest, b1, k + 1, r)
  {
    hide ReadBits, CorrectAt;
    var x := ReadBits(1, s);
    if Passing(p, s0, b0, k0, r0, n, s, b, k, r) && x.Done? {
      var b1 := CorrectAt(b, k, p.al, x.v);
      forall y: nat | n + 1 <= y
        ensures TryAdvance(p, s0, b0, k0, r0, y)
             == if k == p.se then Went(x.rest, y - (n + 1), (k + 1, b1)) else TryAdvance(p, x.rest, b1, k + 1, r, y - (n + 1))
      {
        assert TryAdvance(p, s0, b0, k0, r0, y) == TryAdvance(p, s, b, k, r, y - n);
      }
    }
  }

  lemma PassingZero(p: Band, s0: seq<bool>, b0: Block, k0: nat, r0: nat, n: nat, s: seq<bool>, b: Block, k: nat, r: nat)
    requires ValidBand(p) && p.ss <= k0 <= p.se && p.ss <= k <= p.se && b[k] == 0
    ensures Passing(p, s0, b0, k0, r0, n, s, b, k, r) ==>
              if r == 0 then Arrives(p, s0, b0, k0, r0, n, s, k, b)
              else if k == p.se then Arrives(p, s0, b0, k0, r0, n, s, k + 1, b)
              else Passing(p, s0, b0, k0, r0, n, s, b, k + 1, r - 1)
  {
    if Passing(p, s0, b0, k0, r0, n, s, b, k, r) {
      forall y: nat | n <= y
        ensures TryAdvance(p, s0, b0, k0, r0, y)
             == if r == 0 then Went(s, y - n, (k, b)) else if k == p.se then Went(s, y - n, (k + 1, b))
                else TryAdvance(p, s, b, k + 1, r - 1, y - n)
      {
        assert TryAdvance(p, s0, b0, k0, r0, y) == TryAdvance(p, s, b, k, r, y - n);
      }
    }
  }
}
