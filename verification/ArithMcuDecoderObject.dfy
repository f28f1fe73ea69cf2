/** MCU decoding with the arithmetic coder (jdarith.c): the loops that ask for decisions and store coefficients,
    DC predictions kept in place, restart markers. Blocks are given in zigzag order. */
module ArithMcuDecoderObject {
  import opened Wrappers
  import opened Markers
  import opened EstimationTable
  import opened Bytes
  import opened ArithCoding
  import opened ArithDecoding
  import opened ArithModel
  import opened ArithRefinement
  import opened ArithScan
  import opened Arithmetic
  import opened PointTransform
  import opened ArithDecoderObject

  /** SourceDry: the error exit when no byte can be supplied. Damaged: a code that no encoder writes was met, and
      the rest of the interval is given up. LostSync: the expected restart marker is not there. */
  datatype Status = Fine | SourceDry | Damaged | LostSync

  class ArithMcuDecoder {
    const coder: ArithDecoder
    const params: ScanParams
    var lastDc: seq<int>
    var dcContext: seq<nat>
    const restartInterval: nat
    var restartsToGo: nat
    var nextRestartNum: nat

    ghost function Run(): DecRun
      reads coder, coder.stats
    {
      DecRun(coder.Regs(), coder.stats[..])
    }

    ghost predicate Ready()
      reads coder, coder.stats
    {
      coder.stats.Length == NUM_BINS && ValidScan(params) && Readable(Run())
    }

    /** Between MCUs, the arithmetic decoder is either in a proper state or marked with -1 as damaged. */
    ghost predicate Valid()
      reads this, coder, coder.stats
    {
      && coder.stats.Length == NUM_BINS && ValidScan(params) && nextRestartNum < 8
      && ValidPredictions(params, Predictions(lastDc, dcContext))
      && (coder.ct == -1 || Readable(Run()))
    }

    /** The outcome of a method agrees with what the value-level reader gives. */
    ghost predicate Matches<T>(x: Read<T>, status: Status, v: T)
      reads coder, coder.stats
    {
      match status
      case Fine => x == Got(Run(), v)
      case SourceDry => x == Dry
      case Damaged => x == Bad
      case LostSync => false
    }

    constructor (coder: ArithDecoder, params: ScanParams, restartInterval: nat)
      requires coder.Valid() && coder.stats.Length == NUM_BINS && ValidScan(params)
      ensures this.coder == coder && this.params == params && this.restartInterval == restartInterval
      ensures Valid() && Predictions(lastDc, dcContext) == ResetPredictions(params)
      ensures restartsToGo == restartInterval && nextRestartNum == 0
    {
      this.coder, this.params, this.restartInterval := coder, params, restartInterval;
      lastDc, dcContext := seq(|params.comps|, _ => 0), seq(|params.comps|, _ => 0);
      restartsToGo, nextRestartNum := restartInterval, 0;
    }

    /** One decision. */
    method Ask(bin: nat) returns (status: Status, bit: bool)
      requires Ready() && bin < NUM_BINS
      modifies coder, coder.stats
      ensures Matches(ReadBit(old(Run()), bin), status, bit)
      ensures status.Fine? ==> Ready()
    {
      hide Decode;
      var ok: bool;
      ok, bit := coder.ArithDecode(bin);
      status := if ok then Fine else SourceDry;
    }

    /** Figure F.23 from category bin `from` on, with the magnitude `m0` so far. */
    method DecodeCategory(from: nat, m0: int) returns (status: Status, m: int, st: nat)
      requires Ready() && IsBit(m0) && m0 <= 0x4000 && from + Room(m0) < NUM_BINS
      modifies coder, coder.stats
      ensures Matches(ReadCategory(old(Run()), from, m0), status, (m, st))
      ensures status.Fine? ==> Ready() && IsBit(m) && st <= from + Room(m0)
    {
      hide ReadBit, Readable, ReadCategory, Room;
      m, st := m0, from;
      var more: bool;
      CategoryStep(Run(), st, m);
      status, more := Ask(st);
      while status.Fine? && more
        invariant IsBit(m) && m <= 0x4000 && st + Room(m) <= from + Room(m0)
        invariant status.Fine? ==> Ready()
        invariant status.Fine? && !more ==> ReadCategory(old(Run()), from, m0) == Got(Run(), (m, st))
        invariant status.Fine? && more ==> ReadCategory(old(Run()), from, m0) == AfterCategoryBit(Run(), st, m)
        invariant !status.Fine? ==> Matches(ReadCategory(old(Run()), from, m0), status, (m, st))
        decreases if status.Fine? && more then 0x8000 - m else 0
      {
        CategoryLimit(m);
        m := 2 * m;
        if m == 0x8000 {
          status := Damaged;
          return;
        }
        st := st + 1;
        CategoryStep(Run(), st, m);
        status, more := Ask(st);
      }
    }

    /** Figure F.24: the bits below the top bit `top`. */
    method DecodePattern(st: nat, top: int) returns (status: Status, v: int)
      requires Ready() && 0 <= top && st < NUM_BINS
      modifies coder, coder.stats
      ensures Matches(ReadPattern(old(Run()), st, top, top), status, v)
      ensures status.Fine? ==> Ready()
    {
      hide ReadBit, Readable, OrBit;
      status, v := Fine, top;
      var m := top;
      while m / 2 != 0
        invariant 0 <= m && status.Fine? && Ready()
        invariant ReadPattern(Run(), st, m, v) == ReadPattern(old(Run()), st, top, top)
      {
        m := m / 2;
        var bit: bool;
        status, bit := Ask(st);
        if !status.Fine? { return; }
        if bit {
          v := OrBit(v, m);
        }
      }
    }

    method DecodeMagnitude(st: nat, m0: int) returns (status: Status, v: int, m: int)
      requires Ready() && IsBit(m0) && m0 <= 0x4000 && st + Room(m0) + 14 < NUM_BINS
      modifies coder, coder.stats
      ensures Matches(ReadMagnitude(old(Run()), st, m0), status, (v, m))
      ensures status.Fine? ==> Ready()
    {
      hide ReadCategory, ReadPattern, Readable;
      var end: nat;
      v := 0;
      status, m, end := DecodeCategory(st, m0);
      if !status.Fine? { return; }
      status, v := DecodePattern(end + 14, m);
    }

    /** Figures F.19 to F.24: a DC difference of component `ci`, added to its prediction. */
    method DecodeDc(ci: nat) returns (status: Status)
      requires Ready() && ValidPredictions(params, Predictions(lastDc, dcContext)) && ci < |params.comps|
      modifies this`lastDc, this`dcContext, coder, coder.stats
      ensures var t := params.comps[ci];
              var x := ReadDc(old(Run()), DcArea(t.dcTbl), t.bounds, old(dcContext[ci]));
              && (!status.Fine? ==> Matches(x, status, (0, 0)))
              && (status.Fine? ==>
                    && Ready() && x.Got? && x.r == Run()
                    && lastDc == old(lastDc)[ci := old(lastDc[ci]) + x.v.0]
                    && dcContext == old(dcContext)[ci := x.v.1])
      ensures ValidPredictions(params, Predictions(lastDc, dcContext))
    {
      hide ReadBit, Readable, ReadDcMagnitude, Pow2;
      var t := params.comps[ci];
      var st := DcArea(t.dcTbl) + dcContext[ci];
      var nonzero, negative: bool;
      status, nonzero := Ask(st);
      if !status.Fine? { return; }
      if !nonzero {
        dcContext := dcContext[ci := 0];
      } else {
        status, negative := Ask(st + 1);
        if !status.Fine? { return; }
        st := st + 2 + if negative then 1 else 0;
        var v, m: int;
        status, v, m := DecodeDcMagnitude(DcArea(t.dcTbl), st);
        if !status.Fine? { return; }
        dcContext := dcContext[ci := if m < Pow2(t.bounds.lower) / 2 then 0
                                     else if m > Pow2(t.bounds.upper) / 2 then 12 + (if negative then 4 else 0)
                                     else 4 + (if negative then 4 else 0)];
        v := v + 1;
        if negative {
          v := -v;
        }
        lastDc := lastDc[ci := lastDc[ci] + v];
      }
    }

    method DecodeDcMagnitude(area: nat, st: nat) returns (status: Status, v: int, m: int)
      requires Ready() && area + DC_STAT_BINS <= NUM_BINS && st < NUM_BINS
      modifies coder, coder.stats
      ensures Matches(ReadDcMagnitude(old(Run()), area, st), status, (v, m))
      ensures status.Fine? ==> Ready()
    {
      hide ReadBit, Readable, ReadMagnitude;
      RoomAtStart();
      v, m := 0, 0;
      var more: bool;
      status, more := Ask(st);
      if status.Fine? && more {
        status, v, m := DecodeMagnitude(area + 20, 1);
      }
    }

    method DecodeAcMagnitude(s: AcScan, k: nat) returns (status: Status, v: int)
      requires Ready() && ValidAcScan(s) && 1 <= k <= 63
      modifies coder, coder.stats
      ensures Matches(ReadAcMagnitude(old(Run()), s.area, s.kx, k), status, v)
      ensures status.Fine? ==> Ready()
    {
      hide ReadBit, Readable, ReadMagnitude;
      RoomAtStart();
      assert IsBit(2);
      var st := Position(s.area, k) + 2;
      var more: bool;
      v := 0;
      status, more := Ask(st);
      if !status.Fine? || !more { return; }
      v := 1;
      status, more := Ask(st);
      if !status.Fine? || !more { return; }
      var m: int;
      status, v, m := DecodeMagnitude(AcCategoryBin(s.area, s.kx, k), 2);
    }

    method DecodeAcCoefficient(s: AcScan, k: nat) returns (status: Status, v: int)
      requires Ready() && ValidAcScan(s) && 1 <= k <= s.se
      modifies coder, coder.stats
      ensures Matches(ReadAcCoefficient(s, old(Run()), k), status, v)
      ensures status.Fine? ==> Ready()
    {
      hide ReadBit, Readable, ReadAcMagnitude, Short;
      v := 0;
      var negative: bool;
      status, negative := Ask(FIXED_BIN);
      if !status.Fine? { return; }
      status, v := DecodeAcMagnitude(s, k);
      if !status.Fine? { return; }
      v := v + 1;
      if negative {
        v := -v;
      }
      v := Short(v * Pow2(s.al));
    }

    /** Figure F.20 over the band that starts at `first`. */
    method DecodeAcBand(s: AcScan, b: Block, first: nat) returns (status: Status, z: Block)
      requires Ready() && ValidAcScan(s) && 1 <= first
      modifies coder, coder.stats
      ensures Matches(ReadAc(s, old(Run()), b, first, true), status, z)
      ensures status.Fine? ==> Ready()
    {
      hide ReadBit, Readable, ReadAcCoefficient;
      status, z := Fine, b;
      var k := first;
      while k <= s.se
        invariant 1 <= k && status.Fine? && Ready()
        invariant ReadAc(s, Run(), z, k, true) == ReadAc(s, old(Run()), b, first, true)
      {
        var eob: bool;
        status, eob := Ask(Position(s.area, k));
        if !status.Fine? || eob { return; }
        ghost var target := ReadAc(s, Run(), z, k, false);
        status, k := SkipZeros(s, z, k, target);
        if !status.Fine? { return; }
        var v: int;
        status, v := DecodeAcCoefficient(s, k);
        if !status.Fine? { return; }
        z := z[k := v];
        k := k + 1;
      }
    }

    /** How the band goes on after a nonzero decision at `k`. */
    ghost function AfterNonzero(s: AcScan, r: DecRun, z: Block, k: nat): Read<Block>
      requires ValidAcScan(s) && Readable(r) && 1 <= k <= s.se
    {
      hide Readable, ReadAcCoefficient;
      var (r2, v) :- ReadAcCoefficient(s, r, k);
      ReadAc(s, r2, z[k := v], k + 1, true)
    }

    method SkipZeros(s: AcScan, z: Block, from: nat, ghost target: Read<Block>) returns (status: Status, k: nat)
      requires Ready() && ValidAcScan(s) && 1 <= from <= s.se && target == ReadAc(s, Run(), z, from, false)
      modifies coder, coder.stats
      ensures status.Fine? ==> Ready() && from <= k <= s.se && target == AfterNonzero(s, Run(), z, k)
      ensures !status.Fine? ==> Matches(target, status, z)
    {
      hide ReadBit, Readable, ReadAcCoefficient;
      k := from;
      var nonzero: bool;
      status, nonzero := Ask(Position(s.area, k) + 1);
      while status.Fine? && !nonzero
        invariant from <= k <= s.se
        invariant status.Fine? ==> Ready()
        invariant status.Fine? && nonzero ==> target == AfterNonzero(s, Run(), z, k)
        invariant status.Fine? && !nonzero ==>
                    target == if k + 1 > s.se then Bad else ReadAc(s, Run(), z, k + 1, false)
        invariant !status.Fine? ==> Matches(target, status, z)
        decreases s.se - k
      {
        k := k + 1;
        if k > s.se {
          status := Damaged;
          return;
        }
        status, nonzero := Ask(Position(s.area, k) + 1);
      }
    }

    /** Figure G.10 over the band. */
    method DecodeRefinement(s: AcScan, b: Block, first: nat) returns (status: Status, z: Block)
      requires Ready() && ValidAcScan(s) && 1 <= first
      modifies coder, coder.stats
      ensures Matches(ReadRefine(s, old(Run()), b, LastSet(b, s.se), first, true), status, z)
      ensures status.Fine? ==> Ready()
    {
      hide ReadBit, Readable, ReadRefinement, LastSet;
      status, z := Fine, b;
      var kex := PreviousEnd(b, s.se);
      var k := first;
      while k <= s.se
        invariant 1 <= k && status.Fine? && Ready()
        invariant ReadRefine(s, Run(), z, kex, k, true) == ReadRefine(s, old(Run()), b, kex, first, true)
      {
        if k > kex {
          var eob: bool;
          status, eob := Ask(Position(s.area, k));
          if !status.Fine? || eob { return; }
        }
        ghost var target := ReadRefine(s, Run(), z, kex, k, false);
        status, k, z := RefineNext(s, z, kex, k, target);
        if !status.Fine? { return; }
        k := k + 1;
      }
    }

    /** Establish the previous stage's end-of-block index. */
    method PreviousEnd(b: Block, se: nat) returns (kex: nat)
      requires se <= 63
      ensures kex == LastSet(b, se)
    {
      kex := se;
      while kex > 0 && b[kex] == 0
        invariant kex <= se && LastSet(b, kex) == LastSet(b, se)
      {
        kex := kex - 1;
      }
    }

    /** Skip the coefficients that stay zero, and correct or create the one after them. */
    method RefineNext(s: AcScan, b: Block, kex: nat, from: nat, ghost target: Read<Block>)
      returns (status: Status, k: nat, z: Block)
      requires Ready() && ValidAcScan(s) && 1 <= from <= s.se
      requires target == ReadRefine(s, Run(), b, kex, from, false)
      modifies coder, coder.stats
      ensures status.Fine? ==> Ready() && from <= k <= s.se && target == ReadRefine(s, Run(), z, kex, k + 1, true)
      ensures !status.Fine? ==> Matches(target, status, z)
    {
      hide ReadBit, Readable, ReadRefinement;
      k, z := from, b;
      var v: Option<int>;
      status, v := DecodeCorrection(s, z[k], k);
      while status.Fine? && v.None?
        invariant from <= k <= s.se
        invariant status.Fine? ==> Ready()
        invariant status.Fine? && v.Some? ==> target == ReadRefine(s, Run(), z[k := v.value], kex, k + 1, true)
        invariant status.Fine? && v.None? ==>
                    target == if k + 1 > s.se then Bad else ReadRefine(s, Run(), z, kex, k + 1, false)
        invariant !status.Fine? ==> Matches(target, status, z)
        decreases s.se - k
      {
        k := k + 1;
        if k > s.se {
          status := Damaged;
          return;
        }
        status, v := DecodeCorrection(s, z[k], k);
      }
      if status.Fine? {
        z := z[k := v.value];
      }
    }

    /** The new value of the coefficient at `k`; None when it stays zero. */
    method DecodeCorrection(s: AcScan, prev: int, k: nat) returns (status: Status, v: Option<int>)
      requires Ready() && ValidAcScan(s) && 1 <= k <= s.se
      modifies coder, coder.stats
      ensures Matches(ReadRefinement(s, old(Run()), prev, k), status, v)
      ensures status.Fine? ==> Ready()
    {
      hide ReadBit, Readable, Short;
      v := None;
      var p1, m1 := Pow2(s.al), -Pow2(s.al);
      var bit: bool;
      if prev != 0 {
        status, bit := Ask(Position(s.area, k) + 2);
        if bit {
          v := if prev < 0 then Some(Short(prev + m1)) else Some(Short(prev + p1));
        } else {
          v := Some(prev);
        }
        return;
      }
      status, bit := Ask(Position(s.area, k) + 1);
      if !status.Fine? || !bit { return; }
      var negative: bool;
      status, negative := Ask(FIXED_BIN);
      v := if negative then Some(Short(m1)) else Some(Short(p1));
    }

    /** One block, by the routine that the scan parameters select. */
    method DecodeBlock(ci: nat, b: Block) returns (status: Status, z: Block)
      requires Ready() && ValidPredictions(params, Predictions(lastDc, dcContext)) && ci < |params.comps|
      modifies this`lastDc, this`dcContext, coder, coder.stats
      ensures ValidPredictions(params, Predictions(lastDc, dcContext)) && (status.Fine? ==> Ready())
      ensures Matches(ReadUnit(params, old(Predictions(lastDc, dcContext)), old(Run()), ci, b), status,
                      (Predictions(lastDc, dcContext), z))
    {
      hide Readable, ReadDc, ReadAc, ReadRefine, ReadBit, Short, Pow2;
      z := b;
      if !params.progressive || (params.ah == 0 && params.ss == 0) {
        status := DecodeDc(ci);
        if !status.Fine? { return; }
        z := z[0 := Short(lastDc[ci] * Pow2(DcShift(params)))];
        if !params.progressive {
          status, z := DecodeAcBand(AcPart(params, ci), z, 1);
        }
      } else if params.ah == 0 {
        status, z := DecodeAcBand(AcPart(params, ci), z, params.ss);
      } else if params.ss == 0 {
        var bit: bool;
        status, bit := Ask(FIXED_BIN);
        assert z[0 := z[0]] == z;
        if status.Fine? && bit {
          z := z[0 := OrBit(z[0], Pow2(params.al))];
        }
      } else {
        status, z := DecodeRefinement(AcPart(params, ci), z, params.ss);
      }
    }

    /** Advance to the next marker, over data that nobody asked for and over fill bytes. */
    method FindMarker() returns (ok: bool)
      modifies coder`input, coder`unreadMarker
      ensures ok <==> NextMarker(old(coder.input)).Some?
      ensures ok ==> NextMarker(old(coder.input)) == Some((coder.unreadMarker, coder.input))
    {
      var code: byte, rest;
      ok, code, rest := FindNextMarker(coder.input);
      coder.input := rest;
      if ok { coder.unreadMarker := code; }
    }

    /** Swallow the restart marker that is due. */
    method SwallowRestartMarker() returns (status: Status)
      requires nextRestartNum < 8
      modifies this`nextRestartNum, coder`input, coder`unreadMarker
      ensures var x := ReadRestartMarker(old(coder.Regs()), old(nextRestartNum));
              && (if x.Some? then status.Fine? else status.SourceDry? || status.LostSync?)
              && (status.Fine? ==> x == Some(coder.input) && coder.unreadMarker == 0
                                   && nextRestartNum == (old(nextRestartNum) + 1) % 8)
      ensures nextRestartNum < 8
    {
      hide NextMarker;
      if coder.unreadMarker == 0 {
        var ok := FindMarker();
        if !ok { return SourceDry; }
      }
      if coder.unreadMarker != RST0 + nextRestartNum { return LostSync; }
      coder.unreadMarker := 0;
      nextRestartNum := (nextRestartNum + 1) % 8;
      status := Fine;
    }

    /** Set `n` bins from `st` on to zero. */
    method ClearArea(st: nat, n: nat)
      requires st + n <= coder.stats.Length
      modifies coder.stats
      ensures coder.stats[..] == Zeroed(old(coder.stats[..]), st, n)
    {
      for i := 0 to n
        invariant coder.stats[..] == Zeroed(old(coder.stats[..]), st, i)
      {
        coder.stats[st + i] := 0;
      }
    }

    /** Clear the areas of the tables that the scan uses, and the DC predictions. */
    method ResetStatistics()
      requires ValidScan(params) && coder.stats.Length == NUM_BINS
      requires ValidPredictions(params, Predictions(lastDc, dcContext))
      modifies this`lastDc, this`dcContext, coder.stats
      ensures coder.stats[..] == DecoderReset(params, old(coder.stats[..]))
      ensures Predictions(lastDc, dcContext) == RestartedPredictions(old(Predictions(lastDc, dcContext)))
    {
      var dc, ac := DecoderResetsDc(params), DecoderResetsAc(params);
      for ci := 0 to |params.comps|
        invariant coder.stats[..] == ResetStats(params, dc, ac, old(coder.stats[..]), ci)
        invariant |lastDc| == |dcContext| == |params.comps|
        invariant dc ==> forall j :: 0 <= j < ci ==> lastDc[j] == 0 && dcContext[j] == 0
        invariant !dc ==> lastDc == old(lastDc) && dcContext == old(dcContext)
      {
        if dc {
          ClearArea(DcArea(params.comps[ci].dcTbl), DC_STAT_BINS);
          lastDc := lastDc[ci := 0];
          dcContext := dcContext[ci := 0];
        }
        if ac {
          ClearArea(AcArea(params.comps[ci].acTbl), AC_STAT_BINS);
        }
      }
    }

    ghost function RestartedPredictions(p: Predictions): Predictions {
      if DecoderResetsDc(params) then ResetPredictions(params) else p
    }

    /** Past the restart marker, everything that the segment before could have left behind is gone. */
    method ProcessRestart() returns (status: Status)
      requires Valid()
      modifies this, coder, coder.stats
      ensures var x := ReadRestartMarker(old(coder.Regs()), old(nextRestartNum));
              && (if x.Some? then status.Fine? else status.SourceDry? || status.LostSync?)
              && (status.Fine? ==>
                    && Valid() && Ready() && Run() == StartOf(x.value, DecoderReset(params, old(coder.stats[..])))
                    && Predictions(lastDc, dcContext) == RestartedPredictions(old(Predictions(lastDc, dcContext)))
                    && nextRestartNum == (old(nextRestartNum) + 1) % 8 && restartsToGo == restartInterval)
    {
      hide DecoderReset, ReadRestartMarker, ResetPredictions;
      status := SwallowRestartMarker();
      if !status.Fine? { return; }
      ResetStatistics();
      coder.c, coder.a, coder.ct := 0, 0, -16;
      restartsToGo := restartInterval;
    }

    predicate RestartDue()
      reads this
    {
      restartInterval != 0 && restartsToGo == 0
    }

    /** Where reading the next MCU starts: where the last one ended, or after a restart marker. None if that is
        missing. */
    ghost function Begin(): (x: Option<(DecRun, Predictions)>)
      reads this, coder, coder.stats
      requires Valid() && (coder.ct == -1 ==> RestartDue())
      ensures x.Some? ==> Readable(x.value.0) && ValidPredictions(params, x.value.1)
    {
      hide Readable, DecoderReset, ReadRestartMarker;
      var p := Predictions(lastDc, dcContext);
      if RestartDue() then
        match ReadRestartMarker(coder.Regs(), nextRestartNum)
        case None => None
        case Some(rest) => Some((StartOf(rest, DecoderReset(params, coder.stats[..])), RestartedPredictions(p)))
      else Some((Run(), p))
    }

    /** One MCU. After damage, and until the next restart marker, nothing is decoded and nothing is touched. */
    method DecodeMcu(cis: seq<nat>, mcu: array<Block>) returns (status: Status)
      requires Valid() && mcu.Length == |cis| && ComponentsExist(params, cis)
      requires mcu as object != coder.stats
      modifies this, coder, coder.stats, mcu
      ensures status.Fine? || status.Damaged? ==> Valid()
      ensures old(coder.ct == -1 && !RestartDue()) ==>
                status.Fine? && mcu[..] == old(mcu[..]) && coder.ct == -1 && Run() == old(Run())
      ensures old(coder.ct != -1 || RestartDue()) ==>
                match old(Begin())
                case None => !status.Fine? && !status.Damaged?
                case Some(start) =>
                  var x := ReadUnits(params, start.1, start.0, cis, old(mcu[..]));
                  match status
                  case Fine => x == Got(Run(), (Predictions(lastDc, dcContext), mcu[..])) && coder.ct != -1
                  case Damaged => x.Bad? && coder.ct == -1
                  case _ => x.Dry?
    {
      if restartInterval != 0 {
        if restartsToGo == 0 {
          status := ProcessRestart();
          if !status.Fine? { return; }
        }
        restartsToGo := restartsToGo - 1;
      }
      if coder.ct == -1 { return Fine; }
      status := DecodeBlocks(cis, mcu);
      if status.Damaged? {
        coder.ct := -1;
      }
    }

    method DecodeBlocks(cis: seq<nat>, mcu: array<Block>) returns (status: Status)
      requires Ready() && ValidPredictions(params, Predictions(lastDc, dcContext))
      requires mcu.Length == |cis| && ComponentsExist(params, cis)
      requires mcu as object != coder.stats
      modifies this`lastDc, this`dcContext, coder, coder.stats, mcu
      ensures ValidPredictions(params, Predictions(lastDc, dcContext))
      ensures status.Fine? ==> Ready()
      ensures Matches(ReadUnits(params, old(Predictions(lastDc, dcContext)), old(Run()), cis, old(mcu[..])), status,
                      (Predictions(lastDc, dcContext), mcu[..]))
    {
      hide ReadUnit, ReadUnits, Readable;
      ghost var bs, p := mcu[..], Predictions(lastDc, dcContext);
      ghost var target := ReadUnits(params, p, Run(), cis, bs);
      assert target.Got? ==> [] + target.v.1 == target.v.1;
      status := Fine;
      for i := 0 to |cis|
        invariant status.Fine? && Ready() && ValidPredictions(params, Predictions(lastDc, dcContext))
        invariant mcu[i..] == bs[i..]
        invariant target == ReadMoreUnits(params, Got(Run(), (Predictions(lastDc, dcContext), mcu[..i])), cis[i..], bs[i..])
      {
        ReadOneMoreUnit(params, Predictions(lastDc, dcContext), Run(), mcu[..i], cis[i..], bs[i..]);
        assert bs[i..][0] == mcu[i] && bs[i..][1..] == bs[i + 1..] && cis[i..][1..] == cis[i + 1..];
        var z: Block;
        status, z := DecodeBlock(cis[i], mcu[i]);
        if !status.Fine? { return; }
        ghost var done := mcu[..i];
        mcu[i] := z;
        assert mcu[..i + 1] == done + [z];
      }
      NothingMore(params, Got(Run(), (Predictions(lastDc, dcContext), mcu[..])));
      assert mcu[..|cis|] == mcu[..];
    }

    lemma NothingMore(sc: ScanParams, x: Read<(Predictions, seq<Block>)>)
      requires ValidScan(sc) && x.Got? && Readable(x.r) && ValidPredictions(sc, x.v.0)
      ensures ReadMoreUnits(sc, x, [], []) == x
    {
      assert x.v.1 + [] == x.v.1;
    }
  }
}
