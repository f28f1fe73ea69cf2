/** The refinement scans of the arithmetic coder: one more bit of coefficients that are already known to
    twice the precision step (jcarith.c, jdarith.c). */
module ArithRefinement {
  import opened Wrappers
  import opened EstimationTable
  import opened ArithCoding
  import opened ArithDecoding
  import opened ArithModel
  import opened Arithmetic
  import opened PointTransform
  import opened Seqs

  // ---------------------------------------------------------------- DC

  /** The bit of the two's-complement value that the scan sends. */
  function DcBit(v: int, al: nat): seq<Decision> { [Decision(FIXED_BIN, v / Pow2(al) % 2 == 1)] }

  function ReadDcBit(r: DecRun, prev: int, al: nat): (x: Read<int>)
    requires Readable(r)
    ensures x.Got? ==> Readable(x.r)
  {
    var (r1, bit) :- ReadBit(r, FIXED_BIN);
    Got(r1, if bit then OrBit(prev, Pow2(al)) else prev)
  }

  /** Whatever the decoder holds, it receives the bit. */
  lemma DcBitReads(r: DecRun, c: int, v: int, al: nat, rest: seq<Decision>, tail: Ending)
    requires Feeding(r, DcBit(v, al) + rest, tail)
    ensures Readable(r)
    ensures var x := ReadDcBit(r, c, al);
            x.Got? && x.v == RefinedDc(c, v, al) && Feeding(x.r, rest, tail)
  {
    hide Feeding, ReadBit, Readable;
    ReadNext(r, DcBit(v, al)[0], rest, tail);
  }

  // ---------------------------------------------------------------- AC

  /** The decisions at a coefficient that is nonzero after the point transform: a correction bit if it was
      nonzero before, else its arrival and its sign. */
  function Refinement(s: AcScan, v: int, k: nat): seq<Decision>
    requires 1 <= k && v != 0
  {
    var p := Position(s.area, k);
    if Abs(v) >= 2 then [Decision(p + 2, Abs(v) % 2 == 1)]
    else [Decision(p + 1, true), Decision(FIXED_BIN, v < 0)]
  }

  /** Figure G.10 from position `k` on. No end-of-band decision is coded up to `kex`, the last coefficient
      that was nonzero before. */
  function RefineDecisions(s: AcScan, z: Block, ke: nat, kex: nat, k: nat, eobDue: bool): seq<Decision>
    requires ValidAcScan(s) && ke <= s.se && 1 <= k
    requires eobDue || k <= ke
    requires ke > 0 ==> Truncated(z[ke], s.al) != 0
    decreases s.se + 1 - k, if eobDue then 1 else 0
  {
    var p := Position(s.area, k);
    if eobDue then
      if k > ke then (if k <= s.se then [Decision(p, true)] else [])
      else (if k > kex then [Decision(p, false)] else []) + RefineDecisions(s, z, ke, kex, k, false)
    else
      var v := Truncated(z[k], s.al);
      if v == 0 then [Decision(p + 1, false)] + RefineDecisions(s, z, ke, kex, k + 1, false)
      else Refinement(s, v, k) + RefineDecisions(s, z, ke, kex, k + 1, true)
  }

  /** The index of the last nonzero coefficient in 1..se, 0 if there is none. */
  function LastSet(b: Block, se: nat): (kex: nat)
    requires se <= 63
    ensures kex <= se && (kex > 0 ==> b[kex] != 0)
    ensures forall k :: kex < k <= se ==> b[k] == 0
  {
    if se == 0 then 0 else if b[se] != 0 then se else LastSet(b, se - 1)
  }

  /** The new value of a coefficient that is not skipped; None when it stays zero. */
  function ReadRefinement(s: AcScan, r: DecRun, prev: int, k: nat): (x: Read<Option<int>>)
    requires ValidAcScan(s) && Readable(r) && 1 <= k <= s.se
    ensures x.Got? ==> Readable(x.r)
  {
    hide ReadBit, Readable, Short;
    var p, p1 := Position(s.area, k), Pow2(s.al);
    if prev != 0 then
      var (r1, bit) :- ReadBit(r, p + 2);
      Got(r1, Some(if !bit then prev else if prev < 0 then Short(prev - p1) else Short(prev + p1)))
    else
      var (r1, bit) :- ReadBit(r, p + 1);
      if !bit then Got(r1, None)
      else
        var (r2, negative) :- ReadBit(r1, FIXED_BIN);
        Got(r2, Some(if negative then Short(-p1) else Short(p1)))
  }

  /** The loop over the band. */
  function ReadRefine(s: AcScan, r: DecRun, b: Block, kex: nat, k: nat, eobDue: bool): (x: Read<Block>)
    requires ValidAcScan(s) && Readable(r) && 1 <= k && (eobDue || k <= s.se)
    ensures x.Got? ==> Readable(x.r)
    decreases s.se + 1 - k, if eobDue then 1 else 0
  {
    hide ReadBit, Readable, ReadRefinement;
    if eobDue then
      if k > s.se then Got(r, b)
      else if k > kex then
        var (r1, eob) :- ReadBit(r, Position(s.area, k));
        if eob then Got(r1, b) else ReadRefine(s, r1, b, kex, k, false)
      else ReadRefine(s, r, b, kex, k, false)
    else
      var (r1, v) :- ReadRefinement(s, r, b[k], k);
      if v.Some? then ReadRefine(s, r1, b[k := v.value], kex, k + 1, true)
      else if k + 1 > s.se then Bad
      else ReadRefine(s, r1, b, kex, k + 1, false)
  }

  lemma RefinementReads(s: AcScan, r: DecRun, v: int, k: nat, rest: seq<Decision>, tail: Ending)
    requires ValidAcScan(s) && 1 <= k <= s.se && IsShort(v)
    requires var t := Truncated(v, s.al);
             Feeding(r, (if t == 0 then [Decision(Position(s.area, k) + 1, false)] else Refinement(s, t, k)) + rest, tail)
    ensures Readable(r)
    ensures var x := ReadRefinement(s, r, Approx(v, s.al + 1), k);
            && x.Got? && Feeding(x.r, rest, tail)
            && x.v == if Truncated(v, s.al) == 0 then None else Some(Approx(v, s.al))
  {
    hide Feeding, ReadBit, Readable, Truncated, Approx, Short;
    var t, p := Truncated(v, s.al), Position(s.area, k);
    ApproxRefines(v, s.al);
    ApproxIsShort(v, s.al);
    ApproxOfZero(v, s.al);
    ApproxOfZero(v, s.al + 1);
    SignOfTruncated(v, s.al);
    if t == 0 {
      ReadNext(r, Decision(p + 1, false), rest, tail);
    } else if Abs(t) >= 2 {
      SignOfTruncated(v, s.al + 1);
      ReadNext(r, Decision(p + 2, Abs(t) % 2 == 1), rest, tail);
    } else {
      var sign := Decision(FIXED_BIN, t < 0);
      assert Refinement(s, t, k) + rest == [Decision(p + 1, true)] + ([sign] + rest);
      ReadNext(r, Decision(p + 1, true), [sign] + rest, tail);
      ReadNext(ReadBit(r, p + 1).r, sign, rest, tail);
    }
  }

  lemma SignOfTruncated(v: int, al: nat)
    ensures v < 0 ==> Truncated(v, al) <= 0
    ensures v >= 0 ==> Truncated(v, al) >= 0
  {
    ApproxByMagnitude(v, al);
  }

  /** Two end-of-band indices that agree on every position from `k` on. */
  predicate SameFrom(kexD: nat, kexE: nat, k: nat) { kexD == kexE || (kexD < k && kexE < k) }

  /** From what it knows of the band the decoder finds the same previous end as the encoder, which looks at
      the original coefficients. */
  lemma SamePreviousEnd(z: Block, b: Block, se: nat, ke: nat, ah: nat, k: nat)
    requires ke <= se <= 63 && 1 <= k
    requires forall j :: k <= j <= se ==> b[j] == Approx(z[j], ah)
    requires forall j :: ke < j <= se ==> Truncated(z[j], ah) == 0
    ensures SameFrom(LastSet(b, se), LastNonzero(z, ke, ah), k)
  {
    var kexD, kexE := LastSet(b, se), LastNonzero(z, ke, ah);
    if kexD >= k {
      ApproxOfZero(z[kexD], ah);
    }
    if kexE >= k {
      ApproxOfZero(z[kexE], ah);
    }
  }

  /** Everything from `k` on is zero after this scan, so it was zero before. */
  lemma RefinedBandIsDone(se: nat, al: nat, prev: Block, z: Block, k: nat)
    requires se <= 63 && LastNonzero(z, se, al) < k
    requires forall j :: k <= j <= se ==> prev[j] == Approx(z[j], al + 1)
    ensures Approximated(se, al, prev, z, k) == prev
  {
    forall j | k <= j <= se ensures prev[j] == Approx(z[j], al) {
      ApproxRefines(z[j], al);
      ApproxOfZero(z[j], al);
      ApproxOfZero(z[j], al + 1);
    }
    ApproximatedRest(se, al, prev, z, k);
  }

  /** A refinement scan takes every coefficient of the band from precision `al + 1` to precision `al`. */
  lemma {:induction false} RefineReads(s: AcScan, r: DecRun, prev: Block, z: Block, kexD: nat, kexE: nat,
                                       k: nat, eobDue: bool, rest: seq<Decision>, tail: Ending)
    requires ValidAcScan(s) && 1 <= k && IsShortBlock(z) && SameFrom(kexD, kexE, k)
    requires forall j :: k <= j <= s.se ==> prev[j] == Approx(z[j], s.al + 1)
    requires kexE <= LastNonzero(z, s.se, s.al)
    requires eobDue || k <= LastNonzero(z, s.se, s.al)
    requires Feeding(r, RefineDecisions(s, z, LastNonzero(z, s.se, s.al), kexE, k, eobDue) + rest, tail)
    ensures Readable(r)
    ensures var x := ReadRefine(s, r, prev, kexD, k, eobDue);
            x.Got? && x.v == Approximated(s.se, s.al, prev, z, k) && Feeding(x.r, rest, tail)
    decreases s.se + 1 - k, if eobDue then 1 else 0
  {
    hide Feeding, ReadBit, Readable, ReadRefinement, Refinement, LastNonzero, Truncated, Approx, Approximated;
    var ke := LastNonzero(z, s.se, s.al);
    FeedingIsReadable(r, RefineDecisions(s, z, ke, kexE, k, eobDue) + rest, tail);
    var p := Position(s.area, k);
    if eobDue {
      if k > ke {
        RefinedBandIsDone(s.se, s.al, prev, z, k);
        if k <= s.se {
          ReadNext(r, Decision(p, true), rest, tail);
        } else {
          assert [] + rest == rest;
        }
      } else {
        var more := RefineDecisions(s, z, ke, kexE, k, false);
        if k > kexE {
          Assoc([Decision(p, false)], more, rest);
          ReadNext(r, Decision(p, false), more + rest, tail);
          RefineReads(s, ReadBit(r, p).r, prev, z, kexD, kexE, k, false, rest, tail);
        } else {
          assert [] + more == more;
          RefineReads(s, r, prev, z, kexD, kexE, k, false, rest, tail);
        }
      }
    } else {
      var v := Truncated(z[k], s.al);
      var code := if v == 0 then [Decision(p + 1, false)] else Refinement(s, v, k);
      var more := RefineDecisions(s, z, ke, kexE, k + 1, v != 0);
      Assoc(code, more, rest);
      RefinementReads(s, r, z[k], k, more + rest, tail);
      var x := ReadRefinement(s, r, prev[k], k);
      var next := prev[k := Approx(z[k], s.al)];
      if v == 0 {
        ApproxOfZero(z[k], s.al);
        ApproxRefines(z[k], s.al);
        ApproxOfZero(z[k], s.al + 1);
        assert next == prev;
      }
      RefineReads(s, x.r, next, z, kexD, kexE, k + 1, v != 0, rest, tail);
      ApproximatedStep(s.se, s.al, prev, z, k, Approx(z[k], s.al));
    }
  }
}
