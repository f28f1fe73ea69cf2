/** Progressive AC scans in Huffman mode: end-of-band runs that stretch over blocks, and the correction bits that wait
    with them (encode_mcu_AC_first, encode_mcu_AC_refine, emit_eobrun in jchuff.c). What is sent is given as a sequence
    of items. Blocks are in zigzag order. */
module HuffmanEobRuns {
  import opened Arithmetic
  import opened PointTransform
  import opened HuffmanCode
  import opened HuffmanItems
  import opened Seqs

  const MAX_CORR_BITS := 1000

  /** An AC scan: its band, the point transform, and its table. */
  datatype Band = Band(ss: nat, se: nat, al: nat, tbl: nat)

  predicate ValidBand(p: Band) { 1 <= p.ss <= p.se <= 63 && p.al <= 13 }

  /** Blocks that have ended early and are not yet sent, and their correction bits. */
  datatype Pending = Pending(run: nat, bits: seq<bool>)

  const NONE := Pending(0, [])

  /** Between blocks there are correction bits only while a run is pending, the run can be sent, and the next block
      cannot overflow the buffer. */
  predicate ValidPending(e: Pending) {
    && (e.bits != [] ==> e.run > 0)
    && e.run < 0x7FFF && |e.bits| <= MAX_CORR_BITS - 64 + 1
  }

  function BitItem(b: bool): Item { Raw(if b then 1 else 0, 1) }

  function BitItems(bs: seq<bool>): (r: seq<Item>)
    ensures |r| == |bs|
  {
    seq(|bs|, i requires 0 <= i < |bs| => BitItem(bs[i]))
  }

  /** The symbol of a run: its number of bits, and the bits below the highest. */
  function RunItems(tbl: nat, run: nat): seq<Item>
    requires run > 0
  {
    var n := NumBits(run) - 1;
    [Sym(tbl, 16 * n)] + if n > 0 then [Raw(run, n)] else []
  }

  /** emit_eobrun: what is pending goes out. */
  function FlushItems(tbl: nat, e: Pending): seq<Item> {
    if e.run > 0 then RunItems(tbl, e.run) + BitItems(e.bits) else []
  }

  /** What a block sends, and what is pending after it. */
  datatype Sent = Sent(items: seq<Item>, pending: Pending)

  function Before(items: seq<Item>, s: Sent): Sent { Sent(items + s.items, s.pending) }

  /** The end of a block that has `r` zeros or the bits `br` left: it joins the run, which goes out when the counter
      or the buffer could overflow. */
  function EndOfBand(p: Band, r: nat, br: seq<bool>, e: Pending): Sent {
    if r > 0 || br != [] then
      var e1 := Pending(e.run + 1, e.bits + br);
      if e1.run == 0x7FFF || |e1.bits| > MAX_CORR_BITS - 64 + 1 then Sent(FlushItems(p.tbl, e1), NONE)
      else Sent([], e1)
    else Sent([], e)
  }

  // ---------------------------------------------------------------- refinement

  /** The magnitude of a coefficient after the point transform. */
  function Mag(z: Block, p: Band, k: nat): nat
    requires k <= 63
  {
    Abs(Truncated(z[k], p.al))
  }

  /** The index of the last coefficient of the band that becomes nonzero, 0 if none does. */
  function LastNew(z: Block, p: Band, k: nat): (eob: nat)
    requires k <= 63
    ensures eob <= k && (eob > 0 ==> p.ss <= eob && Mag(z, p, eob) == 1)
    ensures forall j :: p.ss <= j <= k && eob < j ==> Mag(z, p, j) != 1
    decreases k
  {
    if k == 0 || k < p.ss then 0 else if Mag(z, p, k) == 1 then k else LastNew(z, p, k - 1)
  }

  /** The coefficients from `k` on; `r` zeros and the correction bits `br` have been passed since the last symbol. */
  function RefineItems(p: Band, z: Block, k: nat, r: nat, br: seq<bool>, e: Pending): Sent
    requires ValidBand(p)
    decreases p.se + 1 - k, r
  {
    if k > p.se then EndOfBand(p, r, br, e)
    else
      var a := Mag(z, p, k);
      if a == 0 then RefineItems(p, z, k + 1, r + 1, br, e)
      else if r > 15 && k <= LastNew(z, p, p.se) then
        Before(FlushItems(p.tbl, e) + ([Sym(p.tbl, ZRL)] + BitItems(br)), RefineItems(p, z, k, r - 16, [], NONE))
      else if a > 1 then RefineItems(p, z, k + 1, r, br + [a % 2 == 1], e)
      else
        Before(FlushItems(p.tbl, e) + ([Sym(p.tbl, 16 * r + 1)] + ([BitItem(z[k] >= 0)] + BitItems(br))),
               RefineItems(p, z, k + 1, 0, [], NONE))
  }

  /** All blocks of an interval, and then whatever is still pending. */
  function RefineAll(p: Band, zs: seq<Block>, e: Pending): seq<Item>
    requires ValidBand(p)
    decreases |zs|
  {
    if zs == [] then FlushItems(p.tbl, e)
    else
      var s := RefineItems(p, zs[0], p.ss, 0, [], e);
      s.items + RefineAll(p, zs[1..], s.pending)
  }

  /** Throughout, the run stays below 0x7FFF between blocks, correction bits wait only with a run, and the bits of one
      block are at most as many as its coefficients, so the buffer is never full. */
  lemma {:induction false} PendingStaysValid(p: Band, z: Block, k: nat, r: nat, br: seq<bool>, e: Pending)
    requires ValidBand(p) && p.ss <= k <= p.se + 1 && |br| <= k - p.ss && ValidPending(e)
    ensures ValidPending(RefineItems(p, z, k, r, br, e).pending)
    ensures |e.bits| + |br| <= MAX_CORR_BITS
    decreases p.se + 1 - k, r
  {
    hide Mag, LastNew, FlushItems;
    if k <= p.se {
      var a := Mag(z, p, k);
      if a == 0 {
        PendingStaysValid(p, z, k + 1, r + 1, br, e);
      } else if r > 15 && k <= LastNew(z, p, p.se) {
        PendingStaysValid(p, z, k, r - 16, [], NONE);
      } else if a > 1 {
        PendingStaysValid(p, z, k + 1, r, br + [a % 2 == 1], e);
      } else {
        PendingStaysValid(p, z, k + 1, 0, [], NONE);
      }
    }
  }
}
