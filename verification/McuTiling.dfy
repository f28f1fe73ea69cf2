/** How the blocks of an image are grouped into MCUs (per_scan_setup in jcmaster.c and jdinput.c), and what stands in for
    the blocks that are missing at the right and bottom edges. */
module McuTiling {
  import opened Arithmetic
  import opened Geometry
  import opened PointTransform

  /** Zero but for the DC term. */
  function Dummy(previous: Block): Block {
    [previous[0]] + seq(63, _ => 0)
  }

  /** The coefficient blocks of a component, by block rows. */
  type Plane = seq<seq<Block>>

  datatype Component = Component(hSamp: nat, vSamp: nat, widthInBlocks: nat, heightInBlocks: nat)

  /** A scan over some components of an image that is `mcusAcross` MCUs wide and `imcuRows` MCUs high when all of them
      are interleaved. */
  datatype Scan = Scan(comps: seq<Component>, mcusAcross: nat, imcuRows: nat) {
    predicate Valid() {
      && |comps| >= 1 && mcusAcross >= 1 && imcuRows >= 1
      && forall c <- comps :: Fits(c)
    }

    predicate Fits(c: Component) {
      && imcuRows >= 1 && c.hSamp >= 1 && c.vSamp >= 1
      && (mcusAcross - 1) * c.hSamp < c.widthInBlocks <= mcusAcross * c.hSamp
      && RowAt(c, imcuRows - 1) < c.heightInBlocks <= RowAt(c, imcuRows)
    }

    predicate Interleaved() { |comps| > 1 }

    function McuWidth(c: Component): nat { if Interleaved() then c.hSamp else 1 }

    function McuHeight(c: Component): nat { if Interleaved() then c.vSamp else 1 }

    function McusPerRow(): nat
      requires |comps| >= 1
    {
      if Interleaved() then mcusAcross else comps[0].widthInBlocks
    }

    /** The first block row of iMCU row `i`. */
    function RowAt(c: Component, i: nat): nat { i * c.vSamp }

    /** The first block column of MCU column `m`. */
    function ColAt(c: Component, m: nat): nat { m * McuWidth(c) }

    /** last_col_width. */
    function LastColWidth(c: Component): int
      requires |comps| >= 1
    {
      c.widthInBlocks - (McusPerRow() - 1) * McuWidth(c)
    }

    /** last_row_height. */
    function LastRowHeight(c: Component): int
      requires imcuRows >= 1
    {
      c.heightInBlocks - RowAt(c, imcuRows - 1)
    }

    /** How many of the columns of MCU column `m` are in the image. */
    function RealCols(c: Component, m: nat): int
      requires |comps| >= 1
    {
      if m < McusPerRow() - 1 then McuWidth(c) else LastColWidth(c)
    }

    /** MCU rows in iMCU row `i`. */
    function McuRows(i: nat): int
      requires |comps| >= 1 && imcuRows >= 1
    {
      if Interleaved() then 1 else if i < imcuRows - 1 then comps[0].vSamp else LastRowHeight(comps[0])
    }

    predicate Shaped(planes: seq<Plane>) {
      && |planes| == |comps|
      && forall ci :: 0 <= ci < |comps| ==> ShapedPlane(comps[ci], planes[ci])
    }

    static predicate ShapedPlane(c: Component, p: Plane) {
      && |p| == c.heightInBlocks
      && forall row :: 0 <= row < |p| ==> |p[row]| == c.widthInBlocks
    }

    /** The block that MCU column `m` has at block row `row`, `x` columns to the right. A block at the right edge repeats
        the DC value of the last block in its row; one at the bottom repeats that of the last block of the MCU. */
    function Padded(c: Component, p: Plane, row: nat, m: nat, x: nat): Block
      requires |comps| >= 1 && ShapedPlane(c, p)
      requires 1 <= RealCols(c, m) && ColAt(c, m) + RealCols(c, m) <= c.widthInBlocks && c.heightInBlocks >= 1
    {
      var last := ColAt(c, m) + RealCols(c, m) - 1;
      if row >= c.heightInBlocks then Dummy(p[c.heightInBlocks - 1][last])
      else if x >= RealCols(c, m) then Dummy(p[row][last])
      else p[row][ColAt(c, m) + x]
    }

    // -------------------------------------------------------------- the MCUs of a scan

    /** The first `n` blocks of a row of an MCU. */
    ghost function RowBlocks(c: Component, p: Plane, row: nat, m: nat, n: nat): (bs: seq<Block>)
      requires InImage(c, p, m)
      ensures |bs| == n
    {
      if n == 0 then [] else RowBlocks(c, p, row, m, n - 1) + [Padded(c, p, row, m, n - 1)]
    }

    /** The first `n` rows of what a component has in an MCU. */
    ghost function PartBlocks(c: Component, p: Plane, row: nat, m: nat, n: nat): (bs: seq<Block>)
      requires InImage(c, p, m)
      ensures n > 0 ==> |bs| >= McuWidth(c)
    {
      if n == 0 then [] else PartBlocks(c, p, row, m, n - 1) + RowBlocks(c, p, row + n - 1, m, McuWidth(c))
    }

    predicate InImage(c: Component, p: Plane, m: nat) {
      && |comps| >= 1 && ShapedPlane(c, p) && c.heightInBlocks >= 1
      && 1 <= RealCols(c, m) <= McuWidth(c) && ColAt(c, m) + RealCols(c, m) <= c.widthInBlocks
    }

    predicate AllInImage(planes: seq<Plane>, m: nat) {
      && Shaped(planes)
      && forall ci :: 0 <= ci < |comps| ==> InImage(comps[ci], planes[ci], m)
    }

    /** The blocks of the first `n` components, in MCU column `m` of MCU row `yoffset` of iMCU row `i`. */
    ghost function McuBlocks(planes: seq<Plane>, i: nat, yoffset: nat, m: nat, n: nat): seq<Block>
      requires AllInImage(planes, m) && n <= |comps|
    {
      if n == 0 then []
      else
        var c := comps[n - 1];
        McuBlocks(planes, i, yoffset, m, n - 1) + PartBlocks(c, planes[n - 1], RowAt(c, i) + yoffset, m, McuHeight(c))
    }

    ghost function Mcu(planes: seq<Plane>, i: nat, yoffset: nat, m: nat): seq<Block>
      requires AllInImage(planes, m)
    {
      McuBlocks(planes, i, yoffset, m, |comps|)
    }

    ghost function McusOfRow(planes: seq<Plane>, i: nat, yoffset: nat, n: nat): seq<seq<Block>>
      requires Valid() && Shaped(planes) && n <= McusPerRow()
    {
      if n == 0 then []
      else
        AllColumnsFit(planes, n - 1);
        McusOfRow(planes, i, yoffset, n - 1) + [Mcu(planes, i, yoffset, n - 1)]
    }

    ghost function McusOfImcu(planes: seq<Plane>, i: nat, n: nat): seq<seq<Block>>
      requires Valid() && Shaped(planes)
    {
      if n == 0 then [] else McusOfImcu(planes, i, n - 1) + McusOfRow(planes, i, n - 1, McusPerRow())
    }

    /** All the MCUs of the first `n` iMCU rows, in raster order. */
    ghost function McusTo(planes: seq<Plane>, n: nat): seq<seq<Block>>
      requires Valid() && Shaped(planes) && n <= imcuRows
    {
      if n == 0 then []
      else
        RowsAreThere(n - 1);
        McusTo(planes, n - 1) + McusOfImcu(planes, n - 1, McuRows(n - 1))
    }

    /** The MCUs in front of position (`i`, `yoffset`, `m`). */
    ghost function Before(planes: seq<Plane>, i: nat, yoffset: nat, m: nat): seq<seq<Block>>
      requires Valid() && Shaped(planes) && i <= imcuRows && m <= McusPerRow()
    {
      McusTo(planes, i) + McusOfImcu(planes, i, yoffset) + McusOfRow(planes, i, yoffset, m)
    }

    lemma OneMore(planes: seq<Plane>, i: nat, yoffset: nat, m: nat)
      requires Valid() && Shaped(planes) && i <= imcuRows && m < McusPerRow() && AllInImage(planes, m)
      ensures Before(planes, i, yoffset, m + 1) == Before(planes, i, yoffset, m) + [Mcu(planes, i, yoffset, m)]
    {
      hide McusTo, McusOfImcu, Mcu;
    }

    lemma RowDone(planes: seq<Plane>, i: nat, yoffset: nat)
      requires Valid() && Shaped(planes) && i <= imcuRows
      ensures Before(planes, i, yoffset, McusPerRow()) == Before(planes, i, yoffset + 1, 0)
    {
      hide McusTo;
      assert McusOfRow(planes, i, yoffset + 1, 0) == [];
    }

    lemma ImcuDone(planes: seq<Plane>, i: nat)
      requires Valid() && Shaped(planes) && i < imcuRows && McuRows(i) >= 0
      ensures Before(planes, i, McuRows(i), 0) == Before(planes, i + 1, 0, 0)
    {
      assert McusOfRow(planes, i, McuRows(i), 0) == [] == McusOfRow(planes, i + 1, 0, 0);
      assert McusOfImcu(planes, i + 1, 0) == [];
    }

    // -------------------------------------------------------------- every position is on the way to the end

    lemma {:induction false} RowsFollow(planes: seq<Plane>, i: nat, yoffset: nat, m: nat, n: nat)
      requires Valid() && Shaped(planes) && i <= imcuRows && m <= n <= McusPerRow()
      ensures Before(planes, i, yoffset, m) <= Before(planes, i, yoffset, n)
      decreases n
    {
      hide McusTo, McusOfImcu, McusOfRow, Mcu, Before;
      if m < n {
        AllColumnsFit(planes, n - 1);
        OneMore(planes, i, yoffset, n - 1);
        RowsFollow(planes, i, yoffset, m, n - 1);
      }
    }

    lemma {:induction false} McuRowsFollow(planes: seq<Plane>, i: nat, yoffset: nat, n: nat)
      requires Valid() && Shaped(planes) && i <= imcuRows && yoffset <= n
      ensures Before(planes, i, yoffset, 0) <= Before(planes, i, n, 0)
      decreases n
    {
      hide McusTo, McusOfImcu, McusOfRow, Mcu, Before;
      if yoffset < n {
        RowDone(planes, i, n - 1);
        RowsFollow(planes, i, n - 1, 0, McusPerRow());
        McuRowsFollow(planes, i, yoffset, n - 1);
      }
    }

    lemma {:induction false} ImcusFollow(planes: seq<Plane>, i: nat, n: nat)
      requires Valid() && Shaped(planes) && i <= n <= imcuRows
      ensures Before(planes, i, 0, 0) <= Before(planes, n, 0, 0)
      decreases n
    {
      hide McusTo, McusOfImcu, McusOfRow, Mcu, Before, McuRows;
      if i < n {
        RowsAreThere(n - 1);
        ImcuDone(planes, n - 1);
        McuRowsFollow(planes, n - 1, 0, McuRows(n - 1));
        ImcusFollow(planes, i, n - 1);
      }
    }

    /** The next MCU of the scan, at any position that is not at its end. */
    lemma NextMcu(planes: seq<Plane>, i: nat, yoffset: nat, m: nat)
      requires Valid() && Shaped(planes) && i < imcuRows && yoffset < McuRows(i) && m < McusPerRow()
      requires AllInImage(planes, m)
      ensures var k, all := |Before(planes, i, yoffset, m)|, McusTo(planes, imcuRows);
              k < |all| && all[k] == Mcu(planes, i, yoffset, m)
    {
      hide McusTo, McusOfImcu, McusOfRow, Mcu, McuRows;
      var all := Before(planes, imcuRows, 0, 0);
      assert all == McusTo(planes, imcuRows) by { NothingMore(planes); }
      OneMore(planes, i, yoffset, m);
      RowsFollow(planes, i, yoffset, m + 1, McusPerRow());
      RowDone(planes, i, yoffset);
      McuRowsFollow(planes, i, yoffset + 1, McuRows(i));
      ImcuDone(planes, i);
      ImcusFollow(planes, i + 1, imcuRows);
    }

    lemma NothingMore(planes: seq<Plane>)
      requires Valid() && Shaped(planes)
      ensures Before(planes, imcuRows, 0, 0) == McusTo(planes, imcuRows)
    {
      assert McusOfImcu(planes, imcuRows, 0) == [] == McusOfRow(planes, imcuRows, 0, 0);
      assert McusTo(planes, imcuRows) + [] + [] == McusTo(planes, imcuRows);
    }

    // -------------------------------------------------------------- the edges

    lemma ColumnsFit(c: Component, m: nat)
      requires Valid() && c in comps && m < McusPerRow()
      ensures 1 <= RealCols(c, m) <= McuWidth(c) && ColAt(c, m) + RealCols(c, m) <= c.widthInBlocks
      ensures 1 <= McuWidth(c)
      ensures ColAt(c, m + 1) == ColAt(c, m) + McuWidth(c)
      ensures m + 1 < McusPerRow() ==> ColAt(c, m + 1) < c.widthInBlocks
    {
      var w, last := McuWidth(c), McusPerRow() - 1;
      assert Fits(c);
      Distributes(m, 1, w);
      Distributes(last, 1, w);
      Grows(m, last, w);
      if m < last { GrowsByOne(m, last, w); }
    }

    lemma AllColumnsFit(planes: seq<Plane>, m: nat)
      requires Valid() && Shaped(planes) && m < McusPerRow()
      ensures AllInImage(planes, m)
    {
      forall ci | 0 <= ci < |comps| ensures InImage(comps[ci], planes[ci], m) {
        ColumnsFit(comps[ci], m);
        assert Fits(comps[ci]);
      }
    }

    lemma RowsAreThere(i: nat)
      requires Valid() && i < imcuRows
      ensures McuRows(i) >= 1
      ensures forall c <- comps :: c.vSamp >= 1 && RowAt(c, i + 1) == RowAt(c, i) + c.vSamp && RowAt(c, i) < c.heightInBlocks
      ensures forall c <- comps :: (if i < imcuRows - 1 then RowAt(c, i + 1) < c.heightInBlocks else c.heightInBlocks <= RowAt(c, i + 1))
      ensures forall c <- comps :: 1 <= LastRowHeight(c) <= c.vSamp
    {
      forall c <- comps
        ensures c.vSamp >= 1 && RowAt(c, i + 1) == RowAt(c, i) + c.vSamp && RowAt(c, i) < c.heightInBlocks
        ensures if i < imcuRows - 1 then RowAt(c, i + 1) < c.heightInBlocks else c.heightInBlocks <= RowAt(c, i + 1)
        ensures 1 <= LastRowHeight(c) <= c.vSamp
      {
        assert Fits(c);
        Distributes(i, 1, c.vSamp);
        Distributes(imcuRows - 1, 1, c.vSamp);
        Grows(i, imcuRows - 1, c.vSamp);
        Grows(i + 1, imcuRows, c.vSamp);
        if i < imcuRows - 1 { Grows(i + 1, imcuRows - 1, c.vSamp); }
      }
    }

    /** The guard of the controllers: a block row is in the image. */
    lemma RowIsReal(c: Component, i: nat, y: nat)
      requires Valid() && c in comps && i < imcuRows && y < c.vSamp
      ensures i < imcuRows - 1 || y < LastRowHeight(c) <==> RowAt(c, i) + y < c.heightInBlocks
    {
      RowsAreThere(i);
    }

    /** The DC value that dummy blocks repeat. */
    ghost function LastDc(c: Component, p: Plane, row: nat, m: nat): int
      requires InImage(c, p, m)
    {
      p[if row < c.heightInBlocks then row else c.heightInBlocks - 1][ColAt(c, m) + RealCols(c, m) - 1][0]
    }

    lemma LastInRow(c: Component, p: Plane, row: nat, m: nat, n: nat)
      requires InImage(c, p, m) && n >= 1 && (row >= c.heightInBlocks || RealCols(c, m) <= n)
      ensures RowBlocks(c, p, row, m, n)[n - 1][0] == LastDc(c, p, row, m)
    {
    }
  }

  // ---------------------------------------------------------------- full-image buffers

  /** The virtual array of a component has room for all its MCUs, dummy blocks included. */
  ghost predicate HasRoom(scan: Scan, c: Component, a: array2<Block>)
    requires |scan.comps| >= 1
  {
    a.Length0 == scan.RowAt(c, scan.imcuRows) && a.Length1 == scan.ColAt(c, scan.McusPerRow())
  }

  ghost predicate HoldsAt(scan: Scan, a: array2<Block>, c: Component, p: Plane, row: nat, m: nat, x: nat)
    reads a
  {
    var col := scan.ColAt(c, m) + x;
    && row < a.Length0 && col < a.Length1 && scan.InImage(c, p, m)
    && a[row, col] == scan.Padded(c, p, row, m, x)
  }

  ghost predicate FilledRow(scan: Scan, a: array2<Block>, c: Component, p: Plane, row: nat)
    requires |scan.comps| >= 1
    reads a
  {
    forall m: nat, x: nat :: m < scan.McusPerRow() && x < scan.McuWidth(c) ==> HoldsAt(scan, a, c, p, row, m, x)
  }

  // ---------------------------------------------------------------- the dimensions that are computed

  /** The source's formulas for last_col_width and last_row_height. */
  lemma LastOnesAreRight(scan: Scan, c: Component)
    requires scan.Valid() && c in scan.comps
    ensures scan.Interleaved() ==> scan.LastColWidth(c) == NonZeroRest(c.widthInBlocks, c.hSamp)
    ensures c.vSamp >= 1 && scan.LastRowHeight(c) == NonZeroRest(c.heightInBlocks, c.vSamp)
  {
    assert scan.Fits(c);
    RestIs(c.widthInBlocks, c.hSamp, scan.mcusAcross - 1);
    Distributes(scan.mcusAcross - 1, 1, c.hSamp);
    RestIs(c.heightInBlocks, c.vSamp, scan.imcuRows - 1);
    Distributes(scan.imcuRows - 1, 1, c.vSamp);
  }

  function NonZeroRest(a: nat, b: nat): nat {
    if b == 0 || a % b == 0 then b else a % b
  }

  lemma RestIs(a: nat, b: nat, q: nat)
    requires q * b < a <= q * b + b
    ensures NonZeroRest(a, b) == a - q * b
  {
    var r := a - q * b;
    if r == b {
      Distributes(q, 1, b);
      Quotient(a, q + 1, b, 0);
    } else {
      Quotient(a, q, b, r);
    }
  }

  /** The number of blocks of a component, and the number of MCUs of the image: as both sides compute them, they fit
      together. `hUnit` and `vUnit` are the largest sampling factors times the block size. */
  lemma ComponentFits(comps: seq<Component>, c: Component, width: nat, height: nat, hUnit: nat, vUnit: nat)
    requires |comps| >= 1 && width >= 1 && height >= 1 && hUnit >= 1 && vUnit >= 1 && c.hSamp >= 1 && c.vSamp >= 1
    requires c.widthInBlocks == DivRoundUp(width * c.hSamp, hUnit)
    requires c.heightInBlocks == DivRoundUp(height * c.vSamp, vUnit)
    ensures Scan(comps, DivRoundUp(width, hUnit), DivRoundUp(height, vUnit)).Fits(c)
  {
    hide DivRoundUp;
    McusOfBlocks(width, c.hSamp, hUnit);
    McusOfBlocks(height, c.vSamp, vUnit);
    RoundUpCovers(c.widthInBlocks, c.hSamp);
    RoundUpCovers(c.heightInBlocks, c.vSamp);
    RoundUpCovers(width, hUnit);
    RoundUpCovers(height, vUnit);
    Distributes(DivRoundUp(width, hUnit) - 1, 1, c.hSamp);
    Distributes(DivRoundUp(height, vUnit) - 1, 1, c.vSamp);
  }
}
