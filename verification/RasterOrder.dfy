/** Where a block stands in a scan (section A.2 of ITU-T T.81): MCUs in raster order, in each of them the components in
    their order, and for each component its blocks in raster order. */
module RasterOrder {
  import opened Arithmetic
  import opened PointTransform
  import opened Geometry
  import opened McuTiling

  // ---------------------------------------------------------------- inside an MCU

  lemma {:induction false} RowBlockAt(sc: Scan, c: Component, p: Plane, row: nat, m: nat, n: nat, x: nat)
    requires sc.InImage(c, p, m) && x < n
    ensures sc.RowBlocks(c, p, row, m, n)[x] == sc.Padded(c, p, row, m, x)
  {
    hide Scan.Padded;
    if x < n - 1 { RowBlockAt(sc, c, p, row, m, n - 1, x); }
  }

  lemma {:induction false} PartBlockAt(sc: Scan, c: Component, p: Plane, row: nat, m: nat, n: nat, y: nat, x: nat)
    requires sc.InImage(c, p, m) && y < n && x < sc.McuWidth(c)
    ensures |sc.PartBlocks(c, p, row, m, n)| == n * sc.McuWidth(c)
    ensures y * sc.McuWidth(c) + x < n * sc.McuWidth(c)
    ensures sc.PartBlocks(c, p, row, m, n)[y * sc.McuWidth(c) + x] == sc.Padded(c, p, row + y, m, x)
  {
    hide Scan.Padded, Scan.McuWidth;
    PartSize(sc, c, p, row, m, n);
    PartSize(sc, c, p, row, m, n - 1);
    var w := sc.McuWidth(c);
    InOrder(y, n, w, x);
    if y < n - 1 {
      PartBlockAt(sc, c, p, row, m, n - 1, y, x);
    } else {
      RowBlockAt(sc, c, p, row + n - 1, m, w, x);
    }
  }

  lemma InOrder(y: nat, n: nat, w: nat, x: nat)
    requires y < n && x < w
    ensures y * w + x < n * w && (n - 1) * w + w == n * w
    ensures y < n - 1 ==> y * w + x < (n - 1) * w
  {
    assert (n - 1 - y) * w >= 0;
    assert (n - 1 - y) * w == n * w - w - y * w;
    if y < n - 1 {
      assert (n - 2 - y) * w >= 0;
      assert (n - 2 - y) * w == (n - 1) * w - w - y * w;
    }
  }

  lemma {:induction false} PartSize(sc: Scan, c: Component, p: Plane, row: nat, m: nat, n: nat)
    requires sc.InImage(c, p, m)
    ensures |sc.PartBlocks(c, p, row, m, n)| == n * sc.McuWidth(c)
  {
    hide Scan.RowBlocks;
    if n > 0 {
      PartSize(sc, c, p, row, m, n - 1);
      assert (n - 1) * sc.McuWidth(c) + sc.McuWidth(c) == n * sc.McuWidth(c);
    }
  }

  /** How many blocks the first `n` components have in an MCU. */
  function Offset(sc: Scan, n: nat): nat
    requires n <= |sc.comps|
  {
    if n == 0 then 0 else Offset(sc, n - 1) + sc.McuHeight(sc.comps[n - 1]) * sc.McuWidth(sc.comps[n - 1])
  }

  lemma {:induction false} McuSize(sc: Scan, planes: seq<Plane>, i: nat, yoffset: nat, m: nat, n: nat)
    requires sc.AllInImage(planes, m) && n <= |sc.comps|
    ensures |sc.McuBlocks(planes, i, yoffset, m, n)| == Offset(sc, n)
  {
    hide Scan.PartBlocks, Scan.McuWidth, Scan.McuHeight;
    if n > 0 {
      McuSize(sc, planes, i, yoffset, m, n - 1);
      PartSize(sc, sc.comps[n - 1], planes[n - 1], sc.RowAt(sc.comps[n - 1], i) + yoffset, m, sc.McuHeight(sc.comps[n - 1]));
    }
  }

  lemma OneIsIn(sc: Scan, planes: seq<Plane>, m: nat, ci: nat)
    requires sc.AllInImage(planes, m) && ci < |sc.comps|
    ensures |planes| == |sc.comps| && sc.InImage(sc.comps[ci], planes[ci], m)
  {
  }

  lemma OneComponentMore(sc: Scan, planes: seq<Plane>, i: nat, yoffset: nat, m: nat, n: nat)
    requires sc.AllInImage(planes, m) && n < |sc.comps|
    ensures var c := sc.comps[n];
            |planes| == |sc.comps| && sc.InImage(c, planes[n], m)
            && sc.McuBlocks(planes, i, yoffset, m, n + 1)
               == sc.McuBlocks(planes, i, yoffset, m, n)
                  + sc.PartBlocks(c, planes[n], sc.RowAt(c, i) + yoffset, m, sc.McuHeight(c))
  {
    OneIsIn(sc, planes, m, n);
    hide Scan.PartBlocks, Scan.McuHeight, Scan.RowAt, Scan.InImage;
  }

  /** The block at row `y` and column `x` of what component `ci` has in an MCU. */
  lemma {:induction false} McuBlockAt(sc: Scan, planes: seq<Plane>, i: nat, yoffset: nat, m: nat, n: nat, ci: nat, y: nat, x: nat)
    requires sc.AllInImage(planes, m) && ci < n <= |sc.comps|
    requires y < sc.McuHeight(sc.comps[ci]) && x < sc.McuWidth(sc.comps[ci])
    ensures |planes| == |sc.comps| && sc.InImage(sc.comps[ci], planes[ci], m)
    ensures var c, k := sc.comps[ci], Offset(sc, ci) + (y * sc.McuWidth(sc.comps[ci]) + x);
            && k < |sc.McuBlocks(planes, i, yoffset, m, n)|
            && sc.McuBlocks(planes, i, yoffset, m, n)[k]
               == sc.Padded(c, planes[ci], sc.RowAt(c, i) + yoffset + y, m, x)
  {
    hide Scan.PartBlocks, Scan.McuWidth, Scan.McuHeight, Scan.Padded, Scan.RowAt, Scan.McuBlocks, Offset, Scan.AllInImage,
         Scan.InImage;
    McuSize(sc, planes, i, yoffset, m, n - 1);
    OneComponentMore(sc, planes, i, yoffset, m, n - 1);
    if ci < n - 1 {
      McuBlockAt(sc, planes, i, yoffset, m, n - 1, ci, y, x);
    } else {
      var c := sc.comps[ci];
      PartBlockAt(sc, c, planes[ci], sc.RowAt(c, i) + yoffset, m, sc.McuHeight(c), y, x);
    }
  }

  // ---------------------------------------------------------------- MCUs in a scan

  lemma {:induction false} RowOfMcus(sc: Scan, planes: seq<Plane>, i: nat, yoffset: nat, n: nat)
    requires sc.Valid() && sc.Shaped(planes) && n <= sc.McusPerRow()
    ensures |sc.McusOfRow(planes, i, yoffset, n)| == n
  {
    hide Scan.Mcu;
    if n > 0 { RowOfMcus(sc, planes, i, yoffset, n - 1); }
  }

  lemma {:induction false} ImcuSize(sc: Scan, planes: seq<Plane>, i: nat, n: nat)
    requires sc.Valid() && sc.Shaped(planes)
    ensures |sc.McusOfImcu(planes, i, n)| == n * sc.McusPerRow()
  {
    hide Scan.McusOfRow, Scan.McusPerRow;
    if n > 0 {
      ImcuSize(sc, planes, i, n - 1);
      RowOfMcus(sc, planes, i, n - 1, sc.McusPerRow());
      Product(n, sc.McusPerRow());
    }
  }

  lemma Product(n: nat, w: nat)
    requires n >= 1
    ensures (n - 1) * w + w == n * w
  {
  }

  /** The MCU rows in front of iMCU row `i`. */
  function RowsBefore(sc: Scan, i: nat): nat
    requires |sc.comps| >= 1
  {
    if sc.Interleaved() then i else i * sc.comps[0].vSamp
  }

  lemma {:induction false} McusToSize(sc: Scan, planes: seq<Plane>, n: nat)
    requires sc.Valid() && sc.Shaped(planes) && n < sc.imcuRows
    ensures |sc.McusTo(planes, n)| == RowsBefore(sc, n) * sc.McusPerRow()
  {
    hide Scan.McusOfImcu, Scan.McusPerRow;
    if n > 0 {
      McusToSize(sc, planes, n - 1);
      sc.RowsAreThere(n - 1);
      var rows := sc.McuRows(n - 1);
      ImcuSize(sc, planes, n - 1, rows);
      var w, r := sc.McusPerRow(), RowsBefore(sc, n - 1);
      assert RowsBefore(sc, n) == r + rows by {
        if !sc.Interleaved() { Product(n, sc.comps[0].vSamp); }
      }
      assert (r + rows) * w == r * w + rows * w;
    } else {
      assert 0 * sc.McusPerRow() == 0;
    }
  }

  /** The number of an MCU when the rows are counted from the top and the columns from the left. */
  function Number(sc: Scan, i: nat, yoffset: nat, m: nat): nat
    requires |sc.comps| >= 1
  {
    (RowsBefore(sc, i) + yoffset) * sc.McusPerRow() + m
  }

  lemma ThreeSizes<T>(a: seq<T>, b: seq<T>, c: seq<T>, r: nat, y: nat, w: nat)
    requires |a| == r * w && |b| == y * w
    ensures |a + b + c| == (r + y) * w + |c|
  {
    Distributes(r, y, w);
  }

  lemma BeforeSize(sc: Scan, planes: seq<Plane>, i: nat, yoffset: nat, m: nat)
    requires sc.Valid() && sc.Shaped(planes) && i < sc.imcuRows && m <= sc.McusPerRow()
    ensures |sc.Before(planes, i, yoffset, m)| == Number(sc, i, yoffset, m)
  {
    McusToSize(sc, planes, i);
    ImcuSize(sc, planes, i, yoffset);
    RowOfMcus(sc, planes, i, yoffset, m);
    hide Scan.McusTo, Scan.McusOfImcu, Scan.McusOfRow, Scan.McusPerRow, RowsBefore, Scan.Valid, Scan.Shaped;
    ThreeSizes(sc.McusTo(planes, i), sc.McusOfImcu(planes, i, yoffset), sc.McusOfRow(planes, i, yoffset, m),
               RowsBefore(sc, i), yoffset, sc.McusPerRow());
  }

  /** The MCUs of a scan are in raster order. */
  lemma McuNumber(sc: Scan, planes: seq<Plane>, i: nat, yoffset: nat, m: nat)
    requires sc.Valid() && sc.Shaped(planes) && i < sc.imcuRows && yoffset < sc.McuRows(i) && m < sc.McusPerRow()
    ensures sc.AllInImage(planes, m)
    ensures var k, all := Number(sc, i, yoffset, m), sc.McusTo(planes, sc.imcuRows);
            k < |all| && all[k] == sc.Mcu(planes, i, yoffset, m)
  {
    sc.AllColumnsFit(planes, m);
    sc.NextMcu(planes, i, yoffset, m);
    BeforeSize(sc, planes, i, yoffset, m);
    hide *;
  }

  // ---------------------------------------------------------------- where a block of the image stands

  /** In a scan of one component, the block at `row` and `col` is the only one of the MCU with its number in the image. */
  lemma BlockAlone(sc: Scan, planes: seq<Plane>, row: nat, col: nat)
    requires sc.Valid() && sc.Shaped(planes) && |sc.comps| == 1
    requires row < sc.comps[0].heightInBlocks && col < sc.comps[0].widthInBlocks
    ensures |planes| == 1 && row < |planes[0]| && col < |planes[0][row]|
    ensures var k, all := row * sc.comps[0].widthInBlocks + col, sc.McusTo(planes, sc.imcuRows);
            k < |all| && all[k] == [planes[0][row][col]]
  {
    var c := sc.comps[0];
    assert sc.Fits(c);
    var i, yoffset := row / c.vSamp, row % c.vSamp;
    assert row == i * c.vSamp + yoffset;
    AloneRow(sc, i, yoffset);
    McuNumber(sc, planes, i, yoffset, col);
    var mcu := sc.Mcu(planes, i, yoffset, col);
    McuBlockAt(sc, planes, i, yoffset, col, 1, 0, 0, 0);
    McuSize(sc, planes, i, yoffset, col, 1);
    assert mcu == [mcu[0]];
  }

  lemma AloneRow(sc: Scan, i: nat, yoffset: nat)
    requires sc.Valid() && |sc.comps| == 1
    requires sc.comps[0].vSamp >= 1 && yoffset < sc.comps[0].vSamp
    requires i * sc.comps[0].vSamp + yoffset < sc.comps[0].heightInBlocks
    ensures i < sc.imcuRows && yoffset < sc.McuRows(i)
  {
    var c := sc.comps[0];
    assert sc.Fits(c);
    if i >= sc.imcuRows { Grows(sc.imcuRows, i, c.vSamp); }
  }

  /** In an interleaved scan, the block at row `y` and column `x` of what component `ci` has in the MCU in row `i` and
      column `m` stands behind the blocks of the components before, the rows above and the columns to the left. In the
      image it is at row i * v + y and column m * h + x; where there is no such row or column, its DC value is that of
      the last block of the MCU in the nearest row, and all its other coefficients are zero. */
  lemma BlockInMcu(sc: Scan, planes: seq<Plane>, i: nat, m: nat, ci: nat, y: nat, x: nat)
    requires sc.Valid() && sc.Shaped(planes) && |sc.comps| > 1 && i < sc.imcuRows && m < sc.mcusAcross
    requires ci < |sc.comps| && y < sc.comps[ci].vSamp && x < sc.comps[ci].hSamp
    ensures var c, p, all := sc.comps[ci], planes[ci], sc.McusTo(planes, sc.imcuRows);
            var k, j := i * sc.mcusAcross + m, Offset(sc, ci) + (y * c.hSamp + x);
            var row, col := i * c.vSamp + y, m * c.hSamp + x;
            && k < |all| && j < |all[k]|
            && if row < c.heightInBlocks && col < c.widthInBlocks then all[k][j] == p[row][col]
               else
                 var r := if row < c.heightInBlocks then row else c.heightInBlocks - 1;
                 var last := if (m + 1) * c.hSamp <= c.widthInBlocks then (m + 1) * c.hSamp - 1 else c.widthInBlocks - 1;
                 0 <= r < |p| && 0 <= last < |p[r]| && all[k][j][0] == p[r][last][0]
                 && forall f :: 1 <= f < 64 ==> all[k][j][f] == 0
  {
    var c := sc.comps[ci];
    assert sc.Fits(c);
    sc.RowsAreThere(i);
    McuNumber(sc, planes, i, 0, m);
    McuBlockAt(sc, planes, i, 0, m, |sc.comps|, ci, y, x);
    hide Scan.McusTo, Scan.McuBlocks, Offset;
    PaddedIs(sc, c, planes[ci], i * c.vSamp + y, m, x);
  }

  lemma PaddedIs(sc: Scan, c: Component, p: Plane, row: nat, m: nat, x: nat)
    requires sc.Valid() && c in sc.comps && sc.ShapedPlane(c, p) && |sc.comps| > 1 && m < sc.mcusAcross && x < c.hSamp
    ensures sc.InImage(c, p, m)
    ensures var z, col := sc.Padded(c, p, row, m, x), m * c.hSamp + x;
            if row < c.heightInBlocks && col < c.widthInBlocks then z == p[row][col]
            else
              var r := if row < c.heightInBlocks then row else c.heightInBlocks - 1;
              var last := if (m + 1) * c.hSamp <= c.widthInBlocks then (m + 1) * c.hSamp - 1 else c.widthInBlocks - 1;
              0 <= r < |p| && 0 <= last < |p[r]| && z[0] == p[r][last][0] && forall f :: 1 <= f < 64 ==> z[f] == 0
  {
    assert sc.Fits(c);
    sc.ColumnsFit(c, m);
    Edge(m, sc.mcusAcross, c.hSamp, c.widthInBlocks);
    var first, count := m * c.hSamp, sc.RealCols(c, m);
    assert sc.ColAt(c, m) == first && 1 <= count <= c.hSamp;
    assert count == if (m + 1) * c.hSamp <= c.widthInBlocks then c.hSamp else c.widthInBlocks - first;
    hide Scan.ColAt, Scan.RealCols, Scan.McusPerRow, Scan.Fits, Scan.Valid;
    assert first + count - 1 == if (m + 1) * c.hSamp <= c.widthInBlocks then (m + 1) * c.hSamp - 1 else c.widthInBlocks - 1;
  }

  /** A column of MCUs is full unless it is the last one. */
  lemma Edge(m: nat, n: nat, h: nat, width: nat)
    requires m < n && h >= 1 && (n - 1) * h < width <= n * h
    ensures (m + 1) * h == m * h + h
    ensures m < n - 1 ==> (m + 1) * h <= width
    ensures m == n - 1 ==> (width - m * h == h <==> (m + 1) * h <= width)
  {
    if m < n - 1 { Grows(m + 1, n - 1, h); }
  }
}
