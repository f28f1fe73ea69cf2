/** Which blocks the scans of an image go through: interleaved scans also through those that only fill up MCUs at the
    right and bottom edges, scans of one component only through those of the image (per_scan_setup in jcmaster.c and
    jdinput.c, the full-image buffers in jccoefct.c, jctrans.c and jdcoefct.c). */
module ScanPlans {
  import opened Arithmetic
  import opened Geometry
  import opened PointTransform
  import opened McuTiling
  import opened ScanImages
  import opened RestartIntervals
  import opened Seqs
  import Script = ScanScript

  // ---------------------------------------------------------------- the order of the blocks

  /** The length of a block row of the full-image buffer. */
  function Stride(sc: Scan, c: Component): nat { sc.mcusAcross * c.hSamp }

  function IndexOf(sc: Scan, c: Component, row: nat, col: nat): nat { row * Stride(sc, c) + col }

  /** The cells of the first `n` blocks of a row of an MCU. */
  function RowCells(sc: Scan, ci: nat, row: nat, m: nat, n: nat): (r: seq<Cell>)
    requires ci < |sc.comps|
    ensures |r| == n
  {
    if n == 0 then []
    else RowCells(sc, ci, row, m, n - 1) + [Cell(ci, IndexOf(sc, sc.comps[ci], row, sc.ColAt(sc.comps[ci], m) + (n - 1)))]
  }

  /** Of the first `n` rows of what a component has in an MCU. */
  function PartCells(sc: Scan, ci: nat, row: nat, m: nat, n: nat): seq<Cell>
    requires ci < |sc.comps|
  {
    if n == 0 then []
    else PartCells(sc, ci, row, m, n - 1) + RowCells(sc, ci, row + (n - 1), m, sc.McuWidth(sc.comps[ci]))
  }

  /** Of the first `n` components in an MCU. */
  function McuCells(sc: Scan, i: nat, yoffset: nat, m: nat, n: nat): seq<Cell>
    requires n <= |sc.comps|
  {
    if n == 0 then []
    else
      var c := sc.comps[n - 1];
      McuCells(sc, i, yoffset, m, n - 1) + PartCells(sc, n - 1, sc.RowAt(c, i) + yoffset, m, sc.McuHeight(c))
  }

  function McuRowCells(sc: Scan, i: nat, yoffset: nat, n: nat): seq<seq<Cell>> {
    if n == 0 then [] else McuRowCells(sc, i, yoffset, n - 1) + [McuCells(sc, i, yoffset, n - 1, |sc.comps|)]
  }

  function ImcuCells(sc: Scan, i: nat, n: nat): seq<seq<Cell>>
    requires |sc.comps| >= 1
  {
    if n == 0 then [] else ImcuCells(sc, i, n - 1) + McuRowCells(sc, i, n - 1, sc.McusPerRow())
  }

  /** The MCUs of the first `n` iMCU rows, in raster order. */
  function McusTo(sc: Scan, n: nat): seq<seq<Cell>>
    requires sc.Valid() && n <= sc.imcuRows
  {
    if n == 0 then []
    else
      sc.RowsAreThere(n - 1);
      McusTo(sc, n - 1) + ImcuCells(sc, n - 1, sc.McuRows(n - 1))
  }

  /** The blocks of the restart intervals of a scan. */
  function Plan(sc: Scan, interval: nat): seq<seq<Cell>>
    requires sc.Valid()
  {
    Intervals(McusTo(sc, sc.imcuRows), interval)
  }

  // ---------------------------------------------------------------- which cells there are

  function RowOf(sc: Scan, x: Cell): int
    requires x.ci < |sc.comps|
  {
    var w := Stride(sc, sc.comps[x.ci]);
    if w == 0 then 0 else x.index / w
  }

  function ColOf(sc: Scan, x: Cell): int
    requires x.ci < |sc.comps|
  {
    var w := Stride(sc, sc.comps[x.ci]);
    if w == 0 then 0 else x.index % w
  }

  /** The cell is in a rectangle of blocks. */
  predicate Inside(sc: Scan, x: Cell, ci: nat, row: int, rows: int, col: int, cols: int)
  {
    x.ci == ci && ci < |sc.comps| && row <= RowOf(sc, x) < row + rows && col <= ColOf(sc, x) < col + cols
  }

  lemma CellPlace(sc: Scan, ci: nat, row: nat, col: nat)
    requires ci < |sc.comps| && col < Stride(sc, sc.comps[ci])
    ensures var x := Cell(ci, IndexOf(sc, sc.comps[ci], row, col)); RowOf(sc, x) == row && ColOf(sc, x) == col
  {
    Quotient(IndexOf(sc, sc.comps[ci], row, col), row, Stride(sc, sc.comps[ci]), col);
  }

  lemma CellFromPlace(sc: Scan, x: Cell)
    requires x.ci < |sc.comps| && Stride(sc, sc.comps[x.ci]) > 0
    ensures RowOf(sc, x) >= 0 && 0 <= ColOf(sc, x) < Stride(sc, sc.comps[x.ci])
    ensures x == Cell(x.ci, IndexOf(sc, sc.comps[x.ci], RowOf(sc, x), ColOf(sc, x)))
  {
  }

  predicate NoneTwice(s: seq<Cell>) { forall i, j :: 0 <= i < j < |s| ==> s[i] != s[j] }

  lemma NoneTwiceSum(a: seq<Cell>, b: seq<Cell>)
    requires NoneTwice(a) && NoneTwice(b) && forall x :: x in a ==> x !in b
    ensures NoneTwice(a + b)
  {
    forall i, j | 0 <= i < j < |a + b| ensures (a + b)[i] != (a + b)[j] {
      if i < |a| <= j {
        assert a[i] in a && b[j - |a|] in b;
      }
    }
  }

  lemma {:induction false} RowHas(sc: Scan, ci: nat, row: nat, m: nat, n: nat)
    requires ci < |sc.comps| && sc.ColAt(sc.comps[ci], m) + n <= Stride(sc, sc.comps[ci]) && 0 < Stride(sc, sc.comps[ci])
    ensures forall x :: x in RowCells(sc, ci, row, m, n) <==> Inside(sc, x, ci, row, 1, sc.ColAt(sc.comps[ci], m), n)
    ensures NoneTwice(RowCells(sc, ci, row, m, n))
  {
    hide IndexOf, RowOf, ColOf;
    var c := sc.comps[ci];
    if n > 0 {
      RowHas(sc, ci, row, m, n - 1);
      var col := sc.ColAt(c, m) + (n - 1);
      var last := Cell(ci, IndexOf(sc, c, row, col));
      CellPlace(sc, ci, row, col);
      forall x: Cell ensures x == last <==> Inside(sc, x, ci, row, 1, col, 1) {
        if Inside(sc, x, ci, row, 1, col, 1) { CellFromPlace(sc, x); }
      }
      forall x: Cell
        ensures x in RowCells(sc, ci, row, m, n) <==> Inside(sc, x, ci, row, 1, sc.ColAt(c, m), n)
      {
        assert x in RowCells(sc, ci, row, m, n) <==> x in RowCells(sc, ci, row, m, n - 1) || x == last;
        assert Inside(sc, x, ci, row, 1, sc.ColAt(c, m), n)
          <==> Inside(sc, x, ci, row, 1, sc.ColAt(c, m), n - 1) || Inside(sc, x, ci, row, 1, col, 1);
      }
      NoneTwiceSum(RowCells(sc, ci, row, m, n - 1), [last]);
    }
  }

  lemma {:induction false} PartHas(sc: Scan, ci: nat, row: nat, m: nat, n: nat)
    requires ci < |sc.comps| && 0 < Stride(sc, sc.comps[ci])
    requires sc.ColAt(sc.comps[ci], m) + sc.McuWidth(sc.comps[ci]) <= Stride(sc, sc.comps[ci])
    ensures forall x :: x in PartCells(sc, ci, row, m, n)
                   <==> Inside(sc, x, ci, row, n, sc.ColAt(sc.comps[ci], m), sc.McuWidth(sc.comps[ci]))
    ensures NoneTwice(PartCells(sc, ci, row, m, n))
  {
    hide RowCells, RowOf, ColOf, Stride, Scan.ColAt, Scan.McuWidth;
    if n > 0 {
      var c := sc.comps[ci];
      PartHas(sc, ci, row, m, n - 1);
      RowHas(sc, ci, row + (n - 1), m, sc.McuWidth(c));
      NoneTwiceSum(PartCells(sc, ci, row, m, n - 1), RowCells(sc, ci, row + (n - 1), m, sc.McuWidth(c)));
    }
  }

  /** In an MCU. */
  predicate InMcu(sc: Scan, x: Cell, i: nat, yoffset: nat, m: nat) {
    x.ci < |sc.comps|
    && var c := sc.comps[x.ci];
       Inside(sc, x, x.ci, sc.RowAt(c, i) + yoffset, sc.McuHeight(c), sc.ColAt(c, m), sc.McuWidth(c))
  }

  /** Every MCU column is in the buffers. */
  lemma ColumnsInBuffer(sc: Scan, ci: nat, m: nat)
    requires sc.Valid() && ci < |sc.comps| && m < sc.McusPerRow()
    ensures sc.ColAt(sc.comps[ci], m) + sc.McuWidth(sc.comps[ci]) <= Stride(sc, sc.comps[ci])
    ensures 0 < Stride(sc, sc.comps[ci])
  {
    var c := sc.comps[ci];
    sc.ColumnsFit(c, m);
    assert sc.Fits(c);
    Distributes(m, 1, sc.McuWidth(c));
    if sc.Interleaved() { Grows(m + 1, sc.mcusAcross, c.hSamp); }
  }

  lemma {:induction false} McuHas(sc: Scan, i: nat, yoffset: nat, m: nat, n: nat)
    requires sc.Valid() && n <= |sc.comps| && m < sc.McusPerRow()
    ensures forall x :: x in McuCells(sc, i, yoffset, m, n) <==> InMcu(sc, x, i, yoffset, m) && x.ci < n
    ensures NoneTwice(McuCells(sc, i, yoffset, m, n))
  {
    hide PartCells, RowOf, ColOf, Stride, Scan.ColAt, Scan.McuWidth, Scan.McuHeight, Scan.RowAt, Scan.Valid, Scan.McusPerRow;
    if n > 0 {
      var c := sc.comps[n - 1];
      McuHas(sc, i, yoffset, m, n - 1);
      ColumnsInBuffer(sc, n - 1, m);
      PartHas(sc, n - 1, sc.RowAt(c, i) + yoffset, m, sc.McuHeight(c));
      NoneTwiceSum(McuCells(sc, i, yoffset, m, n - 1), PartCells(sc, n - 1, sc.RowAt(c, i) + yoffset, m, sc.McuHeight(c)));
    }
  }

  /** In the first `n` MCUs of an MCU row. */
  predicate InMcuRow(sc: Scan, x: Cell, i: nat, yoffset: nat, n: nat) {
    x.ci < |sc.comps|
    && var c := sc.comps[x.ci];
       Inside(sc, x, x.ci, sc.RowAt(c, i) + yoffset, sc.McuHeight(c), 0, sc.ColAt(c, n))
  }

  lemma NextColumn(sc: Scan, x: Cell, i: nat, yoffset: nat, n: nat)
    requires sc.Valid()
    ensures x.ci < |sc.comps| && Stride(sc, sc.comps[x.ci]) > 0 ==>
              && (InMcuRow(sc, x, i, yoffset, n + 1) <==> InMcuRow(sc, x, i, yoffset, n) || InMcu(sc, x, i, yoffset, n))
              && !(InMcuRow(sc, x, i, yoffset, n) && InMcu(sc, x, i, yoffset, n))
  {
    if x.ci < |sc.comps| {
      Distributes(n, 1, sc.McuWidth(sc.comps[x.ci]));
      if Stride(sc, sc.comps[x.ci]) > 0 { CellFromPlace(sc, x); }
    }
    hide RowOf, ColOf, Stride, Scan.McuWidth, Scan.McuHeight, Scan.RowAt, Scan.Valid;
  }

  lemma Strides(sc: Scan)
    requires sc.Valid()
    ensures forall ci :: 0 <= ci < |sc.comps| ==> Stride(sc, sc.comps[ci]) > 0
  {
    forall ci | 0 <= ci < |sc.comps| ensures Stride(sc, sc.comps[ci]) > 0 {
      assert sc.Fits(sc.comps[ci]);
      Grows(1, sc.mcusAcross, sc.comps[ci].hSamp);
    }
  }

  lemma {:induction false} McuRowHas(sc: Scan, i: nat, yoffset: nat, n: nat)
    requires sc.Valid() && n <= sc.McusPerRow()
    ensures forall x :: x in Flat(McuRowCells(sc, i, yoffset, n)) <==> InMcuRow(sc, x, i, yoffset, n)
    ensures NoneTwice(Flat(McuRowCells(sc, i, yoffset, n)))
  {
    hide McuCells, InMcu, InMcuRow, Stride, Scan.Valid, Scan.McusPerRow, NoneTwice;
    if n == 0 {
      NoColumns(sc, i, yoffset);
    } else {
      var front, mcu := McuRowCells(sc, i, yoffset, n - 1), McuCells(sc, i, yoffset, n - 1, |sc.comps|);
      McuRowHas(sc, i, yoffset, n - 1);
      McuHas(sc, i, yoffset, n - 1, |sc.comps|);
      FlatSnoc(front, mcu);
      Strides(sc);
      forall x: Cell
        ensures InMcuRow(sc, x, i, yoffset, n) <==> InMcuRow(sc, x, i, yoffset, n - 1) || InMcu(sc, x, i, yoffset, n - 1)
        ensures !(InMcuRow(sc, x, i, yoffset, n - 1) && InMcu(sc, x, i, yoffset, n - 1))
      {
        InMcuComponent(sc, x, i, yoffset, n);
        NextColumn(sc, x, i, yoffset, n - 1);
      }
      forall x: Cell ensures x in mcu <==> InMcu(sc, x, i, yoffset, n - 1) { InMcuComponent(sc, x, i, yoffset, n); }
      forall x | x in Flat(front) ensures x !in mcu {
        assert InMcuRow(sc, x, i, yoffset, n - 1);
        InMcuComponent(sc, x, i, yoffset, n);
        NextColumn(sc, x, i, yoffset, n - 1);
      }
      NoneTwiceSum(Flat(front), mcu);
    }
  }

  lemma NoColumns(sc: Scan, i: nat, yoffset: nat)
    requires sc.Valid()
    ensures Flat(McuRowCells(sc, i, yoffset, 0)) == [] && NoneTwice([])
    ensures forall x :: !InMcuRow(sc, x, i, yoffset, 0)
  {
    Strides(sc);
    forall x | InMcuRow(sc, x, i, yoffset, 0) ensures false {
      CellFromPlace(sc, x);
    }
  }

  lemma InMcuComponent(sc: Scan, x: Cell, i: nat, yoffset: nat, n: nat)
    requires n > 0
    ensures InMcu(sc, x, i, yoffset, n - 1) || InMcuRow(sc, x, i, yoffset, n) || InMcuRow(sc, x, i, yoffset, n - 1) ==> x.ci < |sc.comps|
  {
  }

  // ---------------------------------------------------------------- iMCU rows

  /** In the first `n` MCU rows of an iMCU row. */
  predicate InImcu(sc: Scan, x: Cell, i: nat, n: nat) {
    |sc.comps| >= 1 && x.ci < |sc.comps|
    && var c := sc.comps[x.ci];
       n > 0 && Inside(sc, x, x.ci, sc.RowAt(c, i), (n - 1) + sc.McuHeight(c), 0, sc.ColAt(c, sc.McusPerRow()))
  }

  /** An interleaved scan has one MCU row to an iMCU row, others have MCU rows of one block row. */
  lemma NextMcuRow(sc: Scan, x: Cell, i: nat, n: nat)
    requires |sc.comps| >= 1 && (n == 0 || !sc.Interleaved())
    ensures InImcu(sc, x, i, n + 1) <==> InImcu(sc, x, i, n) || InMcuRow(sc, x, i, n, sc.McusPerRow())
    ensures !(InImcu(sc, x, i, n) && InMcuRow(sc, x, i, n, sc.McusPerRow()))
  {
    hide RowOf, ColOf, Stride, Scan.ColAt, Scan.McusPerRow, Scan.RowAt;
  }

  lemma {:induction false} ImcuHas(sc: Scan, i: nat, n: nat)
    requires sc.Valid() && (n <= 1 || !sc.Interleaved())
    ensures forall x :: x in Flat(ImcuCells(sc, i, n)) <==> InImcu(sc, x, i, n)
    ensures NoneTwice(Flat(ImcuCells(sc, i, n)))
  {
    hide McuRowCells, InMcuRow, InImcu, Stride, NoneTwice, Scan.McusPerRow, Scan.Fits;
    if n == 0 {
      NoMcuRows(sc, i);
    } else {
      var front, row := ImcuCells(sc, i, n - 1), McuRowCells(sc, i, n - 1, sc.McusPerRow());
      ImcuHas(sc, i, n - 1);
      McuRowHas(sc, i, n - 1, sc.McusPerRow());
      FlatSum(front, row);
      forall x: Cell
        ensures InImcu(sc, x, i, n) <==> InImcu(sc, x, i, n - 1) || InMcuRow(sc, x, i, n - 1, sc.McusPerRow())
        ensures !(InImcu(sc, x, i, n - 1) && InMcuRow(sc, x, i, n - 1, sc.McusPerRow()))
      {
        NextMcuRow(sc, x, i, n - 1);
      }
      forall x | x in Flat(front) ensures x !in Flat(row) {
        NextMcuRow(sc, x, i, n - 1);
      }
      NoneTwiceSum(Flat(front), Flat(row));
    }
  }

  lemma NoMcuRows(sc: Scan, i: nat)
    requires |sc.comps| >= 1
    ensures Flat(ImcuCells(sc, i, 0)) == [] && NoneTwice([])
    ensures forall x :: !InImcu(sc, x, i, 0)
  {
  }

  lemma {:induction false} FlatSum<T>(a: seq<seq<T>>, b: seq<seq<T>>)
    ensures Flat(a + b) == Flat(a) + Flat(b)
    decreases |a|
  {
    if a == [] {
      assert a + b == b;
    } else {
      assert (a + b)[1..] == a[1..] + b;
      FlatSum(a[1..], b);
      Assoc(a[0], Flat(a[1..]), Flat(b));
    }
  }

  // ---------------------------------------------------------------- the whole scan

  /** How many block rows of a component the first `n` iMCU rows of the scan hold. */
  function RowsTo(sc: Scan, c: Component, n: nat): nat {
    if sc.Interleaved() || n < sc.imcuRows then sc.RowAt(c, n) else c.heightInBlocks
  }

  /** How many block columns. */
  function Cols(sc: Scan, c: Component): nat
    requires |sc.comps| >= 1
  {
    sc.ColAt(c, sc.McusPerRow())
  }

  predicate InRows(sc: Scan, x: Cell, n: nat) {
    |sc.comps| >= 1 && x.ci < |sc.comps|
    && var c := sc.comps[x.ci]; Inside(sc, x, x.ci, 0, RowsTo(sc, c, n), 0, Cols(sc, c))
  }

  lemma NextImcu(sc: Scan, x: Cell, i: nat)
    requires sc.Valid() && i < sc.imcuRows
    ensures sc.McuRows(i) >= 1
    ensures InRows(sc, x, i + 1) <==> InRows(sc, x, i) || InImcu(sc, x, i, sc.McuRows(i))
    ensures !(InRows(sc, x, i) && InImcu(sc, x, i, sc.McuRows(i)))
  {
    sc.RowsAreThere(i);
    Strides(sc);
    if x.ci < |sc.comps| {
      CellFromPlace(sc, x);
      var c := sc.comps[x.ci];
      assert c in sc.comps && sc.Fits(c);
      assert x.ci == 0 || sc.Interleaved();
    }
    hide RowOf, ColOf, Stride, Scan.ColAt, Scan.McusPerRow, Scan.RowAt, Scan.Valid, Scan.Fits;
  }

  lemma {:induction false} McusHave(sc: Scan, n: nat)
    requires sc.Valid() && n <= sc.imcuRows
    ensures forall x :: x in Flat(McusTo(sc, n)) <==> InRows(sc, x, n)
    ensures NoneTwice(Flat(McusTo(sc, n)))
  {
    hide ImcuCells, InImcu, InRows, Stride, NoneTwice, Scan.McusPerRow;
    if n == 0 {
      NoRows(sc);
    } else {
      sc.RowsAreThere(n - 1);
      var rows := sc.McuRows(n - 1);
      var front, row := McusTo(sc, n - 1), ImcuCells(sc, n - 1, rows);
      McusHave(sc, n - 1);
      ImcuHas(sc, n - 1, rows);
      FlatSum(front, row);
      forall x: Cell
        ensures InRows(sc, x, n) <==> InRows(sc, x, n - 1) || InImcu(sc, x, n - 1, rows)
        ensures !(InRows(sc, x, n - 1) && InImcu(sc, x, n - 1, rows))
      {
        NextImcu(sc, x, n - 1);
      }
      forall x | x in Flat(front) ensures x !in Flat(row) {
        NextImcu(sc, x, n - 1);
      }
      NoneTwiceSum(Flat(front), Flat(row));
    }
  }

  lemma NoRows(sc: Scan)
    requires sc.Valid()
    ensures Flat(McusTo(sc, 0)) == [] && NoneTwice([])
    ensures forall x :: !InRows(sc, x, 0)
  {
    Strides(sc);
    forall x | InRows(sc, x, 0) ensures false {
      CellFromPlace(sc, x);
    }
  }

  /** The block is one of the image, not one that fills up an MCU. */
  predicate InImage(sc: Scan, x: Cell) {
    x.ci < |sc.comps|
    && var c := sc.comps[x.ci]; Inside(sc, x, x.ci, 0, c.heightInBlocks, 0, c.widthInBlocks)
  }

  predicate InBuffer(sc: Scan, x: Cell) {
    x.ci < |sc.comps|
    && var c := sc.comps[x.ci]; Inside(sc, x, x.ci, 0, sc.RowAt(c, sc.imcuRows), 0, Stride(sc, c))
  }

  /** An interleaved scan goes once through every block of the buffers, a scan of one component once through every block of
      the image and through no others. */
  lemma PlanHas(sc: Scan, interval: nat)
    requires sc.Valid()
    ensures forall x :: x in Flat(Plan(sc, interval)) <==> if sc.Interleaved() then InBuffer(sc, x) else InImage(sc, x)
    ensures NoneTwice(Flat(Plan(sc, interval)))
  {
    McusHave(sc, sc.imcuRows);
    IntervalsHoldAll(McusTo(sc, sc.imcuRows), interval);
    hide RowOf, ColOf, NoneTwice, McusTo, Intervals;
    forall x: Cell ensures InRows(sc, x, sc.imcuRows) <==> if sc.Interleaved() then InBuffer(sc, x) else InImage(sc, x) {
    }
  }

  // ---------------------------------------------------------------- the image in its buffers

  /** The components of a scan. */
  function Selected(frame: Scan, comps: seq<int>): (sc: Scan)
    requires forall k :: 0 <= k < |comps| ==> 0 <= comps[k] < |frame.comps|
    ensures |sc.comps| == |comps|
  {
    Scan(seq(|comps|, k requires 0 <= k < |comps| => frame.comps[comps[k]]), frame.mcusAcross, frame.imcuRows)
  }

  lemma SelectedIsValid(frame: Scan, comps: seq<int>)
    requires frame.Valid() && |comps| >= 1 && forall k :: 0 <= k < |comps| ==> 0 <= comps[k] < |frame.comps|
    ensures Selected(frame, comps).Valid()
  {
    var sc := Selected(frame, comps);
    forall c | c in sc.comps ensures sc.Fits(c) {
      assert frame.Fits(c);
    }
  }

  function BufferSize(frame: Scan, c: Component): nat { frame.RowAt(c, frame.imcuRows) * Stride(frame, c) }

  /** What the full-image buffer of a component holds at a block row and column: behind the right edge the DC value of the
      last block of the row, below the bottom edge that of the last block of the MCU in the last row. */
  function PaddedAt(c: Component, p: Plane, row: nat, col: nat): Block
    requires Scan.ShapedPlane(c, p) && c.hSamp >= 1 && c.widthInBlocks >= 1 && c.heightInBlocks >= 1
  {
    if row >= c.heightInBlocks then
      var end := (col / c.hSamp) * c.hSamp + c.hSamp;
      Dummy(p[c.heightInBlocks - 1][(if end <= c.widthInBlocks then end else c.widthInBlocks) - 1])
    else if col >= c.widthInBlocks then Dummy(p[row][c.widthInBlocks - 1])
    else p[row][col]
  }

  lemma FrameFacts(frame: Scan, c: Component)
    requires frame.Valid() && c in frame.comps
    ensures c.hSamp >= 1 && c.vSamp >= 1 && c.widthInBlocks >= 1 && c.heightInBlocks >= 1
    ensures c.widthInBlocks <= Stride(frame, c) && c.heightInBlocks <= frame.RowAt(c, frame.imcuRows)
  {
    assert frame.Fits(c);
    Grows(0, frame.mcusAcross - 1, c.hSamp);
    Grows(0, frame.imcuRows - 1, c.vSamp);
  }

  function PlaneBuffer(frame: Scan, c: Component, p: Plane): (r: seq<Block>)
    requires frame.Valid() && c in frame.comps && Scan.ShapedPlane(c, p)
    ensures |r| == BufferSize(frame, c)
  {
    FrameFacts(frame, c);
    var w := Stride(frame, c);
    seq(BufferSize(frame, c), i requires 0 <= i < BufferSize(frame, c) => PaddedAt(c, p, i / w, i % w))
  }

  /** The image as the buffers hold it. */
  function Buffers(frame: Scan, planes: seq<Plane>): (img: Image)
    requires frame.Valid() && frame.Shaped(planes)
    ensures |img| == |frame.comps|
  {
    seq(|planes|, c requires 0 <= c < |planes| => PlaneBuffer(frame, frame.comps[c], planes[c]))
  }

  /** The blocks that are not there to fill up MCUs. */
  function ImageBlocks(frame: Scan): set<(nat, nat)> {
    set c: nat, i: nat | c < |frame.comps| && i < BufferSize(frame, frame.comps[c]) && InImage(frame, Cell(c, i)) :: (c, i)
  }

  /** In the buffers: the index of every position, and back. */
  lemma BufferIndex(frame: Scan, x: Cell)
    requires frame.Valid() && x.ci < |frame.comps|
    ensures InBuffer(frame, x) <==> x.index < BufferSize(frame, frame.comps[x.ci])
    ensures InImage(frame, x) ==> InBuffer(frame, x)
  {
    var c := frame.comps[x.ci];
    var w, h := Stride(frame, c), frame.RowAt(c, frame.imcuRows);
    Strides(frame);
    FrameFacts(frame, c);
    CellFromPlace(frame, x);
    var row := RowOf(frame, x);
    if row < h { GrowsByOne(row, h, w); } else { Grows(h, row, w); }
  }

  /** The place of a cell is the same in the frame and in the scan. */
  lemma SameCell(frame: Scan, comps: seq<int>, x: Cell)
    requires frame.Valid() && |comps| >= 1 && forall k :: 0 <= k < |comps| ==> 0 <= comps[k] < |frame.comps|
    requires x.ci < |comps|
    ensures var sc, y := Selected(frame, comps), Cell(comps[x.ci], x.index);
            (InBuffer(sc, x) <==> InBuffer(frame, y)) && (InImage(sc, x) <==> InImage(frame, y))
  {
  }

  lemma FlatHas<T>(parts: seq<seq<T>>, x: T)
    ensures x in Flat(parts) <==> exists p :: 0 <= p < |parts| && x in parts[p]
    decreases |parts|
  {
    if parts != [] {
      FlatHas(parts[1..], x);
      assert forall p :: 0 < p < |parts| ==> parts[p] == parts[1..][p - 1];
      if x in Flat(parts) && x !in parts[0] {
        var p :| 0 <= p < |parts[1..]| && x in parts[1..][p];
        assert x in parts[p + 1];
      }
    }
  }

  lemma {:induction false} NoneTwiceInParts(plan: seq<seq<Cell>>)
    requires NoneTwice(Flat(plan))
    ensures NoCellTwice(plan)
    decreases |plan|
  {
    if plan != [] {
      var first, rest := plan[0], Flat(plan[1..]);
      assert Flat(plan) == first + rest;
      assert NoneTwice(rest) by {
        forall i, j | 0 <= i < j < |rest| ensures rest[i] != rest[j] {
          assert Flat(plan)[|first| + i] == rest[i] && Flat(plan)[|first| + j] == rest[j];
        }
      }
      forall m, n | 0 <= m < |first| && 0 <= n < |rest| ensures first[m] != rest[n] {
        assert Flat(plan)[m] == first[m] && Flat(plan)[|first| + n] == rest[n];
      }
      NoneTwiceInParts(plan[1..]);
      forall p, i, q, j | 0 <= p < |plan| && 0 <= i < |plan[p]| && 0 <= q < |plan| && 0 <= j < |plan[q]| && plan[p][i] == plan[q][j]
        ensures p == q && i == j
      {
        if p == 0 && q == 0 {
          assert Flat(plan)[i] == first[i] && Flat(plan)[j] == first[j];
        } else if p == 0 || q == 0 {
          var r, k := if p == 0 then q else p, if p == 0 then j else i;
          assert plan[1..][r - 1] == plan[r] && plan[r][k] in plan[r];
          FlatHas(plan[1..], plan[r][k]);
        } else {
          assert plan[1..][p - 1] == plan[p] && plan[1..][q - 1] == plan[q];
        }
      }
    }
  }

  lemma VisitsAreCells(comps: seq<int>, plan: seq<seq<Cell>>, c: nat, i: nat)
    ensures PlanVisits(comps, plan, c, i) <==> exists k: nat :: k < |comps| && comps[k] == c && Cell(k, i) in Flat(plan)
  {
    if PlanVisits(comps, plan, c, i) {
      var p :| 0 <= p < |plan| && Visits(comps, plan[p], c, i);
      var j :| 0 <= j < |plan[p]| && plan[p][j].ci < |comps| && comps[plan[p][j].ci] == c && plan[p][j].index == i;
      FlatHas(plan, plan[p][j]);
      assert Cell(plan[p][j].ci, i) == plan[p][j];
    }
    if k: nat :| k < |comps| && comps[k] == c && Cell(k, i) in Flat(plan) {
      FlatHas(plan, Cell(k, i));
      var p :| 0 <= p < |plan| && Cell(k, i) in plan[p];
      assert Visits(comps, plan[p], c, i);
    }
  }

  /** The scan of a frame, with its restart interval. */
  function ScanOf(frame: Scan, s: Script.ScanInfo, interval: nat): ImageScan
    requires frame.Valid() && |s.comps| >= 1 && Script.ComponentsInOrder(|frame.comps|, s.comps)
  {
    SelectedIsValid(frame, s.comps);
    ImageScan(s, Plan(Selected(frame, s.comps), interval))
  }

  /** What a scan of the frame visits. */
  lemma ScanVisits(frame: Scan, s: Script.ScanInfo, interval: nat, c: nat, i: nat)
    requires frame.Valid() && |s.comps| >= 1 && Script.ComponentsInOrder(|frame.comps|, s.comps) && c < |frame.comps|
    ensures PlanVisits(s.comps, ScanOf(frame, s, interval).plan, c, i)
       <==> c in s.comps && if |s.comps| > 1 then InBuffer(frame, Cell(c, i)) else InImage(frame, Cell(c, i))
  {
    hide Plan, InBuffer, InImage, PlanVisits, Scan.Valid;
    var sc, plan := Selected(frame, s.comps), ScanOf(frame, s, interval).plan;
    SelectedIsValid(frame, s.comps);
    PlanHas(sc, interval);
    VisitsAreCells(s.comps, plan, c, i);
    forall k: nat | k < |s.comps| && s.comps[k] == c
      ensures Cell(k, i) in Flat(plan) <==> if |s.comps| > 1 then InBuffer(frame, Cell(c, i)) else InImage(frame, Cell(c, i))
    {
      SameCell(frame, s.comps, Cell(k, i));
    }
    if c in s.comps {
      var k :| 0 <= k < |s.comps| && s.comps[k] == c;
      assert Cell(k, i) in Flat(plan) <==> if |s.comps| > 1 then InBuffer(frame, Cell(c, i)) else InImage(frame, Cell(c, i));
    }
  }

  /** Every scan of a frame goes through all blocks of the image of its components, AC scans through no others. */
  lemma ScansCover(frame: Scan, planes: seq<Plane>, s: Script.ScanInfo, interval: nat)
    requires frame.Valid() && frame.Shaped(planes) && ValidKind(s)
    requires |s.comps| >= 1 && Script.ComponentsInOrder(|frame.comps|, s.comps)
    ensures Covers(Buffers(frame, planes), ScanOf(frame, s, interval), ImageBlocks(frame))
  {
    hide Plan, InBuffer, InImage, PlanVisits, Scan.Valid, Scan.Shaped, PlaneBuffer, BufferSize, Flat, NoCellTwice;
    var img, x := Buffers(frame, planes), ScanOf(frame, s, interval);
    var sc := Selected(frame, s.comps);
    SelectedIsValid(frame, s.comps);
    PlanHas(sc, interval);
    NoneTwiceInParts(x.plan);
    PlanIsThere(frame, planes, s, interval);
    forall b | b in ImageBlocks(frame) && b.0 in s.comps ensures PlanVisits(s.comps, x.plan, b.0, b.1) {
      ScanVisits(frame, s, interval, b.0, b.1);
      BufferIndex(frame, Cell(b.0, b.1));
    }
    if s.ss > 0 {
      forall c, i | 0 <= c < |img| && 0 <= i < |img[c]| && PlanVisits(s.comps, x.plan, c, i) ensures (c, i) in ImageBlocks(frame) {
        ScanVisits(frame, s, interval, c, i);
        BufferIndex(frame, Cell(c, i));
      }
    }
  }

  lemma PlanIsThere(frame: Scan, planes: seq<Plane>, s: Script.ScanInfo, interval: nat)
    requires frame.Valid() && frame.Shaped(planes) && |s.comps| >= 1 && Script.ComponentsInOrder(|frame.comps|, s.comps)
    ensures ScanOf(frame, s, interval).plan != []
    ensures PlanExists(Buffers(frame, planes), s.comps, ScanOf(frame, s, interval).plan)
  {
    hide InBuffer, InImage, Scan.Valid, Scan.Shaped, PlaneBuffer, BufferSize, Flat;
    var img, plan, sc := Buffers(frame, planes), ScanOf(frame, s, interval).plan, Selected(frame, s.comps);
    SelectedIsValid(frame, s.comps);
    PlanHas(sc, interval);
    hide Plan;
    forall p, j | 0 <= p < |plan| && 0 <= j < |plan[p]| ensures CellExists(img, s.comps, plan[p][j]) {
      var x := plan[p][j];
      FlatHas(plan, x);
      CellInScan(sc, x);
      SameCell(frame, s.comps, x);
      BufferIndex(frame, Cell(s.comps[x.ci], x.index));
    }
  }

  lemma CellInScan(sc: Scan, x: Cell)
    requires InBuffer(sc, x) || InImage(sc, x)
    ensures x.ci < |sc.comps|
  {
  }

  // ---------------------------------------------------------------- the blocks that are sent

  /** The planes of the components of a scan. */
  function SelectedPlanes(planes: seq<Plane>, comps: seq<int>): (r: seq<Plane>)
    requires forall k :: 0 <= k < |comps| ==> 0 <= comps[k] < |planes|
    ensures |r| == |comps|
  {
    seq(|comps|, k requires 0 <= k < |comps| => planes[comps[k]])
  }

  /** A position of an MCU in the buffers holds what the coefficient controllers send there. */
  lemma PaddedIsInBuffer(frame: Scan, sc: Scan, c: Component, p: Plane, row: nat, m: nat, x: nat)
    requires frame.Valid() && c in frame.comps && c in sc.comps && Scan.ShapedPlane(c, p)
    requires sc.Valid() && sc.mcusAcross == frame.mcusAcross && sc.imcuRows == frame.imcuRows
    requires m < sc.McusPerRow() && x < sc.McuWidth(c) && (sc.Interleaved() || (row < c.heightInBlocks && sc.comps == [c]))
    requires row < frame.RowAt(c, frame.imcuRows)
    ensures 1 <= sc.RealCols(c, m) && sc.ColAt(c, m) + sc.RealCols(c, m) <= c.widthInBlocks && c.heightInBlocks >= 1
    ensures IndexOf(frame, c, row, sc.ColAt(c, m) + x) < BufferSize(frame, c)
    ensures PlaneBuffer(frame, c, p)[IndexOf(frame, c, row, sc.ColAt(c, m) + x)] == sc.Padded(c, p, row, m, x)
  {
    var w, col := Stride(frame, c), sc.ColAt(c, m) + x;
    FrameFacts(frame, c);
    sc.ColumnsFit(c, m);
    var k :| 0 <= k < |sc.comps| && sc.comps[k] == c;
    ColumnsInBuffer(sc, k, m);
    assert col < w;
    Quotient(IndexOf(frame, c, row, col), row, w, col);
    GrowsByOne(row, frame.RowAt(c, frame.imcuRows), w);
    assert PlaneBuffer(frame, c, p)[IndexOf(frame, c, row, col)] == PaddedAt(c, p, row, col);
    if sc.Interleaved() {
      Quotient(col, m, c.hSamp, x);
      PaddedColumn(sc, c, m, x);
    }
  }

  lemma PaddedColumn(sc: Scan, c: Component, m: nat, x: nat)
    requires sc.Valid() && c in sc.comps && m < sc.McusPerRow() && x < sc.McuWidth(c) && sc.Interleaved()
    ensures var end := m * c.hSamp + c.hSamp;
            sc.ColAt(c, m) + sc.RealCols(c, m) == if end <= c.widthInBlocks then end else c.widthInBlocks
    ensures sc.ColAt(c, m) + x < c.widthInBlocks <==> x < sc.RealCols(c, m)
    ensures x >= sc.RealCols(c, m) ==> sc.ColAt(c, m) + sc.RealCols(c, m) == c.widthInBlocks
  {
    assert sc.Fits(c);
    Distributes(m, 1, c.hSamp);
    Distributes(sc.mcusAcross - 1, 1, c.hSamp);
    GrowsByOne(m, sc.mcusAcross, c.hSamp);
    if m < sc.mcusAcross - 1 { GrowsByOne(m, sc.mcusAcross - 1, c.hSamp); }
  }

  /** In the buffers the cells hold these blocks. */
  predicate Carry(img: Image, comps: seq<int>, cells: seq<Cell>, bs: seq<Block>) {
    CellsExist(img, comps, cells) && Gather(img, comps, cells) == bs
  }

  lemma CarrySum(img: Image, comps: seq<int>, a: seq<Cell>, b: seq<Cell>, x: seq<Block>, y: seq<Block>)
    requires Carry(img, comps, a, x) && Carry(img, comps, b, y)
    ensures Carry(img, comps, a + b, x + y)
  {
    hide CellExists;
    forall j | 0 <= j < |a + b| ensures CellExists(img, comps, (a + b)[j]) {
      assert (a + b)[j] == if j < |a| then a[j] else b[j - |a|];
    }
    assert Gather(img, comps, a + b) == Gather(img, comps, a) + Gather(img, comps, b);
  }

  predicate Chosen(frame: Scan, planes: seq<Plane>, comps: seq<int>) {
    && frame.Valid() && frame.Shaped(planes) && |planes| == |frame.comps| && |comps| >= 1
    && forall k :: 0 <= k < |comps| ==> 0 <= comps[k] < |frame.comps|
  }

  /** The scan and its planes fit together. */
  lemma ChosenFacts(frame: Scan, planes: seq<Plane>, comps: seq<int>, ci: nat, m: nat)
    requires Chosen(frame, planes, comps) && ci < |comps| && m < Selected(frame, comps).McusPerRow()
    ensures var sc, ps := Selected(frame, comps), SelectedPlanes(planes, comps);
            && sc.Valid() && sc.Shaped(ps) && sc.AllInImage(ps, m) && sc.InImage(sc.comps[ci], ps[ci], m)
            && sc.comps[ci] == frame.comps[comps[ci]] && sc.comps[ci] in frame.comps && sc.comps[ci] in sc.comps
            && (!sc.Interleaved() ==> sc.comps == [sc.comps[ci]])
            && Scan.ShapedPlane(sc.comps[ci], ps[ci])
  {
    var sc, ps := Selected(frame, comps), SelectedPlanes(planes, comps);
    SelectedIsValid(frame, comps);
    assert sc.Shaped(ps);
    sc.AllColumnsFit(ps, m);
  }

  lemma {:induction false} RowCarries(frame: Scan, planes: seq<Plane>, comps: seq<int>, ci: nat, row: nat, m: nat, n: nat)
    requires Chosen(frame, planes, comps) && ci < |comps| && m < Selected(frame, comps).McusPerRow()
    requires var sc, c := Selected(frame, comps), frame.comps[comps[ci]];
             n <= sc.McuWidth(c) && row < frame.RowAt(c, frame.imcuRows) && (sc.Interleaved() || row < c.heightInBlocks)
    ensures var sc, ps := Selected(frame, comps), SelectedPlanes(planes, comps);
            && sc.InImage(sc.comps[ci], ps[ci], m)
            && Carry(Buffers(frame, planes), comps, RowCells(sc, ci, row, m, n), sc.RowBlocks(sc.comps[ci], ps[ci], row, m, n))
  {
    hide PlaneBuffer, IndexOf, BufferSize, Scan.Padded, Scan.Valid, Scan.Shaped, Scan.ShapedPlane, Scan.InImage, Scan.McuWidth,
         Scan.RealCols, Scan.ColAt, Scan.RowAt, Scan.McusPerRow;
    var sc, ps, img := Selected(frame, comps), SelectedPlanes(planes, comps), Buffers(frame, planes);
    ChosenFacts(frame, planes, comps, ci, m);
    if n > 0 {
      var c := sc.comps[ci];
      RowCarries(frame, planes, comps, ci, row, m, n - 1);
      PaddedIsInBuffer(frame, sc, c, ps[ci], row, m, n - 1);
      SameIndex(frame, sc, c, row, sc.ColAt(c, m) + (n - 1));
      var last := Cell(ci, IndexOf(sc, c, row, sc.ColAt(c, m) + (n - 1)));
      assert CellExists(img, comps, last);
      assert Gather(img, comps, [last]) == [sc.Padded(c, ps[ci], row, m, n - 1)];
      CarrySum(img, comps, RowCells(sc, ci, row, m, n - 1), [last], sc.RowBlocks(c, ps[ci], row, m, n - 1),
               [sc.Padded(c, ps[ci], row, m, n - 1)]);
    }
  }

  lemma SameIndex(frame: Scan, sc: Scan, c: Component, row: nat, col: nat)
    requires sc.mcusAcross == frame.mcusAcross
    ensures IndexOf(sc, c, row, col) == IndexOf(frame, c, row, col)
  {
  }

  lemma {:induction false} PartCarries(frame: Scan, planes: seq<Plane>, comps: seq<int>, ci: nat, row: nat, m: nat, n: nat)
    requires Chosen(frame, planes, comps) && ci < |comps| && m < Selected(frame, comps).McusPerRow()
    requires var sc, c := Selected(frame, comps), frame.comps[comps[ci]];
             row + n <= frame.RowAt(c, frame.imcuRows) && (sc.Interleaved() || row + n <= c.heightInBlocks)
    ensures var sc, ps := Selected(frame, comps), SelectedPlanes(planes, comps);
            && sc.InImage(sc.comps[ci], ps[ci], m)
            && Carry(Buffers(frame, planes), comps, PartCells(sc, ci, row, m, n), sc.PartBlocks(sc.comps[ci], ps[ci], row, m, n))
  {
    hide RowCells, Scan.RowBlocks, Carry, Buffers, Scan.Valid, Scan.Shaped, Scan.ShapedPlane, Scan.InImage, Scan.McuWidth,
         Scan.RowAt, Scan.McusPerRow;
    var sc, ps, img := Selected(frame, comps), SelectedPlanes(planes, comps), Buffers(frame, planes);
    ChosenFacts(frame, planes, comps, ci, m);
    if n == 0 {
      NothingCarried(img, comps);
    } else {
      var c := sc.comps[ci];
      PartCarries(frame, planes, comps, ci, row, m, n - 1);
      RowCarries(frame, planes, comps, ci, row + (n - 1), m, sc.McuWidth(c));
      CarrySum(img, comps, PartCells(sc, ci, row, m, n - 1), RowCells(sc, ci, row + (n - 1), m, sc.McuWidth(c)),
               sc.PartBlocks(c, ps[ci], row, m, n - 1), sc.RowBlocks(c, ps[ci], row + n - 1, m, sc.McuWidth(c)));
    }
  }

  lemma NothingCarried(img: Image, comps: seq<int>)
    ensures Carry(img, comps, [], [])
  {
  }

  lemma {:induction false} McuCarries(frame: Scan, planes: seq<Plane>, comps: seq<int>, i: nat, yoffset: nat, m: nat, n: nat)
    requires Chosen(frame, planes, comps) && n <= |comps| && m < Selected(frame, comps).McusPerRow()
    requires i < frame.imcuRows && yoffset < Selected(frame, comps).McuRows(i)
    ensures var sc, ps := Selected(frame, comps), SelectedPlanes(planes, comps);
            && sc.AllInImage(ps, m)
            && Carry(Buffers(frame, planes), comps, McuCells(sc, i, yoffset, m, n), sc.McuBlocks(ps, i, yoffset, m, n))
  {
    hide PartCells, Scan.PartBlocks, Carry, Buffers, Scan.Valid, Scan.Shaped, Scan.ShapedPlane, Scan.AllInImage, Scan.InImage,
         Scan.McusPerRow;
    var sc, ps, img := Selected(frame, comps), SelectedPlanes(planes, comps), Buffers(frame, planes);
    ChosenFacts(frame, planes, comps, 0, m);
    if n == 0 {
      NothingCarried(img, comps);
    } else {
      var c := sc.comps[n - 1];
      ChosenFacts(frame, planes, comps, n - 1, m);
      McuCarries(frame, planes, comps, i, yoffset, m, n - 1);
      RowsFit(frame, planes, comps, i, yoffset, n - 1, m);
      PartCarries(frame, planes, comps, n - 1, sc.RowAt(c, i) + yoffset, m, sc.McuHeight(c));
      CarrySum(img, comps, McuCells(sc, i, yoffset, m, n - 1), PartCells(sc, n - 1, sc.RowAt(c, i) + yoffset, m, sc.McuHeight(c)),
               sc.McuBlocks(ps, i, yoffset, m, n - 1),
               sc.PartBlocks(c, ps[n - 1], sc.RowAt(c, i) + yoffset, m, sc.McuHeight(c)));
    }
  }

  /** The rows of an MCU are rows of the buffers, and of the image if the scan is not interleaved. */
  lemma RowsFit(frame: Scan, planes: seq<Plane>, comps: seq<int>, i: nat, yoffset: nat, ci: nat, m: nat)
    requires Chosen(frame, planes, comps) && ci < |comps| && m < Selected(frame, comps).McusPerRow()
    requires i < frame.imcuRows && yoffset < Selected(frame, comps).McuRows(i)
    ensures var sc, c := Selected(frame, comps), frame.comps[comps[ci]];
            var end := sc.RowAt(c, i) + yoffset + sc.McuHeight(c);
            end <= frame.RowAt(c, frame.imcuRows) && (sc.Interleaved() || end <= c.heightInBlocks)
  {
    var sc := Selected(frame, comps);
    ChosenFacts(frame, planes, comps, ci, m);
    sc.RowsAreThere(i);
    var c := sc.comps[ci];
    GrowsByOne(i, frame.imcuRows, c.vSamp);
    FrameFacts(frame, c);
    if !sc.Interleaved() {
      assert sc.comps[0] == c && sc.comps[0] in sc.comps;
      sc.RowsAreThere(frame.imcuRows - 1);
    }
  }

  /** The MCUs of a list, one by one. */
  predicate CarryAll(img: Image, comps: seq<int>, mcus: seq<seq<Cell>>, bs: seq<seq<Block>>) {
    |mcus| == |bs| && forall k :: 0 <= k < |mcus| ==> Carry(img, comps, mcus[k], bs[k])
  }

  lemma CarryAllSum(img: Image, comps: seq<int>, a: seq<seq<Cell>>, b: seq<seq<Cell>>, x: seq<seq<Block>>, y: seq<seq<Block>>)
    requires CarryAll(img, comps, a, x) && CarryAll(img, comps, b, y)
    ensures CarryAll(img, comps, a + b, x + y)
  {
    hide Carry;
  }

  lemma {:induction false} McuRowCarries(frame: Scan, planes: seq<Plane>, comps: seq<int>, i: nat, yoffset: nat, n: nat)
    requires Chosen(frame, planes, comps) && n <= Selected(frame, comps).McusPerRow()
    requires i < frame.imcuRows && yoffset < Selected(frame, comps).McuRows(i)
    ensures var sc, ps := Selected(frame, comps), SelectedPlanes(planes, comps);
            && sc.Valid() && sc.Shaped(ps)
            && CarryAll(Buffers(frame, planes), comps, McuRowCells(sc, i, yoffset, n), sc.McusOfRow(ps, i, yoffset, n))
  {
    hide McuCells, Carry, Buffers, Scan.Valid, Scan.Shaped, Scan.AllInImage, Scan.McuBlocks, Scan.McuRows, Scan.McusPerRow;
    var sc, ps, img := Selected(frame, comps), SelectedPlanes(planes, comps), Buffers(frame, planes);
    SelectionIsShaped(frame, planes, comps);
    if n > 0 {
      McuRowCarries(frame, planes, comps, i, yoffset, n - 1);
      sc.AllColumnsFit(ps, n - 1);
      McuCarries(frame, planes, comps, i, yoffset, n - 1, |comps|);
      CarryAllSum(img, comps, McuRowCells(sc, i, yoffset, n - 1), [McuCells(sc, i, yoffset, n - 1, |comps|)],
                  sc.McusOfRow(ps, i, yoffset, n - 1), [sc.Mcu(ps, i, yoffset, n - 1)]);
    }
  }

  lemma SelectionIsShaped(frame: Scan, planes: seq<Plane>, comps: seq<int>)
    requires Chosen(frame, planes, comps)
    ensures Selected(frame, comps).Valid() && Selected(frame, comps).Shaped(SelectedPlanes(planes, comps))
  {
    SelectedIsValid(frame, comps);
  }

  lemma {:induction false} ImcuCarries(frame: Scan, planes: seq<Plane>, comps: seq<int>, i: nat, n: nat)
    requires Chosen(frame, planes, comps) && i < frame.imcuRows && n <= Selected(frame, comps).McuRows(i)
    ensures var sc, ps := Selected(frame, comps), SelectedPlanes(planes, comps);
            && sc.Valid() && sc.Shaped(ps)
            && CarryAll(Buffers(frame, planes), comps, ImcuCells(sc, i, n), sc.McusOfImcu(ps, i, n))
  {
    hide McuRowCells, Carry, Buffers, Scan.Valid, Scan.Shaped, Scan.McusOfRow, Scan.McuRows, Scan.McusPerRow;
    var sc, ps, img := Selected(frame, comps), SelectedPlanes(planes, comps), Buffers(frame, planes);
    SelectionIsShaped(frame, planes, comps);
    if n > 0 {
      ImcuCarries(frame, planes, comps, i, n - 1);
      McuRowCarries(frame, planes, comps, i, n - 1, sc.McusPerRow());
      CarryAllSum(img, comps, ImcuCells(sc, i, n - 1), McuRowCells(sc, i, n - 1, sc.McusPerRow()),
                  sc.McusOfImcu(ps, i, n - 1), sc.McusOfRow(ps, i, n - 1, sc.McusPerRow()));
    }
  }

  /** What the plan of a scan takes from the buffers are the MCUs that the coefficient controllers send, dummy blocks included,
      in their order. */
  lemma {:induction false} McusCarry(frame: Scan, planes: seq<Plane>, comps: seq<int>, n: nat)
    requires Chosen(frame, planes, comps) && n <= frame.imcuRows
    ensures var sc, ps := Selected(frame, comps), SelectedPlanes(planes, comps);
            && sc.Valid() && sc.Shaped(ps)
            && CarryAll(Buffers(frame, planes), comps, McusTo(sc, n), sc.McusTo(ps, n))
  {
    hide ImcuCells, Carry, Buffers, Scan.Valid, Scan.Shaped, Scan.McusOfImcu, Scan.McuRows;
    var sc, ps, img := Selected(frame, comps), SelectedPlanes(planes, comps), Buffers(frame, planes);
    SelectionIsShaped(frame, planes, comps);
    if n > 0 {
      sc.RowsAreThere(n - 1);
      McusCarry(frame, planes, comps, n - 1);
      ImcuCarries(frame, planes, comps, n - 1, sc.McuRows(n - 1));
      CarryAllSum(img, comps, McusTo(sc, n - 1), ImcuCells(sc, n - 1, sc.McuRows(n - 1)), sc.McusTo(ps, n - 1),
                  sc.McusOfImcu(ps, n - 1, sc.McuRows(n - 1)));
    }
  }

  // ---------------------------------------------------------------- the image taken from the buffers

  /** The block that the buffers hold at a position of the image. */
  predicate PlanesHeld(frame: Scan, planes: seq<Plane>, cur: Image, bits: seq<Script.BitRow>)
    requires frame.Valid() && frame.Shaped(planes) && |bits| == |frame.comps|
  {
    && SameShape(Buffers(frame, planes), cur)
    && forall c, row, col :: 0 <= c < |planes| && 0 <= row < |planes[c]| && 0 <= col < |planes[c][row]| ==>
         HeldAt(frame, planes, cur, bits, c, row, col)
  }

  predicate HeldAt(frame: Scan, planes: seq<Plane>, cur: Image, bits: seq<Script.BitRow>, c: nat, row: nat, col: nat)
    requires |planes| == |frame.comps| == |bits| && c < |planes| && row < |planes[c]| && col < |planes[c][row]|
  {
    var i := IndexOf(frame, frame.comps[c], row, col);
    c < |cur| && i < |cur[c]| && cur[c][i] == Known(planes[c][row][col], bits[c])
  }

  lemma HeldInPlanes(frame: Scan, planes: seq<Plane>, bits: seq<Script.BitRow>, cur: Image)
    requires frame.Valid() && frame.Shaped(planes) && Holds(Buffers(frame, planes), bits, ImageBlocks(frame), cur)
    ensures |bits| == |frame.comps| && PlanesHeld(frame, planes, cur, bits)
  {
    hide Known, Scan.Valid, RowOf, ColOf, BufferSize, PlaneBuffer, IndexOf;
    var img := Buffers(frame, planes);
    forall c, row, col | 0 <= c < |planes| && 0 <= row < |planes[c]| && 0 <= col < |planes[c][row]|
      ensures HeldAt(frame, planes, cur, bits, c, row, col)
    {
      ImagePlace(frame, planes, c, row, col);
      var i := IndexOf(frame, frame.comps[c], row, col);
      assert (c, i) in ImageBlocks(frame);
    }
  }

  lemma ImagePlace(frame: Scan, planes: seq<Plane>, c: nat, row: nat, col: nat)
    requires frame.Valid() && frame.Shaped(planes) && c < |planes| && row < |planes[c]| && col < |planes[c][row]|
    ensures var i := IndexOf(frame, frame.comps[c], row, col);
            && i < BufferSize(frame, frame.comps[c]) && InImage(frame, Cell(c, i))
            && Buffers(frame, planes)[c][i] == planes[c][row][col]
  {
    var k := frame.comps[c];
    assert Scan.ShapedPlane(k, planes[c]) && k in frame.comps;
    var i := IndexOf(frame, k, row, col);
    FrameFacts(frame, k);
    CellPlace(frame, c, row, col);
    Quotient(i, row, Stride(frame, k), col);
    BufferIndex(frame, Cell(c, i));
  }

  /** The same when everything has been sent. */
  predicate PlanesRestored(frame: Scan, planes: seq<Plane>, cur: Image)
    requires |planes| == |frame.comps|
  {
    forall c, row, col :: 0 <= c < |planes| && 0 <= row < |planes[c]| && 0 <= col < |planes[c][row]| ==>
      RestoredAt(frame, planes, cur, c, row, col)
  }

  predicate RestoredAt(frame: Scan, planes: seq<Plane>, cur: Image, c: nat, row: nat, col: nat)
    requires |planes| == |frame.comps| && c < |planes| && row < |planes[c]| && col < |planes[c][row]|
  {
    var i := IndexOf(frame, frame.comps[c], row, col);
    c < |cur| && i < |cur[c]| && cur[c][i] == planes[c][row][col]
  }

  lemma AllSentIsRestored(frame: Scan, planes: seq<Plane>, cur: Image, bits: seq<Script.BitRow>)
    requires frame.Valid() && frame.Shaped(planes) && |bits| == |frame.comps| && PlanesHeld(frame, planes, cur, bits)
    requires bits == AllSent(|frame.comps|)
    ensures PlanesRestored(frame, planes, cur)
  {
    hide Known, IndexOf;
    forall c, row, col | 0 <= c < |planes| && 0 <= row < |planes[c]| && 0 <= col < |planes[c][row]|
      ensures RestoredAt(frame, planes, cur, c, row, col)
    {
      assert HeldAt(frame, planes, cur, bits, c, row, col);
      EverythingIsKnown(planes[c][row][col]);
    }
  }

  // ---------------------------------------------------------------- scripts over a frame

  /** The scans are scans of the frame, each with its restart interval. */
  predicate OverFrame(frame: Scan, scans: seq<ImageScan>, intervals: seq<nat>)
    requires frame.Valid()
  {
    && |intervals| == |scans|
    && forall i :: 0 <= i < |scans| ==>
         && |scans[i].info.comps| >= 1 && Script.ComponentsInOrder(|frame.comps|, scans[i].info.comps)
         && scans[i] == ScanOf(frame, scans[i].info, intervals[i])
  }

  /** All scans of an accepted script cover the image. */
  lemma ScriptCovers(frame: Scan, planes: seq<Plane>, scans: seq<ImageScan>, intervals: seq<nat>)
    requires frame.Valid() && frame.Shaped(planes) && OverFrame(frame, scans, intervals)
    requires Script.ScriptFault(|frame.comps|, Infos(scans)).None?
    ensures AllCover(Buffers(frame, planes), scans, ImageBlocks(frame))
  {
    hide Buffers, Covers, ScanOf, ValidKind, Scan.Valid, Scan.Shaped;
    AcceptedScript(|frame.comps|, Infos(scans));
    DueMeansValid(Script.Fresh(|frame.comps|), Infos(scans));
    forall i | 0 <= i < |scans| ensures Covers(Buffers(frame, planes), scans[i], ImageBlocks(frame)) {
      assert Infos(scans)[i] == scans[i].info;
      ScansCover(frame, planes, scans[i].info, intervals[i]);
    }
  }

  lemma {:induction false} DueMeansValid(bits: seq<Script.BitRow>, script: seq<Script.ScanInfo>)
    requires AllScansDue(bits, script)
    ensures forall i :: 0 <= i < |script| ==> ValidKind(script[i])
    decreases |script|
  {
    hide SentBits;
    if script != [] {
      DueMeansValid(SentBits(bits, script[0]), script[1..]);
      assert forall i :: 0 < i < |script| ==> script[i] == script[1..][i - 1];
    }
  }

  predicate ShortPlanes(planes: seq<Plane>) {
    forall c, row, col :: 0 <= c < |planes| && 0 <= row < |planes[c]| && 0 <= col < |planes[c][row]| ==> IsShortBlock(planes[c][row][col])
  }

  /** Dummy blocks hold 16-bit coefficients if the others do. */
  lemma BuffersAreShort(frame: Scan, planes: seq<Plane>)
    requires frame.Valid() && frame.Shaped(planes) && ShortPlanes(planes)
    ensures ShortImage(Buffers(frame, planes))
  {
    var img := Buffers(frame, planes);
    forall c, i | 0 <= c < |img| && 0 <= i < |img[c]| ensures IsShortBlock(img[c][i]) {
      var k := frame.comps[c];
      var w := Stride(frame, k);
      assert k in frame.comps && Scan.ShapedPlane(k, planes[c]);
      FrameFacts(frame, k);
      PaddedIsShort(k, planes[c], i / w, i % w);
    }
  }

  lemma PaddedIsShort(c: Component, p: Plane, row: nat, col: nat)
    requires Scan.ShapedPlane(c, p) && c.hSamp >= 1 && c.widthInBlocks >= 1 && c.heightInBlocks >= 1
    requires forall r, k :: 0 <= r < |p| && 0 <= k < |p[r]| ==> IsShortBlock(p[r][k])
    ensures IsShortBlock(PaddedAt(c, p, row, col))
  {
  }
}
