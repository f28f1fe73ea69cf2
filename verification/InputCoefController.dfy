/** The input side of the decompressor's coefficient controller (consume_data and start_iMCU_row in jdcoefct.c): the
    blocks of each MCU go back to where the compressor took them from. */
module InputCoefController {
  import opened McuTiling
  import opened PointTransform
  import opened Geometry

  datatype Outcome = Suspended | RowCompleted | ScanCompleted

  class InputController {
    const scan: Scan
    const whole: seq<array2<Block>>
    // The MCUs that the entropy decoder delivers, and the image they come from.
    const incoming: seq<seq<Block>>
    ghost const planes: seq<Plane>
    var inputImcuRow: nat
    var mcuCtr: nat
    var mcuVertOffset: nat
    var mcuRowsPerImcuRow: int
    var taken: nat

    ghost predicate Configured() {
      && scan.Valid() && scan.Shaped(planes) && |whole| == |scan.comps|
      && (forall ci :: 0 <= ci < |whole| ==> HasRoom(scan, scan.comps[ci], whole[ci]))
      && (forall ci, cj :: 0 <= ci < cj < |whole| ==> whole[ci] != whole[cj])
      && incoming == scan.McusTo(planes, scan.imcuRows)
    }

    // -------------------------------------------------------------- one MCU

    /** Every block of the array but those from (`row`, `col`) on for `n` columns is as before. */
    twostate predicate Elsewhere(ci: nat, row: nat, col: nat, n: nat)
      requires ci < |whole|
      reads whole[ci]
    {
      forall r, k :: 0 <= r < whole[ci].Length0 && 0 <= k < whole[ci].Length1 && !(r == row && col <= k < col + n) ==>
        whole[ci][r, k] == old(whole[ci][r, k])
    }

    /** The blocks of one row of the MCU, from `mcu[blkn]` on. */
    method PutRow(mcu: seq<Block>, blkn: nat, ci: nat, row: nat, m: nat)
      requires Configured() && ci < |whole| && row < whole[ci].Length0 && m < scan.McusPerRow()
      requires var w := scan.McuWidth(scan.comps[ci]);
               && scan.InImage(scan.comps[ci], planes[ci], m) && blkn + w <= |mcu|
               && mcu[blkn..blkn + w] == scan.RowBlocks(scan.comps[ci], planes[ci], row, m, w)
      modifies whole[ci]
      ensures forall x: nat :: x < scan.McuWidth(scan.comps[ci]) ==> HoldsAt(scan, whole[ci], scan.comps[ci], planes[ci], row, m, x)
      ensures Elsewhere(ci, row, scan.ColAt(scan.comps[ci], m), scan.McuWidth(scan.comps[ci]))
    {
      var c, p, a := scan.comps[ci], planes[ci], whole[ci];
      var w, startCol := scan.McuWidth(c), scan.ColAt(c, m);
      McuInArray(ci, m);
      hide Configured, HoldsAt, Scan.InImage, Scan.Padded, Scan.RowBlocks, Scan.McuWidth, Scan.ColAt, Scan.McusPerRow;
      var x := 0;
      while x < w
        invariant 0 <= x <= w
        invariant forall k :: startCol <= k < startCol + x ==> a[row, k] == mcu[blkn + (k - startCol)]
        invariant Elsewhere(ci, row, startCol, w)
        modifies a
      {
        a[row, startCol + x] := mcu[blkn + x];
        x := x + 1;
      }
      RowIsPut(mcu, blkn, ci, row, m);
    }

    lemma RowIsPut(mcu: seq<Block>, blkn: nat, ci: nat, row: nat, m: nat)
      requires ci < |whole| == |scan.comps| == |planes| && row < whole[ci].Length0
      requires var w, col := scan.McuWidth(scan.comps[ci]), scan.ColAt(scan.comps[ci], m);
               && col + w <= whole[ci].Length1
               && scan.InImage(scan.comps[ci], planes[ci], m) && blkn + w <= |mcu|
               && mcu[blkn..blkn + w] == scan.RowBlocks(scan.comps[ci], planes[ci], row, m, w)
               && forall k :: col <= k < col + w ==> whole[ci][row, k] == mcu[blkn + (k - col)]
      ensures forall x: nat :: x < scan.McuWidth(scan.comps[ci]) ==> HoldsAt(scan, whole[ci], scan.comps[ci], planes[ci], row, m, x)
    {
      hide Scan.InImage, Scan.Padded, Scan.RowBlocks, Scan.McuWidth, Scan.ColAt, Scan.McusPerRow;
      var c, p, a, w, col := scan.comps[ci], planes[ci], whole[ci], scan.McuWidth(scan.comps[ci]), scan.ColAt(scan.comps[ci], m);
      forall x: nat | x < w ensures HoldsAt(scan, a, c, p, row, m, x) {
        BlockInRow(c, p, row, m, x, w);
        assert mcu[blkn + x] == mcu[blkn..blkn + w][x];
        assert a[row, col + x] == mcu[blkn + (col + x - col)];
      }
    }

    lemma {:induction false} BlockInRow(c: Component, p: Plane, row: nat, m: nat, x: nat, n: nat)
      requires scan.InImage(c, p, m) && x < n
      ensures scan.RowBlocks(c, p, row, m, n)[x] == scan.Padded(c, p, row, m, x)
      decreases n
    {
      if x < n - 1 { BlockInRow(c, p, row, m, x, n - 1); }
    }

    lemma McuInArray(ci: nat, m: nat)
      requires Configured() && ci < |whole| && m < scan.McusPerRow()
      ensures scan.ColAt(scan.comps[ci], m) + scan.McuWidth(scan.comps[ci]) <= whole[ci].Length1
    {
      Distributes(m, 1, scan.McuWidth(scan.comps[ci]));
      Grows(m + 1, scan.McusPerRow(), scan.McuWidth(scan.comps[ci]));
    }

    /** What is in place: all of the rows above `first`, and of the next MCU row the columns in front of MCU column `m`. */
    ghost predicate Placed(ci: nat, first: nat, m: nat)
      requires Configured() && ci < |whole|
      reads if ci < |whole| then {whole[ci]} else {}
    {
      var c, p := scan.comps[ci], planes[ci];
      && (forall row: nat, k: nat, x: nat :: row < first && k < scan.McusPerRow() && x < scan.McuWidth(c) ==>
            HoldsAt(scan, whole[ci], c, p, row, k, x))
      && PartPlaced(ci, first, m, scan.McuHeight(c))
    }

    ghost predicate PartPlaced(ci: nat, first: nat, m: nat, n: nat)
      requires Configured() && ci < |whole|
      reads if ci < |whole| then {whole[ci]} else {}
    {
      forall row: nat, k: nat, x: nat :: first <= row < first + n && k < m && x < scan.McuWidth(scan.comps[ci]) ==>
        HoldsAt(scan, whole[ci], scan.comps[ci], planes[ci], row, k, x)
    }

    // -------------------------------------------------------------- where the blocks of an MCU are

    ghost predicate At(mcu: seq<Block>, k: nat, bs: seq<Block>) {
      k + |bs| <= |mcu| && mcu[k..k + |bs|] == bs
    }

    lemma AtSplits(mcu: seq<Block>, k: nat, a: seq<Block>, b: seq<Block>)
      requires At(mcu, k, a + b)
      ensures At(mcu, k, a) && At(mcu, k + |a|, b)
    {
      var both := mcu[k..k + |a + b|];
      assert both[..|a|] == a && both[|a|..] == b;
    }

    lemma {:induction false} RowInPart(mcu: seq<Block>, blkn: nat, c: Component, p: Plane, first: nat, m: nat, y: nat, n: nat)
      requires scan.InImage(c, p, m) && y < n && At(mcu, blkn, scan.PartBlocks(c, p, first, m, n))
      ensures At(mcu, blkn + |scan.PartBlocks(c, p, first, m, y)|, scan.RowBlocks(c, p, first + y, m, scan.McuWidth(c)))
      ensures |scan.PartBlocks(c, p, first, m, y + 1)| == |scan.PartBlocks(c, p, first, m, y)| + scan.McuWidth(c)
      decreases n
    {
      hide Scan.RowBlocks, Scan.InImage;
      AtSplits(mcu, blkn, scan.PartBlocks(c, p, first, m, n - 1), scan.RowBlocks(c, p, first + (n - 1), m, scan.McuWidth(c)));
      if y < n - 1 { RowInPart(mcu, blkn, c, p, first, m, y, n - 1); }
    }

    ghost function Part(i: nat, yoffset: nat, m: nat, ci: nat): seq<Block>
      requires scan.AllInImage(planes, m) && ci < |scan.comps|
    {
      var c := scan.comps[ci];
      scan.PartBlocks(c, planes[ci], scan.RowAt(c, i) + yoffset, m, scan.McuHeight(c))
    }

    lemma {:induction false} PartInMcu(mcu: seq<Block>, i: nat, yoffset: nat, m: nat, ci: nat, n: nat)
      requires scan.AllInImage(planes, m) && ci < n <= |scan.comps| && At(mcu, 0, scan.McuBlocks(planes, i, yoffset, m, n))
      ensures At(mcu, |scan.McuBlocks(planes, i, yoffset, m, ci)|, Part(i, yoffset, m, ci))
      ensures |scan.McuBlocks(planes, i, yoffset, m, ci + 1)|
           == |scan.McuBlocks(planes, i, yoffset, m, ci)| + |Part(i, yoffset, m, ci)|
      decreases n
    {
      hide Scan.PartBlocks, Scan.AllInImage;
      AtSplits(mcu, 0, scan.McuBlocks(planes, i, yoffset, m, n - 1), Part(i, yoffset, m, n - 1));
      if ci < n - 1 { PartInMcu(mcu, i, yoffset, m, ci, n - 1); }
    }

    // -------------------------------------------------------------- one MCU is put in place

    /** The first `n` rows of MCU column `m`. */
    ghost predicate ColumnPlaced(ci: nat, first: nat, m: nat, n: nat)
      requires Configured() && ci < |whole|
      reads if ci < |whole| then {whole[ci]} else {}
    {
      forall row: nat, x: nat :: first <= row < first + n && x < scan.McuWidth(scan.comps[ci]) ==>
        HoldsAt(scan, whole[ci], scan.comps[ci], planes[ci], row, m, x)
    }

    method PutNextRow(mcu: seq<Block>, blkn: nat, ci: nat, first: nat, m: nat, y: nat)
      requires Configured() && ci < |whole| && first + y < whole[ci].Length0 && m < scan.McusPerRow()
      requires scan.InImage(scan.comps[ci], planes[ci], m)
      requires At(mcu, blkn, scan.RowBlocks(scan.comps[ci], planes[ci], first + y, m, scan.McuWidth(scan.comps[ci])))
      requires Placed(ci, first, m) && ColumnPlaced(ci, first, m, y)
      modifies whole[ci]
      ensures Placed(ci, first, m) && ColumnPlaced(ci, first, m, y + 1)
    {
      hide Scan.InImage, Scan.Padded, Scan.RowBlocks, Scan.McusPerRow, Scan.McusTo;
      var c, p, a, w := scan.comps[ci], planes[ci], whole[ci], scan.McuWidth(scan.comps[ci]);
      PutRow(mcu, blkn, ci, first + y, m);
      forall row: nat, k: nat, x: nat | x < w && (row != first + y || k < m) && old(HoldsAt(scan, a, c, p, row, k, x))
        ensures HoldsAt(scan, a, c, p, row, k, x)
      {
        if k < m { GrowsByOne(k, m, w); }
      }
    }

    method PutPart(mcu: seq<Block>, blkn: nat, ci: nat, yoffset: nat, m: nat) returns (next: nat)
      requires Configured() && ci < |whole| && inputImcuRow < scan.imcuRows && m < scan.McusPerRow() && scan.AllInImage(planes, m)
      requires At(mcu, blkn, Part(inputImcuRow, yoffset, m, ci))
      requires yoffset + scan.McuHeight(scan.comps[ci]) <= scan.comps[ci].vSamp
      requires Placed(ci, scan.RowAt(scan.comps[ci], inputImcuRow) + yoffset, m)
      modifies whole[ci]
      ensures next == blkn + |Part(inputImcuRow, yoffset, m, ci)|
      ensures Placed(ci, scan.RowAt(scan.comps[ci], inputImcuRow) + yoffset, m + 1)
    {
      hide Scan.InImage, Scan.RowBlocks, Scan.McusPerRow, Scan.McusTo, Scan.McuWidth, Scan.McuHeight, HoldsAt, At;
      var c, p := scan.comps[ci], planes[ci];
      var first := scan.RowAt(c, inputImcuRow) + yoffset;
      ImcuInArray(ci);
      next := blkn;
      NoRows(c, p, first, m);
      var yindex := 0;
      while yindex < scan.McuHeight(c)
        invariant 0 <= yindex <= scan.McuHeight(c) && next == blkn + |scan.PartBlocks(c, p, first, m, yindex)|
        invariant Placed(ci, first, m) && ColumnPlaced(ci, first, m, yindex)
        modifies whole[ci]
      {
        RowInPart(mcu, blkn, c, p, first, m, yindex, scan.McuHeight(c));
        PutNextRow(mcu, next, ci, first, m, yindex);
        next := next + scan.McuWidth(c);
        yindex := yindex + 1;
      }
    }

    lemma NoRows(c: Component, p: Plane, first: nat, m: nat)
      requires scan.InImage(c, p, m)
      ensures scan.PartBlocks(c, p, first, m, 0) == []
    {
    }

    lemma ImcuInArray(ci: nat)
      requires Configured() && ci < |whole| && inputImcuRow < scan.imcuRows
      ensures scan.RowAt(scan.comps[ci], inputImcuRow) + scan.comps[ci].vSamp <= whole[ci].Length0
    {
      var c := scan.comps[ci];
      Distributes(inputImcuRow, 1, c.vSamp);
      Grows(inputImcuRow + 1, scan.imcuRows, c.vSamp);
    }

    /** The first block row that is not in place before MCU row `yoffset` of iMCU row `i`. */
    ghost function FirstRow(ci: nat, i: nat, yoffset: nat): nat
      requires ci < |scan.comps|
    {
      var c := scan.comps[ci];
      scan.RowAt(c, i) + if scan.Interleaved() && yoffset > 0 then c.vSamp else yoffset
    }

    /** Everything is in place that comes in MCUs in front of position (`i`, `yoffset`, `m`). */
    ghost predicate AllPlaced(i: nat, yoffset: nat, m: nat)
      requires Configured()
      reads whole
    {
      forall ci: nat :: ci < |whole| ==> Placed(ci, FirstRow(ci, i, yoffset), m)
    }

    method PutMcu(mcu: seq<Block>, yoffset: nat, m: nat)
      requires Configured() && inputImcuRow < scan.imcuRows && yoffset < scan.McuRows(inputImcuRow) && m < scan.McusPerRow()
      requires scan.AllInImage(planes, m) && mcu == scan.Mcu(planes, inputImcuRow, yoffset, m)
      requires AllPlaced(inputImcuRow, yoffset, m)
      modifies whole
      ensures AllPlaced(inputImcuRow, yoffset, m + 1)
    {
      hide Scan.McuBlocks, Scan.McuRows, Scan.McusPerRow, Scan.McusTo, Scan.InImage, Scan.McuHeight, Placed, At;
      var blkn := 0;
      var ci := 0;
      NoBlocksYet(yoffset, m);
      assert mcu[0..|mcu|] == mcu;
      assert At(mcu, 0, mcu) by { WholeIsAt(mcu); }
      while ci < |scan.comps|
        invariant 0 <= ci <= |whole| && blkn == |scan.McuBlocks(planes, inputImcuRow, yoffset, m, ci)|
        invariant forall k: nat :: k < |whole| ==> Placed(k, FirstRow(k, inputImcuRow, yoffset), if k < ci then m + 1 else m)
        modifies whole
      {
        PartInMcu(mcu, inputImcuRow, yoffset, m, ci, |scan.comps|);
        RowsInImcu(ci, yoffset);
        blkn := PutPart(mcu, blkn, ci, yoffset, m);
        ci := ci + 1;
      }
    }

    lemma WholeIsAt(mcu: seq<Block>)
      ensures At(mcu, 0, mcu)
    {
      assert mcu[0..|mcu|] == mcu;
    }

    lemma NoBlocksYet(yoffset: nat, m: nat)
      requires scan.AllInImage(planes, m)
      ensures scan.McuBlocks(planes, inputImcuRow, yoffset, m, 0) == []
    {
    }

    lemma RowsInImcu(ci: nat, yoffset: nat)
      requires Configured() && inputImcuRow < scan.imcuRows && yoffset < scan.McuRows(inputImcuRow) && ci < |scan.comps|
      ensures yoffset + scan.McuHeight(scan.comps[ci]) <= scan.comps[ci].vSamp
      ensures FirstRow(ci, inputImcuRow, yoffset) == scan.RowAt(scan.comps[ci], inputImcuRow) + yoffset
    {
      scan.RowsAreThere(inputImcuRow);
      assert scan.comps[ci] in scan.comps && scan.comps[0] in scan.comps;
    }

    // -------------------------------------------------------------- a whole scan

    /** start_iMCU_row. */
    method StartImcuRow()
      requires Configured() && inputImcuRow < scan.imcuRows
      modifies this`mcuRowsPerImcuRow, this`mcuCtr, this`mcuVertOffset
      ensures mcuCtr == mcuVertOffset == 0 && mcuRowsPerImcuRow == scan.McuRows(inputImcuRow)
    {
      if |scan.comps| > 1 {
        mcuRowsPerImcuRow := 1;
      } else if inputImcuRow < scan.imcuRows - 1 {
        mcuRowsPerImcuRow := scan.comps[0].vSamp;
      } else {
        mcuRowsPerImcuRow := scan.LastRowHeight(scan.comps[0]);
      }
      mcuCtr, mcuVertOffset := 0, 0;
    }

    /** The MCUs in front of the saved position have been taken, and their blocks are in place. */
    ghost predicate Valid()
      reads this, whole
    {
      && Configured() && inputImcuRow < scan.imcuRows && mcuCtr <= scan.McusPerRow()
      && mcuRowsPerImcuRow == scan.McuRows(inputImcuRow) && mcuVertOffset < mcuRowsPerImcuRow
      && taken == |scan.Before(planes, inputImcuRow, mcuVertOffset, mcuCtr)|
      && AllPlaced(inputImcuRow, mcuVertOffset, mcuCtr)
    }

    /** The scan is complete: the arrays hold the image. */
    ghost predicate Complete()
      reads this, whole
    {
      Configured() && inputImcuRow == scan.imcuRows && taken == |incoming| && Restored()
    }

    ghost predicate Restored()
      reads whole
      requires Configured()
    {
      forall ci: nat, row: nat, col: nat ::
        ci < |whole| && row < scan.comps[ci].heightInBlocks && col < scan.comps[ci].widthInBlocks ==> RestoredAt(ci, row, col)
    }

    ghost predicate RestoredAt(ci: nat, row: nat, col: nat)
      reads whole
      requires Configured() && ci < |whole| && row < scan.comps[ci].heightInBlocks && col < scan.comps[ci].widthInBlocks
    {
      row < whole[ci].Length0 && col < whole[ci].Length1 && whole[ci][row, col] == planes[ci][row][col]
    }

    /** start_input_pass. */
    method StartInputPass()
      requires Configured()
      modifies this
      ensures Valid() && inputImcuRow == 0 && taken == 0
    {
      inputImcuRow, taken := 0, 0;
      StartImcuRow();
      scan.RowsAreThere(0);
    }

    /** consume_data. The entropy decoder delivers `delivers` MCUs; if that does not complete the iMCU row, the controller
        suspends, and the next call goes on with the MCU that was not delivered. */
    method ConsumeData(delivers: nat) returns (outcome: Outcome)
      requires Valid()
      modifies this, whole
      ensures if outcome == ScanCompleted then Complete() else Valid()
      ensures outcome == RowCompleted ==> inputImcuRow == old(inputImcuRow) + 1 && mcuCtr == mcuVertOffset == 0
      ensures outcome == Suspended ==> inputImcuRow == old(inputImcuRow) && taken == old(taken) + delivers
      ensures old(taken) <= taken <= old(taken) + delivers
    {
      hide Scan.McuRows, Scan.McusPerRow, Scan.McusTo, Scan.Before, Scan.Mcu, AllPlaced, Restored;
      var left := delivers;
      var i, yoffset := inputImcuRow, mcuVertOffset;
      while yoffset < mcuRowsPerImcuRow
        invariant inputImcuRow == i == old(inputImcuRow) && mcuRowsPerImcuRow == scan.McuRows(i)
        invariant mcuVertOffset == old(mcuVertOffset) && yoffset <= mcuRowsPerImcuRow
        invariant mcuCtr <= scan.McusPerRow() && (yoffset == mcuRowsPerImcuRow ==> mcuCtr == 0)
        invariant taken == |scan.Before(planes, i, yoffset, mcuCtr)| && AllPlaced(i, yoffset, mcuCtr)
        invariant old(taken) <= taken && taken + left == old(taken) + delivers
        modifies this, whole
      {
        var m := mcuCtr;
        while m < scan.McusPerRow()
          invariant inputImcuRow == i == old(inputImcuRow) && mcuRowsPerImcuRow == scan.McuRows(i)
          invariant m <= scan.McusPerRow() && mcuVertOffset == old(mcuVertOffset)
          invariant taken == |scan.Before(planes, i, yoffset, m)| && AllPlaced(i, yoffset, m)
          invariant old(taken) <= taken && taken + left == old(taken) + delivers
          modifies this`taken, this`mcuVertOffset, this`mcuCtr, whole
        {
          scan.AllColumnsFit(planes, m);
          scan.NextMcu(planes, i, yoffset, m);
          scan.OneMore(planes, i, yoffset, m);
          if left == 0 {
            mcuVertOffset, mcuCtr := yoffset, m;
            return Suspended;
          }
          PutMcu(incoming[taken], yoffset, m);
          left := left - 1;
          taken := taken + 1;
          m := m + 1;
        }
        scan.RowDone(planes, i, yoffset);
        McuRowPlaced(i, yoffset);
        mcuCtr := 0;
        yoffset := yoffset + 1;
      }
      scan.ImcuDone(planes, i);
      ImcuRowPlaced(i);
      inputImcuRow := inputImcuRow + 1;
      if inputImcuRow < scan.imcuRows {
        StartImcuRow();
        scan.RowsAreThere(inputImcuRow);
        outcome := RowCompleted;
      } else {
        scan.NothingMore(planes);
        outcome := ScanCompleted;
      }
    }

    lemma McuRowPlaced(i: nat, yoffset: nat)
      requires Configured() && i < scan.imcuRows && yoffset < scan.McuRows(i) && AllPlaced(i, yoffset, scan.McusPerRow())
      ensures AllPlaced(i, yoffset + 1, 0)
    {
      hide HoldsAt, Scan.McuWidth, Scan.McusPerRow, Scan.RowAt, Scan.LastRowHeight;
      var next := yoffset + 1;
      forall ci: nat | ci < |whole| ensures Placed(ci, FirstRow(ci, i, next), 0) {
        assert Placed(ci, FirstRow(ci, i, yoffset), scan.McusPerRow());
        assert FirstRow(ci, i, next) == FirstRow(ci, i, yoffset) + scan.McuHeight(scan.comps[ci]);
      }
    }

    lemma ImcuRowPlaced(i: nat)
      requires Configured() && i < scan.imcuRows && scan.McuRows(i) >= 0 && AllPlaced(i, scan.McuRows(i), 0)
      ensures i + 1 < scan.imcuRows ==> AllPlaced(i + 1, 0, 0)
      ensures i + 1 == scan.imcuRows ==> Restored()
    {
      hide HoldsAt, Placed, RestoredAt, Scan.McuWidth, Scan.McusPerRow, Scan.RowAt;
      scan.RowsAreThere(i);
      if i + 1 < scan.imcuRows {
        var next := i + 1;
        forall ci: nat | ci < |whole| ensures Placed(ci, FirstRow(ci, next, 0), 0) {
          assert scan.comps[ci] in scan.comps && Placed(ci, FirstRow(ci, i, scan.McuRows(i)), 0);
        }
      } else {
        forall ci: nat, row: nat, col: nat | ci < |whole| && row < scan.comps[ci].heightInBlocks && col < scan.comps[ci].widthInBlocks
          ensures RestoredAt(ci, row, col)
        {
          assert scan.comps[ci] in scan.comps;
          RealBlock(ci, FirstRow(ci, i, scan.McuRows(i)), row, col);
        }
      }
    }

    lemma RealBlock(ci: nat, first: nat, row: nat, col: nat)
      requires Configured() && ci < |whole| && row < scan.comps[ci].heightInBlocks && col < scan.comps[ci].widthInBlocks
      requires Placed(ci, first, 0) && row < first
      ensures RestoredAt(ci, row, col)
    {
      var c, w := scan.comps[ci], scan.McuWidth(scan.comps[ci]);
      assert scan.Fits(c);
      scan.ColumnsFit(c, scan.McusPerRow() - 1);
      var m, x := ColumnOf(col, w, scan.McusPerRow(), c.widthInBlocks);
      hide Scan.McusPerRow, Scan.McuWidth, Scan.Valid, Scan.Shaped;
      assert HoldsAt(scan, whole[ci], c, planes[ci], row, m, x);
      scan.ColumnsFit(c, m);
    }

    /** The MCU that a block column is in, and its place there. */
    static lemma ColumnOf(col: nat, w: nat, mcus: nat, width: nat) returns (m: nat, x: nat)
      requires 1 <= w && 1 <= mcus && (mcus - 1) * w < width <= mcus * w && col < width
      ensures m < mcus && x < w && col == m * w + x && (m == mcus - 1 ==> x < width - (mcus - 1) * w)
    {
      m, x := col / w, col % w;
      assert col == m * w + x;
      if m >= mcus { Grows(mcus, m, w); }
    }
  }
}
