/** The coefficient controllers of the compressor (compress_data, compress_first_pass and compress_output in jccoefct.c,
    compress_output in jctrans.c): three ways to hand the same MCUs to the entropy coder, each of which can be refused an
    MCU at any time and then goes on with that one. */
module CoefControllers {
  import opened McuTiling
  import opened PointTransform
  import opened Geometry
  import opened Seqs

  /** Where the blocks come from: straight from the forward DCT, from the full-image buffer that was filled in the first
      pass, or from arrays the application supplies when it transcodes. */
  datatype Source = PassThru | CrankDest | Transcode

  class CoefController {
    const scan: Scan
    const planes: seq<Plane>
    const source: Source
    const whole: seq<array2<Block>>
    var imcuRowNum: nat
    var mcuCtr: nat
    var mcuVertOffset: nat
    var mcuRowsPerImcuRow: int
    // The MCUs that the entropy coder has taken.
    ghost var sent: seq<seq<Block>>

    ghost predicate Configured() {
      && scan.Valid() && scan.Shaped(planes)
      && (source == CrankDest ==>
            && |whole| == |scan.comps|
            && (forall ci :: 0 <= ci < |whole| ==> Sized(ci))
            && (forall ci, cj :: 0 <= ci < cj < |whole| ==> whole[ci] != whole[cj]))
    }

    ghost predicate Sized(ci: nat)
      requires ci < |whole| == |scan.comps| && scan.Valid()
    {
      HasRoom(scan, scan.comps[ci], whole[ci])
    }

    /** iMCU row `i` of the virtual array of component `ci` has been filled. */
    ghost predicate Filled(ci: nat, i: nat)
      requires Configured() && source == CrankDest && ci < |whole| && i < scan.imcuRows
      reads if ci < |whole| then {whole[ci]} else {}
    {
      var c := scan.comps[ci];
      forall row: nat :: scan.RowAt(c, i) <= row < scan.RowAt(c, i) + c.vSamp ==> FilledRow(scan, whole[ci], c, planes[ci], row)
    }

    // -------------------------------------------------------------- one MCU

    ghost function LastBlock(bs: seq<Block>): Block {
      if |bs| > 0 then bs[|bs| - 1] else Dummy(seq(64, _ => 0))
    }

    /** What a row of dummy blocks in front of which `buffer` has been collected repeats. */
    ghost predicate Leads(buffer: seq<Block>, c: Component, p: Plane, row: nat, m: nat)
      requires scan.InImage(c, p, m)
    {
      row >= c.heightInBlocks ==> |buffer| > 0 && buffer[|buffer| - 1][0] == scan.LastDc(c, p, row, m)
    }

    /** Blocks of one row of an MCU, as the transcoder collects them: real ones, then dummies. */
    method TranscodeRow(buffer: seq<Block>, c: Component, p: Plane, y: nat, m: nat) returns (out: seq<Block>)
      requires scan.Valid() && c in scan.comps && scan.InImage(c, p, m) && imcuRowNum < scan.imcuRows && y < c.vSamp
      requires Leads(buffer, c, p, scan.RowAt(c, imcuRowNum) + y, m)
      ensures out == buffer + scan.RowBlocks(c, p, scan.RowAt(c, imcuRowNum) + y, m, scan.McuWidth(c))
    {
      scan.RowIsReal(c, imcuRowNum, y);
      BlockCount(c, p, m);
      hide Scan.Valid, Scan.InImage, Scan.RowBlocks, Scan.Padded, Scan.LastDc, Scan.RealCols, Scan.McusPerRow, Scan.LastColWidth,
           Scan.LastRowHeight, Scan.RowAt, Scan.ColAt, Scan.McuWidth, Dummy;
      var w, row := scan.McuWidth(c), scan.RowAt(c, imcuRowNum) + y;
      var blockcnt := if m < scan.McusPerRow() - 1 then w else scan.LastColWidth(c);
      var x := 0;
      out := buffer;
      NoBlocks(c, p, row, m);
      assert buffer + [] == buffer;
      if imcuRowNum < scan.imcuRows - 1 || y < scan.LastRowHeight(c) {
        while x < blockcnt
          invariant 0 <= x <= blockcnt && out == buffer + scan.RowBlocks(c, p, row, m, x)
        {
          NextReal(buffer, c, p, row, m, x);
          out := out + [p[row][scan.ColAt(c, m) + x]];
          x := x + 1;
        }
      }
      out := AddDummies(buffer, out, c, p, row, m, x);
    }

    /** Dummy blocks from column `from` of the MCU on. */
    method AddDummies(ghost buffer: seq<Block>, collected: seq<Block>, c: Component, p: Plane, row: nat, m: nat, from: nat)
      returns (out: seq<Block>)
      requires scan.InImage(c, p, m) && Leads(buffer, c, p, row, m) && from <= scan.McuWidth(c)
      requires row < c.heightInBlocks ==> scan.RealCols(c, m) <= from
      requires collected == buffer + scan.RowBlocks(c, p, row, m, from)
      ensures out == buffer + scan.RowBlocks(c, p, row, m, scan.McuWidth(c))
    {
      BlockCount(c, p, m);
      hide Scan.InImage, Scan.RowBlocks, Scan.Padded, Scan.LastDc, Scan.RealCols, Scan.McuWidth, Dummy;
      var x := from;
      out := collected;
      while x < scan.McuWidth(c)
        invariant from <= x <= scan.McuWidth(c) && out == buffer + scan.RowBlocks(c, p, row, m, x)
      {
        NextDummy(buffer, c, p, row, m, x, LastBlock(out));
        out := out + [Dummy(out[|out| - 1])];
        x := x + 1;
      }
    }

    lemma BlockCount(c: Component, p: Plane, m: nat)
      requires scan.InImage(c, p, m)
      ensures (if m < scan.McusPerRow() - 1 then scan.McuWidth(c) else scan.LastColWidth(c)) == scan.RealCols(c, m)
      ensures 1 <= scan.RealCols(c, m) <= scan.McuWidth(c)
    {
    }

    /** One block more that is in the image. */
    lemma NextReal(buffer: seq<Block>, c: Component, p: Plane, row: nat, m: nat, x: nat)
      requires scan.InImage(c, p, m) && row < c.heightInBlocks && x < scan.RealCols(c, m)
      ensures row < |p| && |p[row]| > scan.ColAt(c, m) + x
      ensures buffer + scan.RowBlocks(c, p, row, m, x + 1)
           == (buffer + scan.RowBlocks(c, p, row, m, x)) + [p[row][scan.ColAt(c, m) + x]]
    {
    }

    /** One block more that repeats the DC value of the block before it. */
    lemma NextDummy(buffer: seq<Block>, c: Component, p: Plane, row: nat, m: nat, x: nat, previous: Block)
      requires scan.InImage(c, p, m) && Leads(buffer, c, p, row, m)
      requires row >= c.heightInBlocks || x >= scan.RealCols(c, m)
      ensures var out := buffer + scan.RowBlocks(c, p, row, m, x);
              |out| > 0 && out[|out| - 1][0] == scan.LastDc(c, p, row, m)
      ensures previous[0] == scan.LastDc(c, p, row, m) ==>
                buffer + scan.RowBlocks(c, p, row, m, x + 1) == (buffer + scan.RowBlocks(c, p, row, m, x)) + [Dummy(previous)]
    {
      if x > 0 { scan.LastInRow(c, p, row, m, x); }
    }

    /** The same as the single-pass controller does it: a stretch of blocks from the forward DCT, then dummies. */
    method PassThruRow(buffer: seq<Block>, c: Component, p: Plane, y: nat, m: nat) returns (out: seq<Block>)
      requires scan.Valid() && c in scan.comps && scan.InImage(c, p, m) && imcuRowNum < scan.imcuRows && y < c.vSamp
      requires Leads(buffer, c, p, scan.RowAt(c, imcuRowNum) + y, m)
      ensures out == buffer + scan.RowBlocks(c, p, scan.RowAt(c, imcuRowNum) + y, m, scan.McuWidth(c))
    {
      scan.RowIsReal(c, imcuRowNum, y);
      BlockCount(c, p, m);
      InsideRow(c, p, scan.RowAt(c, imcuRowNum) + y, m);
      hide Scan.Valid, Scan.InImage, Scan.RowBlocks, Scan.Padded, Scan.LastDc, Scan.RealCols, Scan.McusPerRow, Scan.LastColWidth,
           Scan.LastRowHeight, Scan.RowAt, Scan.ColAt, Scan.McuWidth, Dummy;
      var w, row := scan.McuWidth(c), scan.RowAt(c, imcuRowNum) + y;
      var blockcnt := if m < scan.McusPerRow() - 1 then w else scan.LastColWidth(c);
      if imcuRowNum < scan.imcuRows - 1 || y < scan.LastRowHeight(c) {
        RealStretch(c, p, row, m, blockcnt);
        out := buffer + p[row][scan.ColAt(c, m)..scan.ColAt(c, m) + blockcnt];
        out := AddDummies(buffer, out, c, p, row, m, blockcnt);
      } else {
        out := DummyRow(buffer, c, p, row, m);
      }
    }

    /** A row below the image: every block repeats the block in front of the row. */
    method DummyRow(buffer: seq<Block>, c: Component, p: Plane, row: nat, m: nat) returns (out: seq<Block>)
      requires scan.InImage(c, p, m) && Leads(buffer, c, p, row, m) && row >= c.heightInBlocks
      ensures out == buffer + scan.RowBlocks(c, p, row, m, scan.McuWidth(c))
    {
      NoBlocks(c, p, row, m);
      NextDummy(buffer, c, p, row, m, 0, buffer[|buffer| - 1]);
      hide Scan.InImage, Scan.RowBlocks, Scan.LastDc, Scan.RealCols, Scan.McuWidth, Dummy;
      var previous := buffer[|buffer| - 1];
      out := buffer;
      assert buffer + [] == buffer;
      for bi := 0 to scan.McuWidth(c)
        invariant out == buffer + scan.RowBlocks(c, p, row, m, bi)
      {
        NextDummy(buffer, c, p, row, m, bi, previous);
        out := out + [Dummy(previous)];
      }
    }

    lemma NoBlocks(c: Component, p: Plane, row: nat, m: nat)
      requires scan.InImage(c, p, m)
      ensures scan.RowBlocks(c, p, row, m, 0) == []
    {
    }

    lemma InsideRow(c: Component, p: Plane, row: nat, m: nat)
      requires scan.InImage(c, p, m)
      ensures row < c.heightInBlocks ==> row < |p| && scan.ColAt(c, m) + scan.RealCols(c, m) <= |p[row]|
    {
    }

    lemma {:induction false} RealStretch(c: Component, p: Plane, row: nat, m: nat, n: nat)
      requires scan.InImage(c, p, m) && row < c.heightInBlocks && n <= scan.RealCols(c, m)
      ensures scan.RowBlocks(c, p, row, m, n) == p[row][scan.ColAt(c, m)..scan.ColAt(c, m) + n]
      decreases n
    {
      if n > 0 { RealStretch(c, p, row, m, n - 1); }
    }

    /** The same from the full-image buffer, where the dummies have been put before. */
    method CrankRow(buffer: seq<Block>, ci: nat, y: nat, m: nat) returns (out: seq<Block>)
      requires Configured() && source == CrankDest && ci < |scan.comps| && m < scan.McusPerRow()
      requires imcuRowNum < scan.imcuRows && y < scan.comps[ci].vSamp && Filled(ci, imcuRowNum)
      requires scan.InImage(scan.comps[ci], planes[ci], m)
      ensures out == buffer + scan.RowBlocks(scan.comps[ci], planes[ci], scan.RowAt(scan.comps[ci], imcuRowNum) + y, m, scan.McuWidth(scan.comps[ci]))
    {
      var c, p := scan.comps[ci], planes[ci];
      var w, row := scan.McuWidth(c), scan.RowAt(c, imcuRowNum) + y;
      var x := 0;
      out := buffer;
      assert out == buffer + scan.RowBlocks(c, p, row, m, 0);
      assert FilledRow(scan, whole[ci], c, p, row);
      while x < w
        invariant 0 <= x <= w && out == buffer + scan.RowBlocks(c, p, row, m, x)
      {
        assert HoldsAt(scan, whole[ci], c, p, row, m, x);
        out := out + [whole[ci][row, scan.ColAt(c, m) + x]];
        x := x + 1;
      }
    }

    ghost predicate Ready()
      reads this, whole
      requires Configured()
    {
      imcuRowNum < scan.imcuRows && (source == CrankDest ==> forall ci :: 0 <= ci < |whole| ==> Filled(ci, imcuRowNum))
    }

    /** The MCU at column `m` of MCU row `yoffset`. */
    method MakeMcu(yoffset: nat, m: nat) returns (buffer: seq<Block>)
      requires Configured() && Ready() && yoffset < scan.McuRows(imcuRowNum) && m < scan.McusPerRow()
      requires scan.AllInImage(planes, m)
      ensures buffer == scan.Mcu(planes, imcuRowNum, yoffset, m)
    {
      buffer := [];
      var ci := 0;
      while ci < |scan.comps|
        invariant 0 <= ci <= |scan.comps| && buffer == scan.McuBlocks(planes, imcuRowNum, yoffset, m, ci)
      {
        buffer := AddPart(buffer, ci, yoffset, m);
        ci := ci + 1;
      }
    }

    method AddPart(buffer: seq<Block>, ci: nat, yoffset: nat, m: nat) returns (out: seq<Block>)
      requires Configured() && Ready() && yoffset < scan.McuRows(imcuRowNum) && m < scan.McusPerRow() && ci < |scan.comps|
      requires scan.InImage(scan.comps[ci], planes[ci], m)
      ensures var c := scan.comps[ci];
              out == buffer + scan.PartBlocks(c, planes[ci], scan.RowAt(c, imcuRowNum) + yoffset, m, scan.McuHeight(c))
    {
      var c, p := scan.comps[ci], planes[ci];
      var first, height := scan.RowAt(c, imcuRowNum) + yoffset, scan.McuHeight(c);
      RowsInImcu(ci, yoffset);
      hide Scan.Valid, Scan.InImage, Scan.RowBlocks, Scan.LastDc, Scan.RowAt, Scan.McuRows, Scan.McuHeight, Scan.McuWidth, Scan.PartBlocks;
      out := buffer;
      NextRow(c, p, first, m, 0);
      var yindex := 0;
      while yindex < height
        invariant 0 <= yindex <= height && out == buffer + scan.PartBlocks(c, p, first, m, yindex)
        decreases height - yindex
      {
        var y := yindex + yoffset;
        ghost var part := scan.PartBlocks(c, p, first, m, yindex);
        NextRow(c, p, first, m, yindex);
        assert |part| > 0 ==> out[|out| - 1] == part[|part| - 1];
        Assoc(buffer, part, scan.RowBlocks(c, p, first + yindex, m, scan.McuWidth(c)));
        out := AddRow(out, ci, y, m);
        yindex := yindex + 1;
      }
    }

    method AddRow(buffer: seq<Block>, ci: nat, y: nat, m: nat) returns (out: seq<Block>)
      requires Configured() && Ready() && m < scan.McusPerRow() && ci < |scan.comps| && y < scan.comps[ci].vSamp
      requires scan.InImage(scan.comps[ci], planes[ci], m)
      requires Leads(buffer, scan.comps[ci], planes[ci], scan.RowAt(scan.comps[ci], imcuRowNum) + y, m)
      ensures var c := scan.comps[ci];
              out == buffer + scan.RowBlocks(c, planes[ci], scan.RowAt(c, imcuRowNum) + y, m, scan.McuWidth(c))
    {
      hide Scan.Valid, Scan.InImage, Scan.RowBlocks, Scan.RowAt, Scan.McuWidth, Leads;
      match source
      case PassThru => out := PassThruRow(buffer, scan.comps[ci], planes[ci], y, m);
      case CrankDest => out := CrankRow(buffer, ci, y, m);
      case Transcode => out := TranscodeRow(buffer, scan.comps[ci], planes[ci], y, m);
    }

    /** Every row of an MCU is in its iMCU row, and the first one is in the image. */
    lemma RowsInImcu(ci: nat, yoffset: nat)
      requires Configured() && imcuRowNum < scan.imcuRows && yoffset < scan.McuRows(imcuRowNum) && ci < |scan.comps|
      ensures var c := scan.comps[ci];
              && yoffset + scan.McuHeight(c) <= c.vSamp && scan.RowAt(c, imcuRowNum) + yoffset < c.heightInBlocks
    {
      scan.RowsAreThere(imcuRowNum);
      assert scan.comps[ci] in scan.comps && scan.comps[0] in scan.comps;
    }

    lemma NextRow(c: Component, p: Plane, first: nat, m: nat, n: nat)
      requires scan.InImage(c, p, m) && first < c.heightInBlocks
      ensures scan.PartBlocks(c, p, first, m, 0) == []
      ensures scan.PartBlocks(c, p, first, m, n + 1)
           == scan.PartBlocks(c, p, first, m, n) + scan.RowBlocks(c, p, first + n, m, scan.McuWidth(c))
      ensures Leads(scan.PartBlocks(c, p, first, m, n), c, p, first + n, m)
    {
      LeadsNext(c, p, first, m, n);
      hide Scan.RowBlocks, Scan.InImage, Leads;
    }

    lemma LeadsNext(c: Component, p: Plane, first: nat, m: nat, n: nat)
      requires scan.InImage(c, p, m) && first < c.heightInBlocks
      ensures Leads(scan.PartBlocks(c, p, first, m, n), c, p, first + n, m)
    {
      hide Scan.RowBlocks;
      if n > 0 && first + n >= c.heightInBlocks { scan.LastInRow(c, p, first + n - 1, m, scan.McuWidth(c)); }
    }

    // -------------------------------------------------------------- filling the full-image buffer

    /** One row of blocks from the forward DCT, and dummy blocks behind it (compress_first_pass). */
    method FillRow(ci: nat, row: nat)
      requires Configured() && source == CrankDest && scan.Interleaved() && ci < |whole| && row < scan.comps[ci].heightInBlocks
      modifies whole[ci]
      ensures FilledRow(scan, whole[ci], scan.comps[ci], planes[ci], row)
      ensures OtherRowsKept(ci, row)
    {
      var c, p, a := scan.comps[ci], planes[ci], whole[ci];
      assert Sized(ci) && scan.ShapedPlane(c, p) && scan.Fits(c);
      RowInArray(ci, row);
      Dummies(c);
      hide Scan.Valid, Scan.Shaped, Scan.ShapedPlane, Scan.RowAt, Scan.ColAt, Sized, HasRoom;
      var across, ndummy := c.widthInBlocks, c.widthInBlocks % c.hSamp;
      if ndummy > 0 { ndummy := c.hSamp - ndummy; }
      var col := 0;
      while col < across
        invariant 0 <= col <= across
        invariant forall k :: 0 <= k < col ==> a[row, k] == p[row][k]
        invariant OtherRowsKept(ci, row)
        modifies a
      {
        a[row, col] := p[row][col];
        col := col + 1;
      }
      var last := a[row, across - 1];
      var bi := 0;
      while bi < ndummy
        invariant 0 <= bi <= ndummy
        invariant forall k :: 0 <= k < across ==> a[row, k] == p[row][k]
        invariant forall k :: across <= k < across + bi ==> a[row, k] == Dummy(last)
        invariant OtherRowsKept(ci, row)
        modifies a
      {
        a[row, across + bi] := Dummy(last);
        bi := bi + 1;
      }
      forall m: nat, x: nat | m < scan.McusPerRow() && x < scan.McuWidth(c) ensures HoldsAt(scan, a, c, p, row, m, x) {
        RealRow(ci, row, m, x);
      }
    }

    twostate predicate OtherRowsKept(ci: nat, row: nat)
      requires ci < |whole|
      reads whole[ci]
    {
      forall r, k :: 0 <= r < whole[ci].Length0 && 0 <= k < whole[ci].Length1 && r != row ==>
        whole[ci][r, k] == old(whole[ci][r, k])
    }

    lemma RowInArray(ci: nat, row: nat)
      requires Configured() && source == CrankDest && ci < |whole| && row < scan.comps[ci].heightInBlocks
      ensures row < whole[ci].Length0 && row < |planes[ci]| && |planes[ci][row]| == scan.comps[ci].widthInBlocks
      ensures scan.comps[ci].hSamp >= 1 && 1 <= scan.comps[ci].widthInBlocks
    {
      assert Sized(ci) && scan.Fits(scan.comps[ci]) && Scan.ShapedPlane(scan.comps[ci], planes[ci]);
    }

    /** The dummy blocks fill up the last MCU. */
    lemma Dummies(c: Component)
      requires scan.Valid() && scan.Interleaved() && c in scan.comps
      ensures c.hSamp >= 1
      ensures c.widthInBlocks + (if c.widthInBlocks % c.hSamp == 0 then 0 else c.hSamp - c.widthInBlocks % c.hSamp)
           == scan.ColAt(c, scan.McusPerRow())
    {
      LastOnesAreRight(scan, c);
      assert scan.Fits(c);
      Distributes(scan.mcusAcross - 1, 1, c.hSamp);
    }

    lemma RealRow(ci: nat, row: nat, m: nat, x: nat)
      requires Configured() && source == CrankDest && scan.Interleaved() && ci < |whole| && row < scan.comps[ci].heightInBlocks
      requires m < scan.McusPerRow() && x < scan.McuWidth(scan.comps[ci]) && Sized(ci)
      requires Scan.ShapedPlane(scan.comps[ci], planes[ci])
      requires row < whole[ci].Length0
      requires var width := scan.comps[ci].widthInBlocks;
               && 1 <= width <= whole[ci].Length1
               && (forall k :: 0 <= k < width ==> whole[ci][row, k] == planes[ci][row][k])
               && forall k :: width <= k < whole[ci].Length1 ==> whole[ci][row, k] == Dummy(planes[ci][row][width - 1])
      ensures HoldsAt(scan, whole[ci], scan.comps[ci], planes[ci], row, m, x)
    {
      var c := scan.comps[ci];
      scan.AllColumnsFit(planes, m);
      scan.ColumnsFit(c, m);
      scan.ColumnsFit(c, scan.McusPerRow() - 1);
      Distributes(scan.McusPerRow() - 1, 1, c.hSamp);
      if m < scan.McusPerRow() - 1 { GrowsByOne(m, scan.McusPerRow() - 1, c.hSamp); }
    }

    /** One row of dummy blocks at the bottom: within each MCU the DC value of the last block of the row above. */
    method FillDummyRow(ci: nat, row: nat)
      requires Configured() && source == CrankDest && scan.Interleaved() && ci < |whole|
      requires 1 <= row && scan.comps[ci].heightInBlocks <= row < whole[ci].Length0
      requires FilledRow(scan, whole[ci], scan.comps[ci], planes[ci], row - 1)
      modifies whole[ci]
      ensures FilledRow(scan, whole[ci], scan.comps[ci], planes[ci], row)
      ensures OtherRowsKept(ci, row)
    {
      var c, p, a, h := scan.comps[ci], planes[ci], whole[ci], scan.comps[ci].hSamp;
      var mcus := scan.McusPerRow();
      assert scan.McuWidth(c) == h;
      var mcu := 0;
      while mcu < mcus
        invariant 0 <= mcu <= mcus && OtherRowsKept(ci, row) && FilledRow(scan, a, c, p, row - 1)
        invariant forall m: nat, x: nat :: m < mcu && x < h ==> HoldsAt(scan, a, c, p, row, m, x)
        modifies a
      {
        DummyMcu(ci, row, mcu);
        mcu := mcu + 1;
      }
    }

    method DummyMcu(ci: nat, row: nat, mcu: nat)
      requires Configured() && source == CrankDest && scan.Interleaved() && ci < |whole| && mcu < scan.McusPerRow()
      requires 1 <= row && scan.comps[ci].heightInBlocks <= row < whole[ci].Length0
      requires FilledRow(scan, whole[ci], scan.comps[ci], planes[ci], row - 1)
      modifies whole[ci]
      ensures forall x: nat :: x < scan.comps[ci].hSamp ==> HoldsAt(scan, whole[ci], scan.comps[ci], planes[ci], row, mcu, x)
      ensures OtherRowsKept(ci, row) && FilledRow(scan, whole[ci], scan.comps[ci], planes[ci], row - 1)
      ensures forall m: nat, x: nat {:trigger HoldsAt(scan, whole[ci], scan.comps[ci], planes[ci], row, m, x)} ::
                m < mcu && x < scan.comps[ci].hSamp && old(HoldsAt(scan, whole[ci], scan.comps[ci], planes[ci], row, m, x)) ==>
                HoldsAt(scan, whole[ci], scan.comps[ci], planes[ci], row, m, x)
    {
      var c, p, a, h := scan.comps[ci], planes[ci], whole[ci], scan.comps[ci].hSamp;
      var first := scan.ColAt(c, mcu);
      scan.ColumnsFit(c, mcu);
      LastAbove(ci, row, mcu);
      var lastBlock := a[row - 1, first + h - 1];
      var bi := 0;
      while bi < h
        invariant 0 <= bi <= h && OtherRowsKept(ci, row)
        invariant forall k :: first <= k < first + bi ==> a[row, k] == Dummy(lastBlock)
        invariant forall k :: 0 <= k < first ==> a[row, k] == old(a[row, k])
        modifies a
      {
        a[row, first + bi] := Dummy(lastBlock);
        bi := bi + 1;
      }
      forall m: nat, x: nat | m < mcu && x < h && old(HoldsAt(scan, a, c, p, row, m, x))
        ensures HoldsAt(scan, a, c, p, row, m, x)
      {
        GrowsByOne(m, mcu, h);
      }
      var above := row - 1;
      forall m: nat, x: nat | m < scan.McusPerRow() && x < h ensures HoldsAt(scan, a, c, p, above, m, x) {
        assert old(HoldsAt(scan, a, c, p, above, m, x));
      }
    }

    lemma LastAbove(ci: nat, row: nat, mcu: nat)
      requires Configured() && source == CrankDest && scan.Interleaved() && ci < |whole| && mcu < scan.McusPerRow()
      requires 1 <= row && scan.comps[ci].heightInBlocks <= row < whole[ci].Length0
      requires FilledRow(scan, whole[ci], scan.comps[ci], planes[ci], row - 1)
      ensures var c, h := scan.comps[ci], scan.comps[ci].hSamp; var col := scan.ColAt(c, mcu) + h - 1;
              && h >= 1 && 0 <= col < whole[ci].Length1 && scan.InImage(c, planes[ci], mcu)
              && whole[ci][row - 1, col][0] == scan.LastDc(c, planes[ci], row, mcu)
    {
      var c, h := scan.comps[ci], scan.comps[ci].hSamp;
      assert scan.Fits(c);
      assert HoldsAt(scan, whole[ci], c, planes[ci], row - 1, mcu, h - 1);
    }

    /** What compress_first_pass does for one component. */
    method FillComponent(ci: nat)
      requires Configured() && source == CrankDest && scan.Interleaved() && ci < |whole| && imcuRowNum < scan.imcuRows
      modifies whole[ci]
      ensures Filled(ci, imcuRowNum)
    {
      var c, first := scan.comps[ci], scan.RowAt(scan.comps[ci], imcuRowNum);
      scan.RowsAreThere(imcuRowNum);
      assert c in scan.comps;
      ImcuInArray(ci);
      LastOnesAreRight(scan, c);
      var blockRows := c.vSamp;
      if imcuRowNum >= scan.imcuRows - 1 {
        blockRows := c.heightInBlocks % c.vSamp;
        if blockRows == 0 { blockRows := c.vSamp; }
      }
      hide Scan.Valid, Scan.RowAt, Scan.Shaped, Scan.LastRowHeight, HasRoom, Sized, FilledRow;
      var blockRow := 0;
      while blockRow < blockRows
        invariant 0 <= blockRow <= blockRows && FilledUpTo(ci, first, blockRow)
        modifies whole[ci]
      {
        FillNextRow(ci, first, blockRow, true);
        blockRow := blockRow + 1;
      }
      if imcuRowNum == scan.imcuRows - 1 {
        while blockRow < c.vSamp
          invariant blockRows <= blockRow <= c.vSamp && FilledUpTo(ci, first, blockRow)
          modifies whole[ci]
        {
          FillNextRow(ci, first, blockRow, false);
          blockRow := blockRow + 1;
        }
      }
    }

    ghost predicate FilledUpTo(ci: nat, first: nat, n: nat)
      requires Configured() && source == CrankDest && ci < |whole|
      reads if ci < |whole| then {whole[ci]} else {}
    {
      forall row: nat :: first <= row < first + n ==> FilledRow(scan, whole[ci], scan.comps[ci], planes[ci], row)
    }

    /** One row more, which has to be real just if it is in the image. */
    method FillNextRow(ci: nat, first: nat, n: nat, inImage: bool)
      requires Configured() && source == CrankDest && scan.Interleaved() && ci < |whole|
      requires first < scan.comps[ci].heightInBlocks && first + n < whole[ci].Length0 && FilledUpTo(ci, first, n)
      requires inImage <==> first + n < scan.comps[ci].heightInBlocks
      modifies whole[ci]
      ensures FilledUpTo(ci, first, n + 1)
    {
      hide Scan.Padded;
      var c, p, a := scan.comps[ci], planes[ci], whole[ci];
      if inImage {
        FillRow(ci, first + n);
      } else {
        assert FilledRow(scan, a, c, p, first + n - 1);
        FillDummyRow(ci, first + n);
      }
      forall row: nat, m: nat, x: nat | first <= row < first + n && m < scan.McusPerRow() && x < scan.McuWidth(c)
        ensures HoldsAt(scan, a, c, p, row, m, x)
      {
        assert old(FilledRow(scan, a, c, p, row));
        assert old(HoldsAt(scan, a, c, p, row, m, x));
      }
    }

    lemma ImcuInArray(ci: nat)
      requires Configured() && source == CrankDest && ci < |whole| && imcuRowNum < scan.imcuRows
      ensures scan.RowAt(scan.comps[ci], imcuRowNum) + scan.comps[ci].vSamp <= whole[ci].Length0
    {
      var c := scan.comps[ci];
      assert Sized(ci);
      Distributes(imcuRowNum, 1, c.vSamp);
      Grows(imcuRowNum + 1, scan.imcuRows, c.vSamp);
    }

    /** compress_first_pass: fill the buffer for this iMCU row, then emit it. After a refusal all of it is done again. */
    method CompressFirstPass(accepts: nat) returns (done: bool)
      requires Valid() && source == CrankDest && scan.Interleaved() && imcuRowNum < scan.imcuRows
      modifies this, whole
      ensures Valid()
      ensures done ==> imcuRowNum == old(imcuRowNum) + 1 && mcuCtr == mcuVertOffset == 0
      ensures !done ==> imcuRowNum == old(imcuRowNum) && |sent| == |old(sent)| + accepts
      ensures old(sent) <= sent && |sent| <= |old(sent)| + accepts
      ensures forall ci :: 0 <= ci < |whole| ==> Filled(ci, old(imcuRowNum))
    {
      hide Scan.Valid, Scan.Shaped, Scan.RowAt, Scan.McuRows, Sized, Scan.Before;
      var ci := 0;
      while ci < |scan.comps|
        invariant 0 <= ci <= |whole| && forall k :: 0 <= k < ci ==> Filled(k, imcuRowNum)
        modifies whole
      {
        FillComponent(ci);
        ci := ci + 1;
      }
      ghost var i := imcuRowNum;
      done := CompressData(accepts);
    }

    // -------------------------------------------------------------- all MCUs, whatever is refused

    /** start_iMCU_row. */
    method StartImcuRow()
      requires Configured()
      modifies this`mcuRowsPerImcuRow, this`mcuCtr, this`mcuVertOffset
      ensures mcuCtr == mcuVertOffset == 0
      ensures imcuRowNum < scan.imcuRows ==> mcuRowsPerImcuRow == scan.McuRows(imcuRowNum)
    {
      if |scan.comps| > 1 {
        mcuRowsPerImcuRow := 1;
      } else if imcuRowNum < scan.imcuRows - 1 {
        mcuRowsPerImcuRow := scan.comps[0].vSamp;
      } else {
        mcuRowsPerImcuRow := scan.LastRowHeight(scan.comps[0]);
      }
      mcuCtr, mcuVertOffset := 0, 0;
    }

    /** The entropy coder has taken, in raster order, each MCU in front of the saved position, once. */
    ghost predicate Valid()
      reads this
    {
      && Configured() && imcuRowNum <= scan.imcuRows && mcuCtr <= scan.McusPerRow()
      && (imcuRowNum < scan.imcuRows ==> mcuRowsPerImcuRow == scan.McuRows(imcuRowNum) && mcuVertOffset < mcuRowsPerImcuRow)
      && (imcuRowNum == scan.imcuRows ==> mcuCtr == mcuVertOffset == 0)
      && sent == scan.Before(planes, imcuRowNum, mcuVertOffset, mcuCtr)
    }

    /** When the last iMCU row is done, the whole scan has been sent, whichever of the controllers it was. */
    lemma AllSent()
      requires Valid() && imcuRowNum == scan.imcuRows
      ensures sent == scan.McusTo(planes, scan.imcuRows)
    {
      assert scan.McusTo(planes, scan.imcuRows) + [] + [] == scan.McusTo(planes, scan.imcuRows);
    }

    /** start_pass_coef. */
    method StartPass()
      requires Configured()
      modifies this
      ensures Valid() && imcuRowNum == 0 && sent == []
    {
      imcuRowNum := 0;
      sent := [];
      StartImcuRow();
      scan.RowsAreThere(0);
    }

    /** compress_data of the single-pass controller and compress_output of the two others. The entropy coder takes
        `accepts` MCUs; if that does not complete the iMCU row, the answer is false. */
    method CompressData(accepts: nat) returns (done: bool)
      requires Valid() && Ready()
      modifies this
      ensures Valid()
      ensures done ==> imcuRowNum == old(imcuRowNum) + 1 && mcuCtr == mcuVertOffset == 0
      ensures !done ==> imcuRowNum == old(imcuRowNum) && |sent| == |old(sent)| + accepts
      ensures old(sent) <= sent && |sent| <= |old(sent)| + accepts
    {
      hide Scan.McusTo, Scan.McusOfImcu, Scan.McusOfRow, Scan.Mcu, Scan.Shaped, Filled, Scan.McuRows, Scan.McusPerRow;
      var left := accepts;
      var i, yoffset := imcuRowNum, mcuVertOffset;
      while yoffset < mcuRowsPerImcuRow
        invariant imcuRowNum == i == old(imcuRowNum) && mcuRowsPerImcuRow == scan.McuRows(i)
        invariant mcuVertOffset == old(mcuVertOffset) && mcuVertOffset <= yoffset <= mcuRowsPerImcuRow
        invariant mcuCtr <= scan.McusPerRow() && (yoffset == mcuRowsPerImcuRow ==> mcuCtr == 0)
        invariant sent == scan.Before(planes, i, yoffset, mcuCtr)
        invariant old(sent) <= sent && |sent| + left == |old(sent)| + accepts
        modifies this
      {
        var m := mcuCtr;
        while m < scan.McusPerRow()
          invariant imcuRowNum == i == old(imcuRowNum) && mcuRowsPerImcuRow == scan.McuRows(i)
          invariant m <= scan.McusPerRow() && mcuVertOffset == old(mcuVertOffset)
          invariant sent == scan.Before(planes, i, yoffset, m)
          invariant old(sent) <= sent && |sent| + left == |old(sent)| + accepts
          modifies this`sent, this`mcuVertOffset, this`mcuCtr
        {
          scan.AllColumnsFit(planes, m);
          var buffer := MakeMcu(yoffset, m);
          if left == 0 {
            mcuVertOffset, mcuCtr := yoffset, m;
            return false;
          }
          scan.OneMore(planes, i, yoffset, m);
          left := left - 1;
          sent := sent + [buffer];
          m := m + 1;
        }
        scan.RowDone(planes, i, yoffset);
        mcuCtr := 0;
        yoffset := yoffset + 1;
      }
      scan.ImcuDone(planes, i);
      imcuRowNum := imcuRowNum + 1;
      StartImcuRow();
      if imcuRowNum < scan.imcuRows { scan.RowsAreThere(imcuRowNum); }
      done := true;
    }
  }
}
