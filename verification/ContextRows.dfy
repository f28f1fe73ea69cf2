/** The decompression main buffer controller when the upsampler needs context rows (jdmainct.c): two lists of row
    pointers into one workspace, in a funny order, so that every row group is seen with the groups above and below it
    although no row is ever copied. One component. */
module ContextRows {
  import opened Arithmetic
  import opened Geometry

  /** What the decoder leaves in rows behind the bottom of the image. */
  const PADDING := -1

  datatype ContextState = PrepareForImcu | ProcessImcu | PostponedRow

  /** One component: `rgroup` rows to a row group, `m` row groups to an iMCU row, `height` rows in all. */
  datatype Shape = Shape(rgroup: nat, m: nat, height: nat, totalImcuRows: nat) {

    /** The number of rows in an iMCU row. */
    function ImcuHeight(): nat { rgroup * m }

    predicate Valid() {
      && rgroup >= 1 && m >= 2 && totalImcuRows >= 1
      && RowsBefore(totalImcuRows - 1) < height <= RowsBefore(totalImcuRows)
    }

    /** The number of rows in `n` iMCU rows. */
    function RowsBefore(n: nat): nat { n * ImcuHeight() }

    /** The number of row groups that hold rows of the image. */
    function Groups(): nat
      requires Valid()
    {
      (height - 1) / rgroup + 1
    }

    /** What the decoder delivers as row `r`. */
    function Decoded(r: nat): int { if r < height then r else PADDING }

    /** The row that the upsampler gets to see where row `r` is wanted for row group `i`. Rows above the image are its
        first row, and rows below it are its last row; but if group `i` ends an iMCU row, the rows of the next group are
        shown as they were decoded. */
    function Shown(i: nat, r: int): int
      requires Valid()
    {
      if r < 0 then 0
      else if r < height then r
      else if (i + 1) % m == 0 && i + 1 < Groups() then PADDING
      else height - 1
    }

    /** Row group `i` with the group above it and the group below it. */
    function Window(i: nat): seq<int>
      requires Valid()
    {
      seq(3 * rgroup, j requires 0 <= j < 3 * rgroup => Shown(i, i * rgroup - rgroup + j))
    }

    /** The same with every row outside the image replaced by the nearest row inside. */
    function Clamped(i: nat): seq<int>
      requires Valid()
    {
      seq(3 * rgroup, j requires 0 <= j < 3 * rgroup =>
        var r := i * rgroup - rgroup + j; if r < 0 then 0 else if r < height then r else height - 1)
    }

    /** In the normal state: the workspace row that list `w` has at position `k`. The lists are cyclic, and the second
        has its last four row groups in swapped order. */
    function Slot(w: nat, k: int): int {
      var n, two := ImcuHeight(), 2 * rgroup;
      var q := if k < 0 then k + n + two else if k >= n + two then k - n - two else k;
      if w == 0 then q else if n - two <= q < n then q + two else if q >= n then q - two else q
    }
  }

  class MainController {
    const sh: Shape
    const buffer: array<int>
    // The two lists of row addresses; position `k` of a list is entry `k + rgroup` of its array.
    const xbuffer0: array<int>
    const xbuffer1: array<int>
    var whichptr: nat
    var contextState: ContextState
    var bufferFull: bool
    var rowgroupCtr: nat
    var rowgroupsAvail: nat
    var imcuRowCtr: nat
    // What the postprocessor has seen of the row groups it has swallowed.
    ghost var delivered: seq<seq<int>>

    ghost predicate Shaped() {
      && sh.Valid() && buffer.Length == sh.ImcuHeight() + 2 * sh.rgroup
      && xbuffer0.Length == xbuffer1.Length == sh.ImcuHeight() + 4 * sh.rgroup
      && xbuffer0 != xbuffer1 && buffer != xbuffer0 && buffer != xbuffer1
      && 2 * sh.rgroup <= sh.ImcuHeight()
    }

    function List(w: nat): array<int> { if w == 0 then xbuffer0 else xbuffer1 }

    /** What is seen at position `k` of list `w`. */
    function Seen(w: nat, k: int): int
      reads buffer, List(w)
      requires Shaped() && 0 - sh.rgroup <= k < sh.ImcuHeight() + 3 * sh.rgroup
    {
      var slot := List(w)[k + sh.rgroup];
      if 0 <= slot < buffer.Length then buffer[slot] else PADDING
    }

    /** What is seen of the row group at index `g` of list `w`, with the groups around it. */
    function SeenAt(w: nat, g: nat): seq<int>
      reads buffer, List(w)
      requires Shaped() && g * sh.rgroup <= sh.ImcuHeight() + sh.rgroup
    {
      seq(3 * sh.rgroup, j requires 0 <= j < 3 * sh.rgroup reads buffer, List(w) => Seen(w, g * sh.rgroup - sh.rgroup + j))
    }

    // -------------------------------------------------------------- the lists

    ghost predicate Ordered(w: nat)
      reads List(w)
      requires Shaped()
    {
      forall k :: 0 <= k < sh.ImcuHeight() + 2 * sh.rgroup ==> List(w)[k + sh.rgroup] == sh.Slot(w, k)
    }

    ghost predicate TopOfImage()
      reads xbuffer0
      requires Shaped()
    {
      forall k :: 0 <= k < sh.rgroup ==> xbuffer0[k] == 0
    }

    ghost predicate Cyclic(w: nat)
      reads List(w)
      requires Shaped()
    {
      forall k: int :: -(sh.rgroup as int) <= k < sh.ImcuHeight() + 3 * sh.rgroup ==> List(w)[k + sh.rgroup] == sh.Slot(w, k)
    }

    // -------------------------------------------------------------- the workspace

    /** iMCU row `n` is at the front of list `w`. */
    ghost predicate Holds(w: nat, n: nat)
      reads buffer
      requires Shaped()
    {
      forall k :: 0 <= k < sh.ImcuHeight() ==> buffer[sh.Slot(w, k)] == sh.Decoded(sh.RowsBefore(n) + k)
    }

    /** The last two row groups before iMCU row `n` are at the back of list `w`. */
    ghost predicate Keeps(w: nat, n: nat)
      reads buffer
      requires Shaped()
    {
      && 2 * sh.rgroup <= sh.RowsBefore(n)
      && forall k :: sh.ImcuHeight() <= k < sh.ImcuHeight() + 2 * sh.rgroup ==>
           buffer[sh.Slot(w, k)] == sh.Decoded(sh.RowsBefore(n) - 2 * sh.rgroup + (k - sh.ImcuHeight()))
    }

    // -------------------------------------------------------------- filling the lists

    constructor (sh: Shape)
      requires sh.Valid() && 2 * sh.rgroup <= sh.ImcuHeight()
      ensures this.sh == sh && Shaped() && fresh(buffer) && fresh(xbuffer0) && fresh(xbuffer1)
    {
      this.sh := sh;
      buffer := new int[sh.ImcuHeight() + 2 * sh.rgroup];
      xbuffer0 := new int[sh.ImcuHeight() + 4 * sh.rgroup];
      xbuffer1 := new int[sh.ImcuHeight() + 4 * sh.rgroup];
      whichptr, contextState, bufferFull, rowgroupCtr, rowgroupsAvail, imcuRowCtr := 0, PrepareForImcu, false, 0, 0, 0;
      delivered := [];
    }

    /** make_funny_pointers. */
    method MakeFunnyPointers()
      requires Shaped()
      modifies xbuffer0, xbuffer1
      ensures Ordered(0) && Ordered(1) && TopOfImage()
    {
      hide Shape.Valid, Shape.ImcuHeight;
      assert sh.rgroup >= 1 by { ShapeFacts(); }
      var r, n := sh.rgroup, sh.ImcuHeight();
      var i := 0;
      while i < n + 2 * r
        invariant 0 <= i <= n + 2 * r
        invariant forall k :: r <= k < i + r ==> xbuffer0[k] == k - r && xbuffer1[k] == k - r
      {
        xbuffer0[i + r] := i;
        xbuffer1[i + r] := i;
        i := i + 1;
      }
      i := 0;
      while i < 2 * r
        invariant 0 <= i <= 2 * r
        invariant forall k :: r <= k < n + 3 * r ==> xbuffer0[k] == k - r
        invariant forall k :: r <= k < n + 3 * r ==>
                    xbuffer1[k] == if n - r <= k < n - r + i then k + r else if n + r <= k < n + r + i then k - 3 * r else k - r
      {
        xbuffer1[n - 2 * r + i + r] := n + i;
        xbuffer1[n + i + r] := n - 2 * r + i;
        i := i + 1;
      }
      i := 0;
      while i < r
        invariant 0 <= i <= r
        invariant forall k :: r <= k < n + 3 * r ==> xbuffer0[k] == k - r
        invariant forall k :: 0 <= k < i ==> xbuffer0[k] == 0
        modifies xbuffer0
      {
        xbuffer0[i] := xbuffer0[r];
        i := i + 1;
      }
    }

    /** set_wraparound_pointers; the two lists do not share an entry, and are done one after the other. */
    method SetWraparoundPointers()
      requires Shaped()
      modifies xbuffer0, xbuffer1
      ensures old(Ordered(0)) ==> Cyclic(0)
      ensures old(Ordered(1)) ==> Cyclic(1)
    {
      hide Ordered, Cyclic;
      WrapList(0);
      WrapList(1);
    }

    method WrapList(w: nat)
      requires Shaped()
      modifies List(w)
      ensures old(Ordered(w)) ==> Cyclic(w)
    {
      hide Ordered, Cyclic;
      var xbuf, r, n := List(w), sh.rgroup, sh.ImcuHeight();
      var i := 0;
      while i < r
        invariant 0 <= i <= r && Wrapped(w, i)
      {
        xbuf[i] := xbuf[n + 2 * r + i];
        xbuf[n + 3 * r + i] := xbuf[i + r];
        i := i + 1;
      }
      if old(Ordered(w)) { WrappedIsCyclic(w); }
    }

    /** The first `i` entries at both ends of the list are those at the other end. */
    twostate predicate Wrapped(w: nat, i: nat)
      reads List(w)
      requires Shaped() && i <= sh.rgroup
    {
      var r, n := sh.rgroup, sh.ImcuHeight();
      && (forall k :: r <= k < n + 3 * r ==> List(w)[k] == old(List(w)[k]))
      && (forall k :: 0 <= k < i ==> List(w)[k] == old(List(w)[k + n + 2 * r]))
      && (forall k :: n + 3 * r <= k < n + 3 * r + i ==> List(w)[k] == old(List(w)[k - n - 2 * r]))
    }

    twostate lemma WrappedIsCyclic(w: nat)
      requires Shaped() && old(Ordered(w)) && Wrapped(w, sh.rgroup)
      ensures Cyclic(w)
    {
      var r, n := sh.rgroup, sh.ImcuHeight();
      forall k: int | -(r as int) <= k < n + 3 * r ensures List(w)[k + r] == sh.Slot(w, k) {
        var q := if k < 0 then k + n + 2 * r else if k >= n + 2 * r then k - n - 2 * r else k;
        assert old(List(w)[q + r]) == sh.Slot(w, q) == sh.Slot(w, k);
      }
    }

    /** The number of rows of the image in the last iMCU row. */
    function RowsLeft(): nat
      requires Shaped()
    {
      RowsLeftIs(sh);
      var left := sh.height % sh.ImcuHeight();
      if left == 0 then sh.ImcuHeight() else left
    }

    /** set_bottom_pointers: the last row of the image again, two row groups long. */
    method SetBottomPointers()
      requires Shaped() && whichptr <= 1
      modifies this`rowgroupsAvail, List(whichptr)
      ensures rowgroupsAvail == (RowsLeft() - 1) / sh.rgroup + 1
      ensures forall k :: 0 <= k < List(whichptr).Length ==>
                List(whichptr)[k] == if RowsLeft() + sh.rgroup <= k < RowsLeft() + 3 * sh.rgroup
                                     then old(List(whichptr)[RowsLeft() + sh.rgroup - 1]) else old(List(whichptr)[k])
    {
      RowsLeftIs(sh);
      var r, rowsLeft := sh.rgroup, sh.height % sh.ImcuHeight();
      if rowsLeft == 0 { rowsLeft := sh.ImcuHeight(); }
      rowgroupsAvail := (rowsLeft - 1) / r + 1;
      var xbuf := List(whichptr);
      var i := 0;
      while i < 2 * r
        invariant 0 <= i <= 2 * r
        invariant forall k :: 0 <= k < xbuf.Length ==>
                    xbuf[k] == if rowsLeft + r <= k < rowsLeft + r + i then old(xbuf[rowsLeft + r - 1]) else old(xbuf[k])
        modifies xbuf
      {
        xbuf[rowsLeft + r + i] := xbuf[rowsLeft + r - 1];
        i := i + 1;
      }
    }

    // -------------------------------------------------------------- filling the workspace

    /** decompress_data: the next iMCU row goes to the front of the current list. */
    method DecompressData()
      requires Shaped() && whichptr <= 1 && Ordered(whichptr)
      modifies buffer
      ensures Holds(whichptr, imcuRowCtr)
      ensures forall n: nat :: old(Keeps(whichptr, n)) ==> Keeps(whichptr, n)
    {
      var n := sh.ImcuHeight();
      var k := 0;
      while k < n
        invariant 0 <= k <= n
        invariant forall j :: 0 <= j < k ==> buffer[sh.Slot(whichptr, j)] == sh.Decoded(sh.RowsBefore(imcuRowCtr) + j)
        invariant forall j :: n <= j < n + 2 * sh.rgroup ==> buffer[sh.Slot(whichptr, j)] == old(buffer[sh.Slot(whichptr, j)])
      {
        var slot := List(whichptr)[k + sh.rgroup];
        assert slot == sh.Slot(whichptr, k);
        buffer[slot] := sh.Decoded(sh.RowsBefore(imcuRowCtr) + k);
        k := k + 1;
      }
    }

    // -------------------------------------------------------------- what the lists show

    /** The first iMCU row is in the workspace, or is to come. */
    predicate FirstRow()
      reads this
    {
      imcuRowCtr == if bufferFull then 1 else 0
    }

    ghost predicate ListsReady()
      reads this, xbuffer0, xbuffer1
      requires Shaped()
    {
      if FirstRow() then whichptr == 0 && Ordered(0) && Ordered(1) && TopOfImage() else Cyclic(0) && Cyclic(1)
    }

    /** Everything in front of list `w` up to its end, and one row group before it, is shown as part of iMCU row `c`. */
    ghost predicate FrontShown(w: nat, c: nat)
      reads buffer, List(w)
      requires Shaped()
    {
      forall k: int :: -(sh.rgroup as int) <= k < sh.ImcuHeight() ==>
        Seen(w, k) == if sh.RowsBefore(c) + k < 0 then 0 else sh.Decoded(sh.RowsBefore(c) + k)
    }

    lemma FrontIsShown(c: nat)
      requires Shaped() && whichptr <= 1 && ListsReady() && Holds(whichptr, c)
      requires FirstRow() <==> c == 0
      requires c >= 1 ==> Keeps(whichptr, c)
      ensures FrontShown(whichptr, c)
    {
      hide Shape.Slot, Shape.ImcuHeight, Shape.Decoded, Shape.Groups;
      var w, n, r, base := whichptr, sh.ImcuHeight(), sh.rgroup, sh.RowsBefore(c);
      Distributes(c - 1, 1, n);
      assert c == 0 ==> base == 0;
      forall k: int | -(r as int) <= k < n ensures Seen(w, k) == if base + k < 0 then 0 else sh.Decoded(base + k) {
        SlotWraps(sh, w, k);
        if k >= 0 {
          assert List(w)[k + r] == sh.Slot(w, k);
        } else if c == 0 {
          SlotWraps(sh, 0, 0);
          assert xbuffer0[k + r] == 0;
          assert sh.Decoded(0) == 0 by { FirstDecoded(sh); }
        } else {
          assert List(w)[k + r] == sh.Slot(w, k) == sh.Slot(w, k + n + 2 * r);
        }
      }
    }

    /** A row group of an iMCU row that is followed by another row group of it. */
    lemma ShownInside(w: nat, c: nat, g: nat)
      requires Shaped() && FrontShown(w, c) && c + 1 < sh.totalImcuRows && g + 1 < sh.m
      ensures g * sh.rgroup <= sh.ImcuHeight() + sh.rgroup
      ensures SeenAt(w, g) == sh.Window(c * sh.m + g)
    {
      hide Shape.Groups, Shape.ImcuHeight, Shape.Shown, Shape.Decoded, Seen;
      var r, n, base, i := sh.rgroup, sh.ImcuHeight(), sh.RowsBefore(c), c * sh.m + g;
      GroupStart(sh, c, g);
      GroupInside(sh, g + 1);
      GroupInside(sh, g);
      Distributes(g, 1, r);
      RowsGrow(sh, c);
      var lo := g * r - r;
      forall k: int | lo <= k < lo + 3 * r ensures Seen(w, k) == sh.Shown(i, base + k) {
        ShownInImage(sh, i, base + k);
      }
      SameWindow(w, g, i, base);
    }

    lemma SameWindow(w: nat, g: nat, i: nat, base: int)
      requires Shaped() && g * sh.rgroup <= sh.ImcuHeight() + sh.rgroup && i * sh.rgroup == base + g * sh.rgroup
      requires forall k: int :: g * sh.rgroup - sh.rgroup <= k < g * sh.rgroup + 2 * sh.rgroup ==> Seen(w, k) == sh.Shown(i, base + k)
      ensures SeenAt(w, g) == sh.Window(i)
    {
      hide Shape.Shown, Seen;
      forall j | 0 <= j < 3 * sh.rgroup ensures SeenAt(w, g)[j] == sh.Window(i)[j] {
        var k := g * sh.rgroup - sh.rgroup + j;
        assert Seen(w, k) == sh.Shown(i, base + k);
      }
    }

    /** The last row group of an iMCU row, seen from the list that holds the next one. */
    lemma ShownPostponed(w: nat, n: nat)
      requires Shaped() && w <= 1 && Cyclic(w) && Keeps(w, n) && Holds(w, n) && 1 <= n < sh.totalImcuRows
      ensures 1 <= n * sh.m && (sh.m + 1) * sh.rgroup == sh.ImcuHeight() + sh.rgroup
      ensures SeenAt(w, sh.m + 1) == sh.Window(n * sh.m - 1)
    {
      var r, h, base := sh.rgroup, sh.ImcuHeight(), sh.RowsBefore(n);
      var i, from := n * sh.m - 1, base - 2 * r - h;
      Times(n, 1, sh.m);
      GroupStart(sh, n, 0);
      Times(n * sh.m, 1, r);
      Times(sh.m + 1, 1, r);
      Times(sh.m, 0, r);
      RowsGrow(sh, n);
      GroupsAre(sh);
      MoreGroups(sh, n);
      Quotient(n * sh.m, n, sh.m, 0);
      forall k: int | h <= k < h + 3 * r ensures Seen(w, k) == sh.Shown(i, from + k) {
        assert List(w)[k + r] == sh.Slot(w, k);
        if k >= h + 2 * r { assert sh.Slot(w, k) == sh.Slot(w, k - h - 2 * r); }
      }
      SameWindow(w, sh.m + 1, i, from);
    }

    /** The last iMCU row, when the last row of the image has been repeated behind it. */
    ghost predicate BottomShown(w: nat)
      reads buffer, List(w)
      requires Shaped()
    {
      var base := sh.RowsBefore(sh.totalImcuRows - 1);
      forall k: int :: -(sh.rgroup as int) <= k < RowsLeft() + 2 * sh.rgroup ==>
        Seen(w, k) == if base + k < 0 then 0 else if base + k < sh.height then base + k else sh.height - 1
    }

    twostate lemma BottomIsShown(w: nat)
      requires Shaped() && old(FrontShown(w, sh.totalImcuRows - 1)) && buffer[..] == old(buffer[..])
      requires forall k :: 0 <= k < List(w).Length ==>
                 List(w)[k] == if RowsLeft() + sh.rgroup <= k < RowsLeft() + 3 * sh.rgroup
                               then old(List(w)[RowsLeft() + sh.rgroup - 1]) else old(List(w)[k])
      ensures BottomShown(w)
    {
      var left := RowsLeft();
      RowsLeftIs(sh);
      forall k: int | -(sh.rgroup as int) <= k < left + 2 * sh.rgroup
        ensures Seen(w, k) == old(Seen(w, if k < left then k else left - 1))
      {
      }
    }

    lemma ShownAtBottom(w: nat, g: nat)
      requires Shaped() && BottomShown(w) && g < (RowsLeft() - 1) / sh.rgroup + 1
      ensures g * sh.rgroup <= sh.ImcuHeight() + sh.rgroup
      ensures SeenAt(w, g) == sh.Window((sh.totalImcuRows - 1) * sh.m + g)
    {
      var r, c, left := sh.rgroup, sh.totalImcuRows - 1, RowsLeft();
      var base, i := sh.RowsBefore(c), c * sh.m + g;
      RowsLeftIs(sh);
      GroupsAre(sh);
      GroupStart(sh, c, g);
      GroupInside(sh, g);
      GroupBelow(left, g, r);
      if g + 1 < sh.m { Quotient(i + 1, c, sh.m, g + 1); }
      forall k: int | g * r - r <= k < g * r + 2 * r ensures Seen(w, k) == sh.Shown(i, base + k) {
      }
      SameWindow(w, g, i, base);
    }

    // -------------------------------------------------------------- the state machine

    /** iMCU row `imcuRowCtr` - 1 has been received into the current list. */
    ghost predicate Received()
      reads this, buffer
      requires Shaped()
    {
      && 1 <= imcuRowCtr <= sh.totalImcuRows && Holds(whichptr, imcuRowCtr - 1)
      && (imcuRowCtr >= 2 ==> Keeps(whichptr, imcuRowCtr - 1))
    }

    /** Row group `g` of list `w` is row group `first` + `g` of the image, with the right rows around it. */
    ghost predicate Shows(w: nat, g: nat, first: int)
      reads buffer, List(w)
      requires Shaped()
    {
      0 <= first + g && g * sh.rgroup <= sh.ImcuHeight() + sh.rgroup && SeenAt(w, g) == sh.Window(first + g)
    }

    ghost predicate AllShow(w: nat, from: nat, to: nat, first: int)
      reads buffer, List(w)
      requires Shaped()
    {
      forall g :: from <= g < to ==> Shows(w, g, first)
    }

    ghost predicate InProgress()
      reads this, buffer, xbuffer0, xbuffer1
      requires Shaped()
    {
      match contextState
      case PrepareForImcu =>
        && ListsReady() && |delivered| == (if bufferFull then imcuRowCtr - 1 else 0) * sh.m
        && if bufferFull then Received() else imcuRowCtr == 0
      case ProcessImcu =>
        && bufferFull && 1 <= imcuRowCtr <= sh.totalImcuRows && rowgroupCtr < rowgroupsAvail
        && |delivered| == (imcuRowCtr - 1) * sh.m + rowgroupCtr
        && if imcuRowCtr < sh.totalImcuRows then Received() && ListsReady() && rowgroupsAvail == sh.m - 1
           else
             && rowgroupsAvail == sh.Groups() - (imcuRowCtr - 1) * sh.m
             && AllShow(whichptr, rowgroupCtr, rowgroupsAvail, (imcuRowCtr - 1) * sh.m)
      case PostponedRow =>
        var n := imcuRowCtr - if bufferFull then 1 else 0;
        && 1 <= n < sh.totalImcuRows && Cyclic(0) && Cyclic(1) && Keeps(whichptr, n) && (bufferFull ==> Holds(whichptr, n))
        && rowgroupCtr == sh.m + 1 && rowgroupsAvail == sh.m + 2 && |delivered| == n * sh.m - 1
    }

    /** The row groups swallowed so far are the first ones of the image, in order, each with the right rows around it. */
    ghost predicate Valid()
      reads this, buffer, xbuffer0, xbuffer1
    {
      && Shaped() && whichptr <= 1 && |delivered| <= sh.Groups()
      && (forall i :: 0 <= i < |delivered| ==> delivered[i] == sh.Window(i))
      && (|delivered| < sh.Groups() ==> InProgress())
    }

    /** start_pass_main when context rows are needed. */
    method StartPass()
      requires Shaped()
      modifies this, xbuffer0, xbuffer1
      ensures Valid() && delivered == []
    {
      MakeFunnyPointers();
      whichptr, contextState, imcuRowCtr := 0, PrepareForImcu, 0;
      bufferFull, rowgroupCtr := false, 0;
      delivered := [];
    }

    /** post_process_data: the postprocessor swallows `take` row groups, or as many as there are. */
    method PostProcess(take: nat, ghost i: nat)
      requires Shaped() && whichptr <= 1 && rowgroupCtr <= rowgroupsAvail && |delivered| == i
      requires AllShow(whichptr, rowgroupCtr, rowgroupsAvail, i - rowgroupCtr)
      requires forall j :: 0 <= j < |delivered| ==> delivered[j] == sh.Window(j)
      modifies this`rowgroupCtr, this`delivered
      ensures old(rowgroupCtr) <= rowgroupCtr <= rowgroupsAvail && |delivered| == i + (rowgroupCtr - old(rowgroupCtr))
      ensures rowgroupCtr == if take <= rowgroupsAvail - old(rowgroupCtr) then old(rowgroupCtr) + take else rowgroupsAvail
      ensures AllShow(whichptr, rowgroupCtr, rowgroupsAvail, i - old(rowgroupCtr))
      ensures old(delivered) <= delivered && forall j :: 0 <= j < |delivered| ==> delivered[j] == sh.Window(j)
    {
      hide Shape.Window, Shape.Groups;
      var swallowed := if take <= rowgroupsAvail - rowgroupCtr then take else rowgroupsAvail - rowgroupCtr;
      ghost var c0, first := rowgroupCtr, i - rowgroupCtr;
      ghost var seen := seq(swallowed, k requires 0 <= k < swallowed && Shows(whichptr, c0 + k, first) reads this, buffer, List(whichptr) =>
        SeenAt(whichptr, c0 + k));
      forall k | 0 <= k < swallowed ensures seen[k] == sh.Window(i + k) {
        assert Shows(whichptr, c0 + k, first);
      }
      delivered := delivered + seen;
      rowgroupCtr := rowgroupCtr + swallowed;
      forall g | rowgroupCtr <= g < rowgroupsAvail ensures Shows(whichptr, g, first) {
        assert old(Shows(whichptr, g, first));
        assert forall k: int :: -(sh.rgroup as int) <= k < sh.ImcuHeight() + 3 * sh.rgroup ==> Seen(whichptr, k) == old(Seen(whichptr, k));
        assert SeenAt(whichptr, g) == old(SeenAt(whichptr, g));
      }
    }

    /** The whole of an iMCU row but its last row group is ready for the postprocessor. */
    lemma ShownBeforeLast()
      requires Shaped() && whichptr <= 1 && ListsReady() && Received() && bufferFull && imcuRowCtr < sh.totalImcuRows
      ensures AllShow(whichptr, 0, sh.m - 1, (imcuRowCtr - 1) * sh.m)
    {
      hide ListsReady, Holds, Keeps, FrontShown, SeenAt;
      FrontIsShown(imcuRowCtr - 1);
      var first := (imcuRowCtr - 1) * sh.m;
      forall g | 0 <= g < sh.m - 1 ensures Shows(whichptr, g, first) {
        ShownInside(whichptr, imcuRowCtr - 1, g);
      }
    }

    /** The back of the one list is the end of the front of the other. */
    lemma FrontIsKept(w: nat, n: nat)
      requires Shaped() && w <= 1 && Holds(w, n) && n < sh.totalImcuRows
      ensures Keeps(1 - w, n + 1)
    {
      RowsGrow(sh, n);
      var h, r := sh.ImcuHeight(), sh.rgroup;
      var other := 1 - w;
      forall k: nat | h <= k < h + 2 * r
        ensures buffer[sh.Slot(other, k)] == sh.Decoded(sh.RowsBefore(n + 1) - 2 * r + (k - h))
      {
        assert sh.Slot(other, k) == sh.Slot(w, k - 2 * r);
      }
    }

    /** process_data_context_main. `supplied`: the coefficient controller does not suspend; `takePostponed`, `take`: how
        many row groups the postprocessor swallows of a postponed one and of others, as far as they are there; `filled`:
        the output buffer is full after the postponed one. */
    method ProcessDataContextMain(supplied: bool, takePostponed: nat, filled: bool, take: nat)
      requires Valid() && |delivered| < sh.Groups()
      modifies this, buffer, xbuffer0, xbuffer1
      ensures Valid() && old(delivered) <= delivered
      ensures (supplied || old(bufferFull)) && takePostponed > 0 && take > 0 ==> |delivered| > |old(delivered)|
      ensures !supplied && !old(bufferFull) ==> delivered == old(delivered)
    {
      hide InProgress, Shape.Groups, Shape.Window, Shape.Valid;
      if !bufferFull {
        if !supplied { return; }
        ReceiveImcuRow();
      }
      if contextState == PostponedRow {
        FeedPostponed(takePostponed);
        if contextState == PostponedRow || filled { return; }
      }
      if contextState == PrepareForImcu {
        Prepare();
      }
      FeedImcu(take);
    }

    /** An iMCU row is received; this does not disturb what is still to be shown of the one before. */
    method ReceiveImcuRow()
      requires Valid() && |delivered| < sh.Groups() && !bufferFull
      modifies this`bufferFull, this`imcuRowCtr, buffer
      ensures Valid() && bufferFull
    {
      hide TopOfImage, Holds, Keeps, Shows, Shape.Groups, Shape.Window, Shape.Valid;
      assert 1 <= sh.totalImcuRows by { ShapeFacts(); }
      assert Ordered(whichptr);
      DecompressData();
      bufferFull := true;
      imcuRowCtr := imcuRowCtr + 1;
    }

    lemma ShapeFacts()
      requires Shaped()
      ensures 1 <= sh.totalImcuRows && sh.m >= 2 && sh.rgroup >= 1
    {
    }

    lemma BottomIsReady(to: nat, first: int)
      requires Shaped() && whichptr <= 1 && BottomShown(whichptr)
      requires to == (RowsLeft() - 1) / sh.rgroup + 1 && first == (sh.totalImcuRows - 1) * sh.m
      ensures AllShow(whichptr, 0, to, first)
    {
      hide SeenAt, Shape.Window, BottomShown, Shape.Groups;
      forall g | 0 <= g < to ensures Shows(whichptr, g, first) {
        ShownAtBottom(whichptr, g);
      }
    }

    /** The postponed row group. */
    method FeedPostponed(take: nat)
      requires Valid() && |delivered| < sh.Groups() && bufferFull && contextState == PostponedRow
      modifies this`rowgroupCtr, this`delivered, this`contextState
      ensures Valid() && old(delivered) <= delivered && |delivered| < sh.Groups()
      ensures contextState == (if take == 0 then PostponedRow else PrepareForImcu)
      ensures take > 0 ==> |delivered| == |old(delivered)| + 1
    {
      hide SeenAt, Shape.Slot, Shape.Groups, Shape.Window, Shape.Valid;
      ShapeFacts();
      ghost var n := imcuRowCtr - 1;
      ShownPostponed(whichptr, n);
      assert Shows(whichptr, sh.m + 1, n * sh.m - 1 - (sh.m + 1));
      MoreGroups(sh, n);
      PostProcess(take, n * sh.m - 1);
      if rowgroupCtr < rowgroupsAvail { return; }
      contextState := PrepareForImcu;
    }

    /** Prepare for the row groups of the iMCU row but the last; at the bottom of the image, for all of them. */
    method Prepare()
      requires Valid() && |delivered| < sh.Groups() && bufferFull && contextState == PrepareForImcu
      modifies this`rowgroupCtr, this`rowgroupsAvail, this`contextState, List(whichptr)
      ensures Valid() && contextState == ProcessImcu
    {
      hide SeenAt, Shape.Slot, FrontShown, Shape.Groups, Shape.Window, Shape.Valid;
      ShapeFacts();
      GroupsAre(sh);
      RowsLeftIs(sh);
      contextState := ProcessImcu;
      rowgroupCtr := 0;
      rowgroupsAvail := sh.m - 1;
      if imcuRowCtr == sh.totalImcuRows {
        FrontIsShown(imcuRowCtr - 1);
        label Full:
        SetBottomPointers();
        BottomIsShown@Full(whichptr);
        BottomIsReady(rowgroupsAvail, (imcuRowCtr - 1) * sh.m);
      }
    }

    /** The row groups that are prepared; after them the other list becomes current. */
    method FeedImcu(take: nat)
      requires Valid() && |delivered| < sh.Groups() && contextState == ProcessImcu
      modifies this, xbuffer0, xbuffer1
      ensures Valid() && old(delivered) <= delivered && (take > 0 ==> |delivered| > |old(delivered)|)
    {
      hide SeenAt, Shape.Slot, FrontShown, Shape.Groups, Shape.Window, Shape.Valid;
      ShapeFacts();
      if imcuRowCtr < sh.totalImcuRows { ShownBeforeLast(); }
      MoreGroups(sh, imcuRowCtr - 1);
      PostProcess(take, |delivered|);
      if rowgroupCtr < rowgroupsAvail { return; }
      ghost var n := imcuRowCtr;
      if n < sh.totalImcuRows { FrontIsKept(whichptr, n - 1); }
      if imcuRowCtr == 1 {
        SetWraparoundPointers();
      }
      whichptr := 1 - whichptr;
      bufferFull := false;
      rowgroupCtr := sh.m + 1;
      rowgroupsAvail := sh.m + 2;
      contextState := PostponedRow;
    }
  }

  lemma SlotWraps(sh: Shape, w: nat, k: int)
    requires 2 * sh.rgroup <= sh.ImcuHeight() && -(sh.rgroup as int) <= k < sh.ImcuHeight() + 2 * sh.rgroup
    ensures 0 <= sh.Slot(w, k) < sh.ImcuHeight() + 2 * sh.rgroup
    ensures k < 0 ==> sh.Slot(w, k) == sh.Slot(w, k + sh.ImcuHeight() + 2 * sh.rgroup)
    ensures w == 0 && k == 0 ==> sh.Slot(w, k) == 0
  {
    hide Shape.ImcuHeight;
  }

  lemma FirstDecoded(sh: Shape)
    requires sh.Valid()
    ensures sh.Decoded(0) == 0
  {
  }

  lemma ShownInImage(sh: Shape, i: nat, r: int)
    requires sh.Valid() && r < sh.height
    ensures sh.Shown(i, r) == if r < 0 then 0 else sh.Decoded(r)
  {
  }

  lemma GroupBelow(left: nat, g: nat, r: nat)
    requires r >= 1 && left >= 1 && g < (left - 1) / r + 1
    ensures g * r < left
  {
    var q := (left - 1) / r;
    assert left - 1 == q * r + (left - 1) % r;
    Times(q, g, r);
  }

  /** The number of row groups, by iMCU rows. */
  lemma GroupsAre(sh: Shape)
    requires sh.Valid()
    ensures sh.ImcuHeight() >= 1
    ensures var rest := sh.height - sh.RowsBefore(sh.totalImcuRows - 1);
            && sh.Groups() == (sh.totalImcuRows - 1) * sh.m + (rest - 1) / sh.rgroup + 1
            && 1 <= (rest - 1) / sh.rgroup + 1 <= sh.m
  {
    var r, c := sh.rgroup, sh.totalImcuRows - 1;
    var rest := sh.height - sh.RowsBefore(c);
    var q := (rest - 1) / r;
    assert rest - 1 == q * r + (rest - 1) % r;
    GroupStart(sh, c, q);
    Quotient(sh.height - 1, c * sh.m + q, r, (rest - 1) % r);
    RowsLeftIs(sh);
    if q >= sh.m { Times(q, sh.m, r); }
  }

  lemma MoreGroups(sh: Shape, n: nat)
    requires sh.Valid() && n < sh.totalImcuRows
    ensures n * sh.m < sh.Groups() && (n + 1 < sh.totalImcuRows ==> (n + 1) * sh.m < sh.Groups())
    ensures (n + 1) * sh.m == n * sh.m + sh.m
  {
    GroupsAre(sh);
    Times(sh.totalImcuRows - 1, n, sh.m);
    Times(n + 1, 1, sh.m);
    if n + 1 < sh.totalImcuRows { Times(sh.totalImcuRows - 1, n + 1, sh.m); }
  }

  /** Where a row group starts. */
  lemma GroupStart(sh: Shape, c: nat, g: nat)
    ensures (c * sh.m + g) * sh.rgroup == sh.RowsBefore(c) + g * sh.rgroup
  {
    assert (c * sh.m) * sh.rgroup == c * (sh.rgroup * sh.m);
  }

  lemma GroupInside(sh: Shape, g: nat)
    requires g < sh.m
    ensures 0 <= g * sh.rgroup <= sh.ImcuHeight() - sh.rgroup
  {
    Times(sh.m - 1, g, sh.rgroup);
    Times(g, 0, sh.rgroup);
    Times(sh.m, 1, sh.rgroup);
  }

  lemma Times(a: int, b: int, n: nat)
    ensures (a - b) * n == a * n - b * n && (a >= b ==> (a - b) * n >= 0) && 1 * n == n && 0 * n == 0
  {
  }

  /** All the rows up to the last iMCU row are in the image. */
  lemma RowsGrow(sh: Shape, c: nat)
    requires sh.Valid() && c < sh.totalImcuRows
    ensures sh.RowsBefore(c + 1) == sh.RowsBefore(c) + sh.ImcuHeight()
    ensures c + 1 < sh.totalImcuRows ==> sh.RowsBefore(c + 1) < sh.height
    ensures sh.RowsBefore(c) < sh.height
  {
    hide Shape.ImcuHeight;
    var n, t := sh.ImcuHeight(), sh.totalImcuRows - 1;
    Times(c + 1, 1, n);
    Times(t, c, n);
    Times(t, c + 1, n);
  }

  lemma RowsLeftIs(sh: Shape)
    requires sh.Valid()
    ensures sh.ImcuHeight() >= 1
    ensures var left := sh.height % sh.ImcuHeight();
            sh.height == sh.RowsBefore(sh.totalImcuRows - 1) + if left == 0 then sh.ImcuHeight() else left
  {
    var n, t := sh.ImcuHeight(), sh.totalImcuRows - 1;
    assert (t + 1) * n == t * n + n;
    assert n > 0;
    var rest := sh.height - t * n;
    if rest == n {
      Quotient(sh.height, t + 1, n, 0);
    } else {
      Quotient(sh.height, t, n, rest);
    }
  }

  // ---------------------------------------------------------------- what the windows are

  /** Every row outside the image is shown as the nearest row inside, with one exception: the last row group but one, if
      it ends an iMCU row and the last row group is not full, is shown what the decoder left behind the bottom. */
  lemma WindowIsClamped(sh: Shape, i: nat)
    requires sh.Valid() && i < sh.Groups()
    ensures sh.Window(i) == sh.Clamped(i)
        <==> !((i + 1) % sh.m == 0 && i + 2 == sh.Groups() && sh.height % sh.rgroup != 0)
  {
    hide Shape.Valid;
    var r, h, from := sh.rgroup, sh.height, i * sh.rgroup - sh.rgroup;
    GroupsCover(sh, i);
    if (i + 1) % sh.m == 0 && i + 2 == sh.Groups() && h % r != 0 {
      assert from + (3 * r - 1) >= h && sh.Shown(i, from + (3 * r - 1)) == PADDING;
      assert sh.Window(i)[3 * r - 1] == PADDING && sh.Clamped(i)[3 * r - 1] == h - 1;
    } else {
      forall j | 0 <= j < 3 * r ensures sh.Window(i)[j] == sh.Clamped(i)[j] {
        var row := from + j;
        assert sh.Window(i)[j] == sh.Shown(i, row);
        assert sh.Clamped(i)[j] == if row < 0 then 0 else if row < h then row else h - 1;
        assert row >= h ==> sh.Shown(i, row) == h - 1;
      }
    }
  }

  /** The exception occurs: five rows in row groups of two, two row groups to an iMCU row. Row 5 is wanted below row
      group 1, and the padding of the last row group is shown in place of row 4. It takes row groups of at least two rows, as
      for a component with a vertical factor of 2 under a maximum of 4. */
  lemma LastWindowShowsPadding()
    ensures var sh := Shape(2, 2, 5, 2);
            && sh.Valid() && sh.Groups() == 3
            && sh.Window(1)[5] == PADDING && sh.Clamped(1)[5] == 4 && sh.Window(1) != sh.Clamped(1)
  {
    var sh := Shape(2, 2, 5, 2);
    assert sh.ImcuHeight() == 4 && sh.RowsBefore(1) == 4 && sh.RowsBefore(2) == 8;
    assert sh.Window(1)[5] == sh.Shown(1, 5) == PADDING;
  }

  /** With one row to a row group it never does. */
  lemma SingleRowsAreClamped(sh: Shape, i: nat)
    requires sh.Valid() && i < sh.Groups() && sh.rgroup == 1
    ensures sh.Window(i) == sh.Clamped(i)
  {
    hide Shape.Valid;
    WindowIsClamped(sh, i);
  }

  /** How far the window of row group `i` reaches. */
  lemma GroupsCover(sh: Shape, i: nat)
    requires sh.Valid() && i < sh.Groups()
    ensures sh.rgroup >= 1 && sh.height >= 1 && sh.m >= 2
    ensures i + 2 < sh.Groups() ==> i * sh.rgroup + 2 * sh.rgroup < sh.height
    ensures i + 2 == sh.Groups() ==>
              (sh.height < i * sh.rgroup + 2 * sh.rgroup <==> sh.height % sh.rgroup != 0)
              && sh.height <= i * sh.rgroup + 2 * sh.rgroup
  {
    hide Shape.ImcuHeight;
    var r, h := sh.rgroup, sh.height;
    var q := (h - 1) / r;
    assert h - 1 == q * r + (h - 1) % r;
    Times(q, 0, r);
    Distributes(i, 2, r);
    PartialGroup(h, r);
    if i + 2 < sh.Groups() { Grows(i + 2, q, r); }
    if i + 2 == sh.Groups() { Distributes(i + 1, 1, r); }
  }

  lemma PartialGroup(h: nat, r: nat)
    requires h >= 1 && r >= 1
    ensures h % r == 0 <==> (h - 1) % r == r - 1
  {
    var q, m := (h - 1) / r, (h - 1) % r;
    assert h - 1 == q * r + m;
    if m == r - 1 {
      Times(q + 1, 1, r);
      Quotient(h, q + 1, r, 0);
    } else {
      Quotient(h, q, r, m + 1);
    }
  }

  /** The dimensions that the decompressor computes fit together, and all components have the same number of row groups.
      `unit` is max_v_samp_factor * block_size. */
  lemma ShapesAgree(imageHeight: nat, unit: nat, rgroup: nat, m: nat)
    requires imageHeight >= 1 && unit >= 1 && rgroup >= 1 && m >= 2
    ensures var sh := Shape(rgroup, m, DivRoundUp(imageHeight * (rgroup * m), unit), DivRoundUp(imageHeight, unit));
            sh.Valid() && sh.Groups() == DivRoundUp(imageHeight * m, unit)
  {
    hide DivRoundUp;
    var n := rgroup * m;
    var height, total := DivRoundUp(imageHeight * n, unit), DivRoundUp(imageHeight, unit);
    var sh := Shape(rgroup, m, height, total);
    Grows(1, rgroup, m);
    McusOfBlocks(imageHeight, n, unit);
    RoundUpCovers(height, n);
    RoundUpCovers(imageHeight, unit);
    Times(total, 1, n);
    Associates(imageHeight, m, rgroup);
    SameProduct(imageHeight, rgroup, m);
    McusOfBlocks(imageHeight * m, rgroup, unit);
    Grows(1, total, n);
    GroupsRoundUp(sh);
  }

  lemma SameProduct(a: int, b: int, c: int)
    ensures a * (b * c) == (a * c) * b
  {
  }

  lemma GroupsRoundUp(sh: Shape)
    requires sh.Valid()
    ensures sh.Groups() == DivRoundUp(sh.height, sh.rgroup)
  {
    hide Shape.ImcuHeight;
    var r, h := sh.rgroup, sh.height;
    var q := (h - 1) / r;
    assert h - 1 == q * r + (h - 1) % r;
    Distributes(q, 1, r);
    Quotient(h + r - 1, q + 1, r, (h - 1) % r);
  }
}
