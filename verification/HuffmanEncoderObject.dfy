/** The Huffman entropy encoder object (jchuff.c): the loops that turn blocks into symbols and bits. The same routines
    run in two modes: output, and gathering of statistics, where symbols are only counted. */
module HuffmanEncoderObject {
  import opened EstimationTable
  import opened Arithmetic
  import opened PointTransform
  import opened HuffmanCode
  import opened HuffmanTables
  import opened BitWriting
  import opened HuffmanItems
  import opened HuffmanEobRuns
  import opened GenOptimalTable
  import opened Seqs
  import opened Bytes
  import opened Markers
  import opened HuffmanSegments
  import OptimalTable
  import Sequential = HuffmanSequential
  import First = HuffmanFirst

  // ---------------------------------------------------------------- counting symbols

  function CountOf(items: seq<Item>, tbl: nat, sym: nat): nat {
    if items == [] then 0 else (if items[0] == Sym(tbl, sym) then 1 else 0) + CountOf(items[1..], tbl, sym)
  }

  lemma {:induction false} CountOfSum(a: seq<Item>, b: seq<Item>, tbl: nat, sym: nat)
    ensures CountOf(a + b, tbl, sym) == CountOf(a, tbl, sym) + CountOf(b, tbl, sym)
    decreases |a|
  {
    if a == [] {
      assert a + b == b;
    } else {
      assert (a + b)[1..] == a[1..] + b;
      CountOfSum(a[1..], b, tbl, sym);
    }
  }

  lemma {:induction false} CountedWhereSent(items: seq<Item>, i: nat)
    requires i < |items| && items[i].Sym?
    ensures CountOf(items, items[i].tbl, items[i].sym) > 0
    decreases i
  {
    if i > 0 { CountedWhereSent(items[1..], i - 1); }
  }

  /** The counts of a table after these items. */
  function Tally(items: seq<Item>, tbl: nat): (r: seq<nat>)
    ensures |r| == OptimalTable.NUM_SYMBOLS
  {
    seq(OptimalTable.NUM_SYMBOLS, sym requires 0 <= sym < OptimalTable.NUM_SYMBOLS => CountOf(items, tbl, sym))
  }

  /** Tables made from the counts of a gathering pass have a code for everything that the output pass will send. */
  lemma GatheredTablesSuffice(tables: seq<HuffTable>, items: seq<Item>)
    requires forall i :: 0 <= i < |items| && items[i].Sym? ==> items[i].tbl < |tables| && items[i].sym < OptimalTable.PSEUDO
    requires forall i :: 0 <= i < |items| && items[i].Sym? ==> TableFor(Tally(items, items[i].tbl), tables[items[i].tbl])
    ensures Sendable(tables, items)
  {
    hide EncoderAccepts, NumSymbols;
    forall i | 0 <= i < |items| ensures ItemSendable(tables, items[i]) {
      if items[i].Sym? {
        CountedWhereSent(items, i);
        assert TableFor(Tally(items, items[i].tbl), tables[items[i].tbl]);
      }
    }
  }

  predicate AllSendable(tables: seq<HuffTable>, segments: seq<seq<Item>>) {
    forall i :: 0 <= i < |segments| ==> Sendable(tables, segments[i])
  }

  function AllBits(tables: seq<HuffTable>, segments: seq<seq<Item>>): (r: seq<seq<bool>>)
    requires AllSendable(tables, segments)
    ensures |r| == |segments|
  {
    seq(|segments|, i requires 0 <= i < |segments| => Bits(tables, segments[i]))
  }

  lemma {:induction false} FlatSendable(tables: seq<HuffTable>, segments: seq<seq<Item>>)
    requires Sendable(tables, Flat(segments))
    ensures AllSendable(tables, segments)
    decreases |segments|
  {
    hide Sendable;
    if segments != [] {
      SendableConcat(tables, segments[0], Flat(segments[1..]));
      FlatSendable(tables, segments[1..]);
      assert forall i :: 0 < i < |segments| ==> segments[i] == segments[1..][i - 1];
    }
  }

  /** A table with what was derived from it for encoding. */
  datatype EncTable = EncTable(pub: HuffTable, ehufco: seq<nat>, ehufsi: seq<nat>)

  ghost predicate IsEncTable(e: EncTable) {
    IsTable(e.pub) && EncoderAccepts(e.pub, false) && EncoderTable(e.pub, e.ehufco, e.ehufsi)
  }

  class HuffmanEncoder {
    const gatherStatistics: bool
    const derived: seq<EncTable>
    const counts: array2<nat>
    const writer: BitWriter

    /** What has been sent or counted in the segments that are complete, and since then. */
    ghost var segments: seq<seq<Item>>
    ghost var items: seq<Item>
    ghost const start: seq<byte>

    /** Everything that has been sent or counted since the object was made. */
    ghost function Log(): seq<Item>
      reads this
    {
      Flat(segments) + items
    }

    /** Only the current segment has grown. */
    twostate predicate Kept()
      reads this, writer
    {
      writer.written == old(writer.written) && segments == old(segments)
    }

    ghost function Tables(): (r: seq<HuffTable>)
      ensures |r| == |derived|
    {
      seq(|derived|, i requires 0 <= i < |derived| => derived[i].pub)
    }

    ghost predicate Counted()
      reads this, counts
    {
      forall tbl, sym :: 0 <= tbl < counts.Length0 && 0 <= sym < counts.Length1 ==>
        counts[tbl, sym] == CountOf(Log(), tbl, sym)
    }

    ghost predicate Written()
      reads this, writer
    {
      && writer.Valid() && Sendable(Tables(), items) && writer.sent == Bits(Tables(), items)
      && AllSendable(Tables(), segments) && writer.written == start + ClosedBytes(AllBits(Tables(), segments), 0)
    }

    ghost predicate Valid()
      reads this, counts, writer
    {
      && counts.Length1 == OptimalTable.NUM_SYMBOLS && counts.Length0 == |derived|
      && (if gatherStatistics then Counted() else Written() && forall i :: 0 <= i < |derived| ==> IsEncTable(derived[i]))
    }

    constructor (gather: bool, derived: seq<EncTable>, destination: seq<byte>)
      requires !gather ==> forall i :: 0 <= i < |derived| ==> IsEncTable(derived[i])
      ensures gatherStatistics == gather && this.derived == derived && fresh(counts) && fresh(writer)
      ensures Valid() && items == [] && segments == [] && writer.written == writer.output == start == destination
    {
      gatherStatistics, this.derived, items, segments, start := gather, derived, [], [], destination;
      counts := new nat[|derived|, OptimalTable.NUM_SYMBOLS]((i, j) => 0);
      writer := new BitWriter(destination);
    }

    /** Count a symbol, or emit its code; false if it has none. */
    method EmitSymbol(tbl: nat, sym: nat) returns (ok: bool)
      requires Valid() && tbl < |derived| && sym < 256
      modifies this, counts, writer
      ensures Valid() && Kept()
      ensures ok <==> gatherStatistics || Sends(derived[tbl].pub, sym)
      ensures items == if ok then old(items) + [Sym(tbl, sym)] else old(items)
    {
      hide Sends, IsTable, EncoderAccepts, BitsOf, Bits, AllSendable, AllBits, ClosedBytes, Counted, Sendable, IsEncTable;
      if gatherStatistics {
        CountSymbol(tbl, sym);
        return true;
      }
      var e := derived[tbl];
      ok := SendSymbol(e, sym);
      if ok {
        OneItemMore(Tables(), items, Sym(tbl, sym));
        items := items + [Sym(tbl, sym)];
      }
    }

    method SendSymbol(e: EncTable, sym: nat) returns (ok: bool)
      requires writer.Valid() && IsEncTable(e) && sym < 256
      modifies writer
      ensures writer.Valid() && writer.written == old(writer.written)
      ensures ok <==> Sends(e.pub, sym)
      ensures Sends(e.pub, sym) ==> writer.sent == old(writer.sent) + SymbolWord(e.pub, sym)
      ensures !ok ==> writer.sent == old(writer.sent)
    {
      hide Sends, IsTable, EncoderAccepts, BitsOf, SymbolWord;
      TableHoldsWords(e.pub, e.ehufco, e.ehufsi, sym);
      TableSizes(e);
      ok := writer.EmitBits(e.ehufco[sym], e.ehufsi[sym]);
    }

    method CountSymbol(tbl: nat, sym: nat)
      requires Valid() && gatherStatistics && tbl < |derived| && sym < 256
      modifies this, counts
      ensures Valid() && Kept() && items == old(items) + [Sym(tbl, sym)]
    {
      hide CountOf;
      forall t, s | 0 <= t < counts.Length0 && 0 <= s < counts.Length1
        ensures CountOf(Flat(segments) + (items + [Sym(tbl, sym)]), t, s) == CountOf(Log(), t, s) + if t == tbl && s == sym then 1 else 0
      {
        Assoc(Flat(segments), items, [Sym(tbl, sym)]);
        CountOfSum(Log(), [Sym(tbl, sym)], t, s);
        OneCounted(Sym(tbl, sym), t, s);
      }
      counts[tbl, sym] := counts[tbl, sym] + 1;
      items := items + [Sym(tbl, sym)];
    }

    static lemma TableSizes(e: EncTable)
      requires IsEncTable(e)
      ensures |e.ehufco| == |e.ehufsi| == 256
      ensures forall sym :: 0 <= sym < 256 ==> e.ehufsi[sym] <= 16
    {
      forall sym | 0 <= sym < 256 ensures e.ehufsi[sym] <= 16 {
        TableHoldsWords(e.pub, e.ehufco, e.ehufsi, sym);
      }
    }

    static lemma OneCounted(item: Item, tbl: nat, sym: nat)
      ensures CountOf([item], tbl, sym) == if item == Sym(tbl, sym) then 1 else 0
    {
      assert [item][1..] == [];
    }

    static lemma OneItemMore(tables: seq<HuffTable>, items: seq<Item>, item: Item)
      requires Sendable(tables, items) && ItemSendable(tables, item)
      ensures Sendable(tables, items + [item]) && Bits(tables, items + [item]) == Bits(tables, items) + ItemBits(tables, item)
    {
      hide ItemBits, ItemSendable, Bits;
      BitsOfOne(tables, item);
      BitsConcat(tables, items, [item]);
    }

    /** Emit bits as they are; in gathering mode there is nothing to do. */
    method EmitRaw(code: nat, size: nat)
      requires Valid() && 1 <= size <= 16
      modifies this, writer
      ensures Valid() && Kept() && items == old(items) + [Raw(code, size)]
    {
      hide BitsOf, Bits, Sends, IsEncTable;
      if gatherStatistics {
        forall t, s | 0 <= t < counts.Length0 && 0 <= s < counts.Length1
          ensures CountOf(Flat(segments) + (items + [Raw(code, size)]), t, s) == CountOf(Log(), t, s)
        {
          Assoc(Flat(segments), items, [Raw(code, size)]);
          CountOfSum(Log(), [Raw(code, size)], t, s);
          OneCounted(Raw(code, size), t, s);
        }
      } else {
        var ok := writer.EmitBits(code, size);
        OneItemMore(Tables(), items, Raw(code, size));
      }
      items := items + [Raw(code, size)];
    }

    /** Bits that a gathering routine does not even compute. */
    ghost method SkipRaw(code: nat, size: nat)
      requires Valid() && gatherStatistics
      modifies this
      ensures Valid() && Kept() && items == old(items) + [Raw(code, size)]
    {
      forall t, s | 0 <= t < counts.Length0 && 0 <= s < counts.Length1
        ensures CountOf(Flat(segments) + (items + [Raw(code, size)]), t, s) == CountOf(Log(), t, s)
      {
        Assoc(Flat(segments), items, [Raw(code, size)]);
        CountOfSum(Log(), [Raw(code, size)], t, s);
        OneCounted(Raw(code, size), t, s);
      }
      items := items + [Raw(code, size)];
    }

    /** Number of bits needed for a magnitude. */
    method CountBits(v: nat) returns (nbits: nat)
      ensures nbits == NumBits(v)
    {
      nbits := 0;
      var temp := v;
      while temp != 0
        invariant nbits + NumBits(temp) == NumBits(v)
        decreases temp
      {
        nbits := nbits + 1;
        temp := temp / 2;
      }
    }

    // -------------------------------------------------------------- segments

    /** A segment is complete: in output mode everything sent since its start is padded, packed and stuffed. */
    method FinishSegment()
      requires Valid()
      modifies this, writer
      ensures segments == old(segments) + [old(items)] && items == [] && Log() == old(Log())
      ensures gatherStatistics ==> Valid()
      ensures !gatherStatistics ==>
                && Sendable(Tables(), old(items)) && AllSendable(Tables(), segments) && Sendable(Tables(), [])
                && writer.Valid() && writer.sent == [] && writer.written == writer.output
                && writer.output == old(writer.written) + SegmentBytes(Bits(Tables(), old(items)))
                && old(writer.written) == start + ClosedBytes(AllBits(Tables(), old(segments)), 0)
    {
      hide Bits, Stuff, SegmentBytes, Padded, Sendable, ClosedBytes, IsEncTable;
      FlatSnoc(segments, items);
      assert (Flat(segments) + items) + [] == Flat(segments) + items;
      if !gatherStatistics {
        ghost var bits := Bits(Tables(), items);
        writer.FlushBits();
        ghost var bytes :| BitsOfBytes(bytes) == Padded(bits) && writer.output == old(writer.written) + Stuff(bytes);
        BytesOfSegment(bytes, bits);
        NothingSent(Tables());
      }
      segments := segments + [items];
      items := [];
    }

    static lemma NothingSent(tables: seq<HuffTable>)
      ensures Sendable(tables, []) && Bits(tables, []) == []
    {
    }

    /** The end of a restart interval: in output mode a marker follows. */
    method EmitRestart(restartNum: nat)
      requires Valid() && restartNum < 8
      requires !gatherStatistics ==> restartNum == NextRestart(0, |segments|)
      modifies this, writer
      ensures Valid() && segments == old(segments) + [old(items)] && items == [] && Log() == old(Log())
    {
      hide Bits, SegmentBytes, Sendable, ClosedBytes, IsEncTable, NextRestart;
      FinishSegment();
      if !gatherStatistics {
        NothingSent(Tables());
        writer.EmitMarker(RST0 + restartNum);
        ghost var before := AllBits(Tables(), old(segments));
        OneMoreClosed(before, Bits(Tables(), old(items)), 0);
        assert AllBits(Tables(), segments) == before + [Bits(Tables(), old(items))];
        Assoc(start, ClosedBytes(before, 0), SegmentBytes(Bits(Tables(), old(items))) + [0xFF, RST0 + restartNum]);
        Assoc(old(writer.written), SegmentBytes(Bits(Tables(), old(items))), [0xFF, RST0 + restartNum]);
      }
    }

    /** The end of the scan, in output mode. */
    method FinishScan()
      requires Valid() && !gatherStatistics
      modifies this, writer
      ensures segments == old(segments) + [old(items)] && Log() == old(Log()) && AllSendable(Tables(), segments)
      ensures writer.output == start + ScanBytes(AllBits(Tables(), segments), 0)
    {
      hide Bits, SegmentBytes, Sendable, ClosedBytes, IsEncTable, ScanBytes;
      FinishSegment();
      ghost var before := AllBits(Tables(), old(segments));
      LastSegment(before, Bits(Tables(), old(items)), 0);
      assert AllBits(Tables(), segments) == before + [Bits(Tables(), old(items))];
      Assoc(start, ClosedBytes(before, 0), SegmentBytes(Bits(Tables(), old(items))));
    }
  }
}
