/** What the Huffman encoder sends: symbols, for which a table has code words, and bits as they are. What the decoder
    does with the bits: take a symbol, take a number of bits. */
module HuffmanItems {
  import opened Arithmetic
  import opened HuffmanCode
  import opened HuffmanTables
  import opened BitWriting
  import opened PointTransform
  import opened Seqs

  /** Sixteen zeros in a row. */
  const ZRL := 0xF0

  /** The size of a coefficient that the encoder does not refuse. */
  const MAX_COEF_BITS := 10

  /** A symbol of one of the tables, or the low `size` bits of a number. */
  datatype Item = Sym(tbl: nat, sym: nat) | Raw(code: nat, size: nat)

  /** The symbol's place in the table, as an index into the list of symbols. */
  function Find(t: HuffTable, sym: nat, n: nat): (p: nat)
    requires IsTable(t) && n <= 256 && HasSymbol(t, sym, n)
    ensures p < n && t.huffval[p] == sym
  {
    if t.huffval[n - 1] == sym then n - 1 else Find(t, sym, n - 1)
  }

  /** The table is one that the encoder takes, and has a code for the symbol. */
  predicate Sends(t: HuffTable, sym: nat) {
    IsTable(t) && EncoderAccepts(t, false) && HasSymbol(t, sym, NumSymbols(t))
  }

  function SymbolWord(t: HuffTable, sym: nat): seq<bool>
    requires Sends(t, sym)
  {
    Word(t.bits, Find(t, sym, NumSymbols(t)))
  }

  /** The encoder's table holds exactly these words. */
  lemma TableHoldsWords(t: HuffTable, ehufco: seq<nat>, ehufsi: seq<nat>, sym: nat)
    requires IsTable(t) && EncoderAccepts(t, false) && EncoderTable(t, ehufco, ehufsi) && sym < 256
    ensures ehufsi[sym] != 0 <==> Sends(t, sym)
    ensures ehufsi[sym] != 0 ==> ehufsi[sym] <= 16 && BitsOf(ehufco[sym], ehufsi[sym]) == SymbolWord(t, sym)
  {
    hide Length, Code, Count;
    if Sends(t, sym) {
      var p := Find(t, sym, NumSymbols(t));
      assert ehufsi[t.huffval[p]] == Length(t.bits, p);
    }
  }

  predicate ItemSendable(tables: seq<HuffTable>, item: Item) {
    item.Sym? ==> item.tbl < |tables| && Sends(tables[item.tbl], item.sym)
  }

  /** Every symbol item has a code in its table. */
  predicate Sendable(tables: seq<HuffTable>, items: seq<Item>) {
    forall i :: 0 <= i < |items| ==> ItemSendable(tables, items[i])
  }

  function ItemBits(tables: seq<HuffTable>, item: Item): seq<bool>
    requires ItemSendable(tables, item)
  {
    match item
    case Sym(tbl, sym) => SymbolWord(tables[tbl], sym)
    case Raw(code, size) => BitsOf(code, size)
  }

  function Bits(tables: seq<HuffTable>, items: seq<Item>): seq<bool>
    requires Sendable(tables, items)
    decreases |items|
  {
    if items == [] then [] else ItemBits(tables, items[0]) + Bits(tables, items[1..])
  }

  lemma {:induction false} BitsConcat(tables: seq<HuffTable>, a: seq<Item>, b: seq<Item>)
    requires Sendable(tables, a) && Sendable(tables, b)
    ensures Sendable(tables, a + b) && Bits(tables, a + b) == Bits(tables, a) + Bits(tables, b)
    decreases |a|
  {
    hide ItemBits, ItemSendable;
    if a == [] {
      assert a + b == b;
    } else {
      assert (a + b)[1..] == a[1..] + b;
      BitsConcat(tables, a[1..], b);
      Assoc(ItemBits(tables, a[0]), Bits(tables, a[1..]), Bits(tables, b));
    }
  }

  lemma SendableConcat(tables: seq<HuffTable>, a: seq<Item>, b: seq<Item>)
    ensures Sendable(tables, a + b) <==> Sendable(tables, a) && Sendable(tables, b)
  {
    hide ItemSendable;
    assert forall i :: 0 <= i < |b| ==> (a + b)[|a| + i] == b[i];
    assert forall i :: 0 <= i < |a| ==> (a + b)[i] == a[i];
  }

  lemma BitsOfOne(tables: seq<HuffTable>, item: Item)
    requires ItemSendable(tables, item)
    ensures Sendable(tables, [item]) && Bits(tables, [item]) == ItemBits(tables, item)
  {
    hide ItemBits, ItemSendable;
    assert ItemBits(tables, item) + [] == ItemBits(tables, item);
  }

  lemma BitsNext(tables: seq<HuffTable>, item: Item, more: seq<Item>)
    requires ItemSendable(tables, item) && Sendable(tables, more)
    ensures Sendable(tables, [item] + more)
    ensures Bits(tables, [item] + more) == ItemBits(tables, item) + Bits(tables, more)
  {
    hide ItemBits, ItemSendable;
    var all := [item] + more;
    assert all[0] == item && all[1..] == more;
  }

  // ---------------------------------------------------------------- reading

  /** Suspend: the bits at hand do not suffice. */
  datatype BitRead<+T> = Suspend | Done(rest: seq<bool>, v: T)
  {
    predicate IsFailure() { Suspend? }

    function PropagateFailure<U>(): BitRead<U>
      requires IsFailure()
    {
      Suspend
    }

    function Extract(): (seq<bool>, T)
      requires !IsFailure()
    {
      (rest, v)
    }
  }

  /** A table that the decoder takes. */
  predicate Reads(t: HuffTable) { IsTable(t) && Legal(t.bits) }

  function ReadSymbol(t: HuffTable, s: seq<bool>): (x: BitRead<nat>)
    requires Reads(t)
    ensures x.Done? ==> x.v <= 255 && |x.rest| < |s|
  {
    match SymbolAt(t, s)
    case TooShort => Suspend
    case Symbol(sym, length) => Done(s[length..], sym)
  }

  function ReadBits(n: nat, s: seq<bool>): (x: BitRead<nat>)
    ensures x.Done? ==> |x.rest| + n == |s| && x.v < Pow2(n)
  {
    if |s| < n then Suspend else Done(s[n..], ValueOf(s[..n]))
  }

  lemma SymbolReads(t: HuffTable, sym: nat, rest: seq<bool>)
    requires Sends(t, sym)
    ensures Reads(t) && ReadSymbol(t, SymbolWord(t, sym) + rest) == Done(rest, sym)
  {
    hide Word, Length, MatchWord, Count;
    var p := Find(t, sym, NumSymbols(t));
    var w := SymbolWord(t, sym);
    WordIsFound(t.bits, p, rest);
    assert (w + rest)[|w|..] == rest;
  }

  lemma BitsRead(code: nat, size: nat, rest: seq<bool>)
    ensures ReadBits(size, BitsOf(code, size) + rest) == Done(rest, Low(code, size))
  {
    hide BitsOf, ValueOf, Low;
    var w := BitsOf(code, size);
    LowIsValue(code, size);
    assert (w + rest)[size..] == rest && (w + rest)[..size] == w;
  }

  // ---------------------------------------------------------------- bits that arrive later

  lemma BitsWithMore(n: nat, s: seq<bool>, more: seq<bool>)
    ensures var x := ReadBits(n, s); x.Done? ==> ReadBits(n, s + more) == Done(x.rest + more, x.v)
  {
    if n <= |s| {
      assert (s + more)[..n] == s[..n] && (s + more)[n..] == s[n..] + more;
    }
  }

  lemma SymbolWithMore(t: HuffTable, s: seq<bool>, more: seq<bool>)
    requires Reads(t)
    ensures var x := ReadSymbol(t, s); x.Done? ==> ReadSymbol(t, s + more) == Done(x.rest + more, x.v)
  {
    hide MatchFrom, Legal;
    if s != [] {
      assert (s + more)[..|s|] == s;
      LongerMatch(t.bits, s + more, |s|, 1, if s[0] then 1 else 0);
      var x := SymbolAt(t, s);
      if x.Symbol? { assert (s + more)[x.length..] == s[x.length..] + more; }
    }
  }

  // ---------------------------------------------------------------- magnitudes

  /** How many bits a magnitude takes. */
  function NumBits(v: nat): (n: nat)
    ensures n == 0 <==> v == 0
    decreases v
  {
    if v == 0 then 0 else 1 + NumBits(v / 2)
  }

  lemma {:induction false} NumBitsFacts(v: nat)
    ensures v < Pow2(NumBits(v))
    ensures v > 0 ==> NumBits(v) >= 1 && Pow2(NumBits(v) - 1) <= v
    decreases v
  {
    if v != 0 { NumBitsFacts(v / 2); }
  }

  lemma {:induction false} NumBitsBound(v: nat, n: nat)
    ensures NumBits(v) <= n <==> v < Pow2(n)
    decreases n
  {
    if v != 0 && n > 0 { NumBitsBound(v / 2, n - 1); }
  }

  /** The value itself if positive, the complement of its magnitude if negative. */
  function ValueBits(v: int, n: nat): (c: nat)
    requires Abs(v) < Pow2(n)
    ensures c < Pow2(n)
  {
    if v < 0 then v + Pow2(n) - 1 else v
  }

  /** HUFF_EXTEND. */
  function Extend(x: nat, n: nat): int
    requires 1 <= n
  {
    if x < Pow2(n - 1) then x - (Pow2(n) - 1) else x
  }

  lemma ExtendInverts(v: int)
    requires v != 0
    ensures var n := NumBits(Abs(v)); n >= 1 && Abs(v) < Pow2(n) && Extend(ValueBits(v, n), n) == v
  {
    NumBitsFacts(Abs(v));
    hide NumBits;
  }

  lemma {:induction false} LowIsSame(v: nat, n: nat)
    requires v < Pow2(n)
    ensures Low(v, n) == v
    decreases n
  {
    if n > 0 { LowIsSame(v / 2, n - 1); }
  }

  /** The bits of a nonzero value. */
  function ValueItem(v: int): Item {
    var n := NumBits(Abs(v));
    NumBitsFacts(Abs(v));
    Raw(ValueBits(v, n), n)
  }

  /** The bits of a value, its size known, are read and extended to the value. */
  function ReadValue(n: nat, s: seq<bool>): BitRead<int> {
    if n == 0 then Done(s, 0)
    else
      var (s1, x) :- ReadBits(n, s);
      Done(s1, Extend(x, n))
  }

  lemma ValueReads(v: int, rest: seq<bool>)
    requires v != 0
    ensures var i := ValueItem(v);
            ReadValue(i.size, BitsOf(i.code, i.size) + rest) == Done(rest, v)
  {
    hide NumBits, BitsOf, Low, ReadBits, Pow2;
    ExtendInverts(v);
    var i := ValueItem(v);
    BitsRead(i.code, i.size, rest);
    LowIsSame(i.code, i.size);
  }

  lemma DigitsOf(sym: nat, r: nat, n: nat)
    requires sym == 16 * r + n && n <= 15
    ensures sym / 16 == r && sym % 16 == n
  {
  }

  lemma ValueSize(v: int)
    requires v != 0
    ensures 1 <= ValueItem(v).size == NumBits(Abs(v))
  {
    NumBitsFacts(Abs(v));
  }

  /** A symbol with a value behind it. */
  lemma SymbolThenValue(tables: seq<HuffTable>, tbl: nat, sym: nat, v: int, rest: seq<bool>)
    requires v != 0 && Sendable(tables, [Sym(tbl, sym)] + [ValueItem(v)])
    ensures tbl < |tables| && Reads(tables[tbl])
    ensures var x := ReadSymbol(tables[tbl], Bits(tables, [Sym(tbl, sym)] + [ValueItem(v)]) + rest);
            x.Done? && x.v == sym && ReadValue(ValueItem(v).size, x.rest) == Done(rest, v)
  {
    hide ReadSymbol, ReadValue, BitsOf, SymbolWord, Sends, NumBits, Reads, Bits, Pow2;
    var item, value := Sym(tbl, sym), ValueItem(v);
    assert ItemSendable(tables, ([item] + [value])[0]);
    BitsOfOne(tables, value);
    BitsNext(tables, item, [value]);
    var w := ItemBits(tables, value);
    Assoc(SymbolWord(tables[tbl], sym), w, rest);
    SymbolReads(tables[tbl], sym, w + rest);
    ValueReads(v, rest);
  }

  lemma ValueWithMore(n: nat, s: seq<bool>, more: seq<bool>)
    ensures var x := ReadValue(n, s); x.Done? ==> ReadValue(n, s + more) == Done(x.rest + more, x.v)
  {
    hide ReadBits, Pow2;
    BitsWithMore(n, s, more);
  }
}
