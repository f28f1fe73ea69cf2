/** The tables derived from a Huffman table specification (jpeg_make_c_derived_tbl in jchuff.c and
    jpeg_make_d_derived_tbl in jdhuff.c): filled by loops, and proved to be the canonical code and its inverse. */
module HuffmanTables {
  import opened Arithmetic
  import opened HuffmanCode

  /** Numbers of codes by length, and the symbols in order of code length. */
  datatype HuffTable = HuffTable(bits: seq<nat>, huffval: seq<nat>)

  /** Every field is a byte. */
  predicate IsTable(t: HuffTable) {
    IsLengths(t.bits) && |t.huffval| == 256 && forall p :: 0 <= p < 256 ==> t.huffval[p] <= 255
  }

  function NumSymbols(t: HuffTable): nat
    requires IsTable(t)
  {
    Count(t.bits, 16)
  }

  /** DC symbols are numbers of bits. */
  function MaxSymbol(isDc: bool): nat { if isDc then 15 else 255 }

  /** What the encoder accepts: a legal code, and no symbol twice. */
  predicate EncoderAccepts(t: HuffTable, isDc: bool)
    requires IsTable(t)
  {
    && Legal(t.bits)
    && (forall p :: 0 <= p < NumSymbols(t) ==> t.huffval[p] <= MaxSymbol(isDc))
    && (forall p, q :: 0 <= p < q < NumSymbols(t) ==> t.huffval[p] != t.huffval[q])
  }

  /** What the decoder accepts: it does not mind a symbol with two codes. */
  predicate DecoderAccepts(t: HuffTable, isDc: bool)
    requires IsTable(t)
  {
    Legal(t.bits) && (isDc ==> forall p :: 0 <= p < NumSymbols(t) ==> t.huffval[p] <= 15)
  }

  // ---------------------------------------------------------------- figure C.1: code sizes

  lemma LengthIs(bits: seq<nat>, p: nat, l: nat)
    requires |bits| == 17 && 1 <= l <= 16 && Count(bits, l - 1) <= p < Count(bits, l)
    ensures p < Count(bits, 16) && Length(bits, p) == l
  {
    CountGrows(bits, l, 16);
    var m := Length(bits, p);
    if m < l { CountGrows(bits, m, l - 1); }
    if l < m { CountGrows(bits, l, m - 1); }
  }

  /** The first `p` entries are the lengths of the first `p` codes. */
  ghost predicate SizesTo(bits: seq<nat>, sizes: seq<nat>, p: nat)
    requires |bits| == 17
  {
    |sizes| == 257 && p <= 257 && p <= Count(bits, 16) && forall q :: 0 <= q < p ==> sizes[q] == Length(bits, q)
  }

  lemma SizesNext(bits: seq<nat>, sizes: seq<nat>, p: nat, l: nat)
    requires |bits| == 17 && SizesTo(bits, sizes, p) && p <= 255 && 1 <= l <= 16 && Count(bits, l - 1) <= p < Count(bits, l)
    ensures SizesTo(bits, sizes[p := l], p + 1)
  {
    LengthIs(bits, p, l);
    hide Length, Count;
  }

  method CodeSizes(bits: seq<nat>) returns (ok: bool, huffsize: array<nat>, lastp: nat)
    requires IsLengths(bits)
    ensures fresh(huffsize) && huffsize.Length == 257
    ensures ok <==> Count(bits, 16) <= 256
    ensures ok ==> lastp == Count(bits, 16) && huffsize[lastp] == 0
    ensures ok ==> forall p :: 0 <= p < lastp ==> huffsize[p] == Length(bits, p)
  {
    hide Length, SizesTo;
    huffsize := new nat[257](_ => 0);
    NoSizes(bits, huffsize[..]);
    var p := 0;
    lastp := 0;
    for l := 1 to 17
      invariant p == Count(bits, l - 1) <= 256 && SizesTo(bits, huffsize[..], p)
    {
      var i := bits[l];
      if p + i > 256 {
        CountGrows(bits, l, 16);
        ok := false;
        return;
      }
      while i > 0
        invariant 0 <= i <= bits[l] && p + i == Count(bits, l) && SizesTo(bits, huffsize[..], p)
      {
        SizesNext(bits, huffsize[..], p, l);
        ghost var before := huffsize[..];
        huffsize[p] := l;
        assert huffsize[..] == before[p := l];
        p := p + 1;
        i := i - 1;
      }
    }
    ghost var sizes := huffsize[..];
    huffsize[p] := 0;
    SizesMean(bits, sizes, p);
    lastp := p;
    ok := true;
  }

  lemma NoSizes(bits: seq<nat>, sizes: seq<nat>)
    requires |bits| == 17 && |sizes| == 257
    ensures SizesTo(bits, sizes, 0)
  {
  }

  lemma SizesMean(bits: seq<nat>, sizes: seq<nat>, p: nat)
    requires |bits| == 17 && SizesTo(bits, sizes, p)
    ensures p <= 257 && p <= Count(bits, 16) && forall q :: 0 <= q < p ==> sizes[q] == Length(bits, q)
  {
  }

  // ---------------------------------------------------------------- figure C.2: the codes

  predicate FitsUpTo(bits: seq<nat>, l: nat)
    requires |bits| == 17 && l <= 16
  {
    forall k :: 1 <= k <= l ==> Past(bits, k) < Pow2(k)
  }

  /** Where there are no codes, the next free code stays zero. */
  lemma {:induction false} NoCodesYet(bits: seq<nat>, l: nat)
    requires |bits| == 17 && l <= 16 && Count(bits, l) == 0
    ensures First(bits, l + 1) == 0 && FitsUpTo(bits, l)
    decreases l
  {
    if l > 0 { NoCodesYet(bits, l - 1); }
  }

  /** After the last code there is nothing to check any more. */
  lemma {:induction false} NoMoreCodes(bits: seq<nat>, l: nat, m: nat)
    requires |bits| == 17 && l <= m <= 16 && Count(bits, l) == Count(bits, 16) && FitsUpTo(bits, l)
    requires l == 0 ==> Count(bits, 16) == 0
    ensures FitsUpTo(bits, m)
    decreases m
  {
    if l < m {
      NoMoreCodes(bits, l, m - 1);
      CountGrows(bits, l, m - 1);
      CountGrows(bits, m, 16);
    }
  }

  method GenerateCodes(bits: seq<nat>, huffsize: array<nat>, lastp: nat) returns (ok: bool, huffcode: array<nat>)
    requires IsLengths(bits) && lastp == Count(bits, 16) <= 256 && huffsize.Length == 257 && huffsize[lastp] == 0
    requires forall p :: 0 <= p < lastp ==> huffsize[p] == Length(bits, p)
    ensures fresh(huffcode) && huffcode.Length == 257
    ensures ok <==> Legal(bits)
    ensures ok ==> forall p :: 0 <= p < lastp ==> huffcode[p] == Code(bits, p)
  {
    hide LengthAt, Pow2, Count, First;
    huffcode := new nat[257](_ => 0);
    var code, si, p := 0, huffsize[0], 0;
    if lastp == 0 {
      NothingToCheck(bits);
      return true, huffcode;
    }
    FirstLength(bits);
    while huffsize[p] != 0
      invariant 1 <= si <= 17 && p <= lastp && p == Count(bits, si - 1) && code == First(bits, si)
      invariant FitsUpTo(bits, si - 1)
      invariant forall q :: 0 <= q < p ==> huffcode[q] == Code(bits, q)
      decreases 17 - si
    {
      StillCodes(bits, p, si);
      LevelBounds(bits, si);
      while huffsize[p] == si
        invariant Count(bits, si - 1) <= p <= Count(bits, si) <= lastp
        invariant code == First(bits, si) + (p - Count(bits, si - 1))
        invariant forall q :: 0 <= q < p ==> huffcode[q] == Code(bits, q)
        decreases lastp - p
      {
        LengthAgain(bits, p, si);
        huffcode[p] := code;
        p := p + 1;
        code := code + 1;
      }
      if p < Count(bits, si) { LengthIs(bits, p, si); }
      if code >= Pow2(si) { return false, huffcode; }
      assert code == Past(bits, si);
      NextFirst(bits, si);
      code := 2 * code;
      si := si + 1;
    }
    NoMoreCodes(bits, si - 1, 16);
    ok := true;
  }

  lemma NextFirst(bits: seq<nat>, l: nat)
    requires |bits| == 17 && 1 <= l <= 16
    ensures First(bits, l + 1) == 2 * Past(bits, l)
  {
  }

  lemma NothingToCheck(bits: seq<nat>)
    requires IsLengths(bits) && Count(bits, 16) == 0
    ensures Legal(bits)
  {
    NoCodesYet(bits, 16);
  }

  lemma FirstLength(bits: seq<nat>)
    requires |bits| == 17 && 0 < Count(bits, 16)
    ensures var l := Length(bits, 0);
            1 <= l <= 16 && Count(bits, l - 1) == 0 && First(bits, l) == 0 && FitsUpTo(bits, l - 1)
  {
    NoCodesYet(bits, Length(bits, 0) - 1);
  }

  lemma StillCodes(bits: seq<nat>, p: nat, si: nat)
    requires |bits| == 17 && p < Count(bits, 16) && 1 <= si <= 17 && p == Count(bits, si - 1)
    ensures si <= Length(bits, p) <= 16
  {
    hide Length, LengthAt;
    var l := Length(bits, p);
    if l < si { CountGrows(bits, l, si - 1); }
  }

  lemma LevelBounds(bits: seq<nat>, si: nat)
    requires |bits| == 17 && 1 <= si <= 16
    ensures Count(bits, si) == Count(bits, si - 1) + bits[si] && Count(bits, si) <= Count(bits, 16)
  {
    CountGrows(bits, si, 16);
  }

  lemma LengthAgain(bits: seq<nat>, p: nat, si: nat)
    requires |bits| == 17 && p < Count(bits, 16) && Length(bits, p) == si && Count(bits, si - 1) <= p
    ensures p < Count(bits, si) && Code(bits, p) == First(bits, si) + (p - Count(bits, si - 1))
  {
  }

  // ---------------------------------------------------------------- figure C.3: the encoder's table

  predicate HasSymbol(t: HuffTable, sym: nat, n: nat)
    requires IsTable(t) && n <= 256
  {
    exists p :: 0 <= p < n && t.huffval[p] == sym
  }

  /** Code and size by symbol for the first `n` symbols; size 0 for a symbol without a code. */
  ghost predicate FilledTo(t: HuffTable, n: nat, ehufco: seq<nat>, ehufsi: seq<nat>)
    requires IsTable(t) && n <= NumSymbols(t) <= 256
  {
    && |ehufco| == |ehufsi| == 256
    && (forall p :: 0 <= p < n ==>
          ehufco[t.huffval[p]] == Code(t.bits, p) && ehufsi[t.huffval[p]] == Length(t.bits, p))
    && (forall sym :: 0 <= sym < 256 && ehufsi[sym] != 0 ==> HasSymbol(t, sym, n))
  }

  ghost predicate EncoderTable(t: HuffTable, ehufco: seq<nat>, ehufsi: seq<nat>)
    requires IsTable(t) && NumSymbols(t) <= 256
  {
    FilledTo(t, NumSymbols(t), ehufco, ehufsi)
  }

  lemma FillNext(t: HuffTable, n: nat, ehufco: seq<nat>, ehufsi: seq<nat>)
    requires IsTable(t) && n < NumSymbols(t) <= 256 && FilledTo(t, n, ehufco, ehufsi)
    ensures ehufsi[t.huffval[n]] == 0 <==> !HasSymbol(t, t.huffval[n], n)
    ensures ehufsi[t.huffval[n]] == 0 ==>
              var i := t.huffval[n];
              FilledTo(t, n + 1, ehufco[i := Code(t.bits, n)], ehufsi[i := Length(t.bits, n)])
  {
    hide Length, Code, Count, LengthAt;
    var i := t.huffval[n];
    forall q | 0 <= q < n ensures t.huffval[q] == i ==> ehufsi[i] != 0 {
      assert ehufsi[t.huffval[q]] == Length(t.bits, q);
    }
    assert HasSymbol(t, i, n + 1);
  }

  method MakeEncoderTable(t: HuffTable, isDc: bool) returns (ok: bool, ehufco: array<nat>, ehufsi: array<nat>)
    requires IsTable(t)
    ensures ok <==> EncoderAccepts(t, isDc)
    ensures ok ==> EncoderTable(t, ehufco[..], ehufsi[..])
  {
    hide Length, Code, Count, Past, FilledTo, HasSymbol;
    ehufco, ehufsi := new nat[256](_ => 0), new nat[256](_ => 0);
    var huffsize, lastp := new nat[0], 0;
    ok, huffsize, lastp := CodeSizes(t.bits);
    if !ok { return; }
    var huffcode;
    ok, huffcode := GenerateCodes(t.bits, huffsize, lastp);
    if !ok { return; }
    ok := FillEncoderTable(t, isDc, huffsize, huffcode, ehufco, ehufsi);
  }

  method FillEncoderTable(t: HuffTable, isDc: bool, huffsize: array<nat>, huffcode: array<nat>,
                          ehufco: array<nat>, ehufsi: array<nat>) returns (ok: bool)
    requires IsTable(t) && NumSymbols(t) <= 256 && huffsize.Length == huffcode.Length == 257
    requires forall p :: 0 <= p < NumSymbols(t) ==>
               huffcode[p] == Code(t.bits, p) && huffsize[p] == Length(t.bits, p)
    requires ehufco.Length == ehufsi.Length == 256 && ehufco != ehufsi
    requires ehufco != huffcode && ehufco != huffsize && ehufsi != huffcode && ehufsi != huffsize
    requires forall i :: 0 <= i < 256 ==> ehufsi[i] == 0
    modifies ehufco, ehufsi
    ensures ok <==> (forall p :: 0 <= p < NumSymbols(t) ==> t.huffval[p] <= MaxSymbol(isDc))
                    && (forall p, q :: 0 <= p < q < NumSymbols(t) ==> t.huffval[p] != t.huffval[q])
    ensures ok ==> EncoderTable(t, ehufco[..], ehufsi[..])
  {
    hide Length, Code, Count;
    var maxsymbol := MaxSymbol(isDc);
    for p := 0 to NumSymbols(t)
      invariant forall q :: 0 <= q < p ==> t.huffval[q] <= maxsymbol
      invariant forall q, r :: 0 <= q < r < p ==> t.huffval[q] != t.huffval[r]
      invariant FilledTo(t, p, ehufco[..], ehufsi[..])
    {
      hide FilledTo;
      FillNext(t, p, ehufco[..], ehufsi[..]);
      var i := t.huffval[p];
      if i > maxsymbol || ehufsi[i] != 0 { return false; }
      ghost var co, si := ehufco[..], ehufsi[..];
      ehufco[i] := huffcode[p];
      ehufsi[i] := huffsize[p];
      assert ehufco[..] == co[i := Code(t.bits, p)] && ehufsi[..] == si[i := Length(t.bits, p)];
    }
    ok := true;
  }

  // ---------------------------------------------------------------- figure F.15: the decoder's tables

  /** Largest code, and distance from codes to symbol indices, by length. The entry for 17 ends every search. */
  ghost predicate LengthTables(t: HuffTable, maxcode: seq<int>, valoffset: seq<int>)
    requires IsTable(t)
  {
    && |maxcode| == 18 && |valoffset| == 18 && maxcode[17] == 0xFFFFF
    && forall l :: 1 <= l <= 16 ==>
         && maxcode[l] == (if t.bits[l] > 0 then Past(t.bits, l) - 1 else -1)
         && (t.bits[l] > 0 ==> valoffset[l] == Count(t.bits, l - 1) - First(t.bits, l))
  }

  const HUFF_LOOKAHEAD := 8

  /** The entry for eight bits says what matching them bit by bit gives. */
  ghost predicate LookaheadEntry(t: HuffTable, b: nat, nbits: nat, sym: nat)
    requires IsTable(t) && NumSymbols(t) <= 256
  {
    match MatchWord(t.bits, BitsOf(b, HUFF_LOOKAHEAD))
    case Found(p, l) => nbits == l && sym == t.huffval[p]
    case _ => nbits == 0
  }

  ghost predicate DecoderTables(t: HuffTable, maxcode: seq<int>, valoffset: seq<int>, lookNbits: seq<nat>, lookSym: seq<nat>)
    requires IsTable(t) && NumSymbols(t) <= 256
  {
    && LengthTables(t, maxcode, valoffset)
    && |lookNbits| == |lookSym| == 256
    && forall b :: 0 <= b < 256 ==> LookaheadEntry(t, b, lookNbits[b], lookSym[b])
  }

  lemma NoneOfLengthZero(bits: seq<nat>)
    requires |bits| == 17
    ensures Count(bits, 0) == 0
  {
  }

  method MakeLengthTables(t: HuffTable, huffcode: array<nat>) returns (maxcode: array<int>, valoffset: array<int>)
    requires IsTable(t) && NumSymbols(t) <= 256 && huffcode.Length == 257
    requires forall p :: 0 <= p < NumSymbols(t) ==> huffcode[p] == Code(t.bits, p)
    ensures fresh(maxcode) && fresh(valoffset)
    ensures LengthTables(t, maxcode[..], valoffset[..])
  {
    hide Length, LengthAt, Code, First, Count;
    maxcode, valoffset := new int[18](_ => 0), new int[18](_ => 0);
    var p := 0;
    assert Count(t.bits, 0) == 0 by { NoneOfLengthZero(t.bits); }
    for l := 1 to 17
      invariant p == Count(t.bits, l - 1) <= NumSymbols(t)
      invariant forall k :: 1 <= k < l ==>
                  && maxcode[k] == (if t.bits[k] > 0 then Past(t.bits, k) - 1 else -1)
                  && (t.bits[k] > 0 ==> valoffset[k] == Count(t.bits, k - 1) - First(t.bits, k))
    {
      LevelBounds(t.bits, l);
      if t.bits[l] != 0 {
        LengthIs(t.bits, p, l);
        LengthAgain(t.bits, p, l);
        valoffset[l] := p - huffcode[p];
        p := p + t.bits[l];
        LengthIs(t.bits, p - 1, l);
        LengthAgain(t.bits, p - 1, l);
        maxcode[l] := huffcode[p - 1];
      } else {
        maxcode[l] := -1;
      }
    }
    maxcode[17] := 0xFFFFF;
  }

  /** The eight-bit values that start with the code word of `p`. */
  predicate Covers(bits: seq<nat>, p: nat, b: nat)
    requires |bits| == 17 && p < Count(bits, 16)
  {
    && Length(bits, p) <= 8
    && ShiftLeft(Code(bits, p), 8 - Length(bits, p)) <= b
       < ShiftLeft(Code(bits, p), 8 - Length(bits, p)) + Pow2(8 - Length(bits, p))
  }

  lemma CoveredMatches(bits: seq<nat>, p: nat, b: nat)
    requires Legal(bits) && p < Count(bits, 16) && Covers(bits, p, b)
    ensures b < 256 && MatchWord(bits, BitsOf(b, 8)) == Found(p, Length(bits, p))
  {
    hide Length, Code, Legal, ShiftLeft, MatchWord, Count;
    var n := 8 - Length(bits, p);
    BitsOfSum(Code(bits, p), b - ShiftLeft(Code(bits, p), n), Length(bits, p), n);
    WordIsFound(bits, p, BitsOf(b - ShiftLeft(Code(bits, p), n), n));
    CoveredIsByte(bits, p, b);
  }

  lemma CoveredIsByte(bits: seq<nat>, p: nat, b: nat)
    requires Legal(bits) && p < Count(bits, 16) && Covers(bits, p, b)
    ensures b < 256
  {
    hide Length, ShiftLeft, Count;
    var c, l := Code(bits, p), Length(bits, p);
    assert Past(bits, l) < Pow2(l);
    ShiftNext(c, 8 - l);
    ShiftGrows(c + 1, Pow2(l), 8 - l);
    ShiftOfPower(l, 8 - l);
    EightBits();
  }

  lemma EightBits()
    ensures Pow2(8) == 256
  {
    assert Pow2(4) == 16;
  }

  /** What is found among eight bits covers them. */
  lemma {:induction false} MatchedIsPrefix(bits: seq<nat>, s: seq<bool>, l: nat)
    requires |bits| == 17 && 1 <= l <= 16 && l <= |s| && First(bits, l) <= ValueOf(s[..l])
    ensures var m := MatchFrom(bits, s, l, ValueOf(s[..l]));
            m.Found? ==> Length(bits, m.index) == m.length && Code(bits, m.index) == ValueOf(s[..m.length])
    decreases 17 - l
  {
    hide Length, LengthAt, ValueOf, Count;
    var code := ValueOf(s[..l]);
    if code < Past(bits, l) {
      var p := IndexOf(bits, l, code);
      LevelBounds(bits, l);
      LengthIs(bits, p, l);
      LengthAgain(bits, p, l);
    } else if |s| > l && l < 16 {
      ValueOfLonger(s, l);
      MatchedIsPrefix(bits, s, l + 1);
    }
  }

  lemma OneBitValue(s: seq<bool>)
    requires s != []
    ensures ValueOf(s[..1]) == if s[0] then 1 else 0
  {
    assert s[..1][..0] == [];
  }

  lemma MatchedIsCovered(bits: seq<nat>, b: nat)
    requires |bits| == 17 && b < 256
    ensures var m := MatchWord(bits, BitsOf(b, 8)); m.Found? ==> Covers(bits, m.index, b)
  {
    hide Length, LengthAt, Count, ValueOf, BitsOf, ShiftLeft, MatchFrom, Code;
    var s := BitsOf(b, 8);
    OneBitValue(s);
    MatchedIsPrefix(bits, s, 1);
    var m := MatchWord(bits, s);
    if m.Found? {
      EightBits();
      ValueOfBits(b, 8);
      assert s[..8] == s;
      ValueOfPrefix(s, m.length, 8);
    }
  }

  /** The entry for eight bits once the first `n` symbols have been entered. */
  ghost predicate EntryTo(t: HuffTable, n: nat, b: nat, nbits: nat, sym: nat)
    requires IsTable(t) && n <= NumSymbols(t) <= 256
  {
    match MatchWord(t.bits, BitsOf(b, HUFF_LOOKAHEAD))
    case Found(p, l) => if p < n then nbits == l && sym == t.huffval[p] else nbits == 0
    case _ => nbits == 0
  }

  lemma EntryOfOthers(t: HuffTable, n: nat, b: nat, nbits: nat, sym: nat)
    requires IsTable(t) && n < NumSymbols(t) <= 256 && Legal(t.bits) && b < 256 && !Covers(t.bits, n, b)
    ensures EntryTo(t, n, b, nbits, sym) <==> EntryTo(t, n + 1, b, nbits, sym)
  {
    hide Covers, MatchWord, Count;
    MatchedIsCovered(t.bits, b);
  }

  lemma EntryOfCovered(t: HuffTable, n: nat, b: nat)
    requires IsTable(t) && n < NumSymbols(t) <= 256 && Legal(t.bits) && Covers(t.bits, n, b)
    ensures b < 256 && EntryTo(t, n + 1, b, Length(t.bits, n), t.huffval[n])
  {
    hide Covers, MatchWord, Count;
    CoveredMatches(t.bits, n, b);
  }

  lemma LongAfterShort(bits: seq<nat>, p: nat)
    requires |bits| == 17 && Count(bits, 8) <= p < Count(bits, 16)
    ensures Length(bits, p) > 8
  {
    hide Length, Count;
    if Length(bits, p) <= 8 { CountGrows(bits, Length(bits, p), 8); }
  }

  /** A symbol whose code is too long for the lookahead changes no entry. */
  lemma LongCodesHaveNoEntry(t: HuffTable, n: nat, m: nat, b: nat, nbits: nat, sym: nat)
    requires IsTable(t) && n <= m <= NumSymbols(t) <= 256 && Legal(t.bits) && b < 256
    requires n == Count(t.bits, 8) && EntryTo(t, n, b, nbits, sym)
    ensures EntryTo(t, m, b, nbits, sym)
    decreases m
  {
    hide Length, Count, EntryTo, Legal;
    if n < m {
      LongCodesHaveNoEntry(t, n, m - 1, b, nbits, sym);
      LongAfterShort(t.bits, m - 1);
      EntryOfOthers(t, m - 1, b, nbits, sym);
    }
  }

  ghost predicate LookaheadTo(t: HuffTable, n: nat, lookNbits: seq<nat>, lookSym: seq<nat>)
    requires IsTable(t) && n <= NumSymbols(t) <= 256
  {
    |lookNbits| == |lookSym| == 256 && forall b :: 0 <= b < 256 ==> EntryTo(t, n, b, lookNbits[b], lookSym[b])
  }

  method FillLookahead(t: HuffTable, huffcode: array<nat>) returns (lookNbits: array<nat>, lookSym: array<nat>)
    requires IsTable(t) && Legal(t.bits) && huffcode.Length == 257
    requires forall p :: 0 <= p < NumSymbols(t) ==> huffcode[p] == Code(t.bits, p)
    ensures fresh(lookNbits) && fresh(lookSym)
    ensures LookaheadTo(t, NumSymbols(t), lookNbits[..], lookSym[..])
  {
    hide Length, LengthAt, Code, Count, MatchWord, Legal, EntryTo, First;
    lookNbits, lookSym := new nat[256](_ => 0), new nat[256](_ => 0);
    NoEntriesYet(t);
    var p := 0;
    for l := 1 to HUFF_LOOKAHEAD + 1
      invariant p == Count(t.bits, l - 1) <= NumSymbols(t) <= 256
      invariant LookaheadTo(t, p, lookNbits[..], lookSym[..])
      modifies lookNbits, lookSym
    {
      LevelBounds(t.bits, l);
      for i := 0 to t.bits[l]
        invariant p == Count(t.bits, l - 1) + i
        invariant LookaheadTo(t, p, lookNbits[..], lookSym[..])
        modifies lookNbits, lookSym
      {
        LengthIs(t.bits, p, l);
        FillOneCode(t, p, huffcode[p], lookNbits, lookSym);
        p := p + 1;
      }
    }
    forall b | 0 <= b < 256 ensures EntryTo(t, NumSymbols(t), b, lookNbits[..][b], lookSym[..][b]) {
      LongCodesHaveNoEntry(t, p, NumSymbols(t), b, lookNbits[b], lookSym[b]);
    }
  }

  lemma NoEntriesYet(t: HuffTable)
    requires IsTable(t) && Legal(t.bits)
    ensures Count(t.bits, 0) == 0
    ensures forall b, sym :: 0 <= b < 256 ==> EntryTo(t, 0, b, 0, sym)
    ensures NumSymbols(t) <= 256
  {
    hide MatchWord;
  }

  /** The left-justified code followed by all possible bits. */
  method FillOneCode(t: HuffTable, p: nat, code: nat, lookNbits: array<nat>, lookSym: array<nat>)
    requires IsTable(t) && Legal(t.bits) && p < NumSymbols(t) <= 256 && code == Code(t.bits, p)
    requires Length(t.bits, p) <= 8
    requires LookaheadTo(t, p, lookNbits[..], lookSym[..]) && lookNbits != lookSym
    modifies lookNbits, lookSym
    ensures LookaheadTo(t, p + 1, lookNbits[..], lookSym[..])
  {
    hide Length, LengthAt, Code, Count, MatchWord, Legal, EntryTo, First, ShiftLeft, Pow2;
    var l := Length(t.bits, p);
    var lookbits := ShiftLeft(code, HUFF_LOOKAHEAD - l);
    var ctr := Pow2(HUFF_LOOKAHEAD - l);
    ghost var start, n := lookbits, ctr;
    forall b | 0 <= b < 256 && !(start <= b < start + n)
      ensures EntryTo(t, p + 1, b, lookNbits[b], lookSym[b])
    {
      assert EntryTo(t, p, b, lookNbits[..][b], lookSym[..][b]);
      EntryOfOthers(t, p, b, lookNbits[b], lookSym[b]);
    }
    while ctr > 0
      invariant 0 <= ctr <= n && lookbits == start + (n - ctr)
      invariant lookNbits.Length == lookSym.Length == 256
      invariant forall b :: 0 <= b < 256 && !(lookbits <= b < start + n) ==> EntryTo(t, p + 1, b, lookNbits[b], lookSym[b])
    {
      EntryOfCovered(t, p, lookbits);
      lookNbits[lookbits] := l;
      lookSym[lookbits] := t.huffval[p];
      lookbits := lookbits + 1;
      ctr := ctr - 1;
    }
  }

  method MakeDecoderTable(t: HuffTable, isDc: bool)
    returns (ok: bool, maxcode: array<int>, valoffset: array<int>, lookNbits: array<nat>, lookSym: array<nat>)
    requires IsTable(t)
    ensures ok <==> DecoderAccepts(t, isDc)
    ensures ok ==> DecoderTables(t, maxcode[..], valoffset[..], lookNbits[..], lookSym[..])
  {
    hide Length, Code, Count, Past, LengthTables, EntryTo;
    maxcode, valoffset, lookNbits, lookSym := new int[0], new int[0], new nat[0], new nat[0];
    var huffsize, lastp := new nat[0], 0;
    ok, huffsize, lastp := CodeSizes(t.bits);
    if !ok { return; }
    var huffcode;
    ok, huffcode := GenerateCodes(t.bits, huffsize, lastp);
    if !ok { return; }
    maxcode, valoffset := MakeLengthTables(t, huffcode);
    lookNbits, lookSym := FillLookahead(t, huffcode);
    forall b | 0 <= b < 256 ensures LookaheadEntry(t, b, lookNbits[..][b], lookSym[..][b]) {
      AllEntered(t, b, lookNbits[b], lookSym[b]);
    }
    if isDc {
      for i := 0 to lastp
        invariant forall q :: 0 <= q < i ==> t.huffval[q] <= 15
      {
        if t.huffval[i] > 15 { return false, maxcode, valoffset, lookNbits, lookSym; }
      }
    }
    ok := true;
  }

  lemma AllEntered(t: HuffTable, b: nat, nbits: nat, sym: nat)
    requires IsTable(t) && NumSymbols(t) <= 256 && EntryTo(t, NumSymbols(t), b, nbits, sym)
    ensures LookaheadEntry(t, b, nbits, sym)
  {
    hide MatchWord;
  }

  // ---------------------------------------------------------------- both sides agree

  /** Whatever table the encoder accepts, the decoder accepts. */
  lemma EncoderTablesDecode(t: HuffTable, isDc: bool)
    requires IsTable(t) && EncoderAccepts(t, isDc)
    ensures DecoderAccepts(t, isDc)
  {
  }

  /** A symbol that the encoder can send is found by the decoder behind its code word. */
  lemma SymbolIsFound(t: HuffTable, isDc: bool, ehufco: seq<nat>, ehufsi: seq<nat>, sym: nat, rest: seq<bool>)
    requires IsTable(t) && EncoderAccepts(t, isDc) && EncoderTable(t, ehufco, ehufsi)
    requires sym < 256 && ehufsi[sym] != 0
    ensures ehufco[sym] < Pow2(ehufsi[sym]) && ehufsi[sym] <= 16
    ensures var m := MatchWord(t.bits, BitsOf(ehufco[sym], ehufsi[sym]) + rest);
            m.Found? && m.length == ehufsi[sym] && m.index < 256 && t.huffval[m.index] == sym
  {
    hide Length, Code, MatchWord, Count;
    assert HasSymbol(t, sym, NumSymbols(t));
    var p :| 0 <= p < NumSymbols(t) && t.huffval[p] == sym;
    assert Past(t.bits, Length(t.bits, p)) < Pow2(Length(t.bits, p));
    WordIsFound(t.bits, p, rest);
  }

  /** A longer string starts with the same word. */
  lemma {:induction false} LongerMatch(bits: seq<nat>, s: seq<bool>, n: nat, l: nat, code: nat)
    requires |bits| == 17 && 1 <= l <= n <= |s| && l <= 17 && First(bits, l) <= code
    ensures var m := MatchFrom(bits, s[..n], l, code);
            !m.More? ==> MatchFrom(bits, s, l, code) == m
    decreases 17 - l
  {
    hide Count, First, Past, MatchFrom;
    if l < 17 && code >= Past(bits, l) && l < n {
      var look := s[..n];
      assert look[l] == s[l];
      NoMatchAt(bits, s, l, code);
      NoMatchAt(bits, look, l, code);
      LongerMatch(bits, s, n, l + 1, 2 * code + if s[l] then 1 else 0);
    } else {
      MatchEnds(bits, s, n, l, code);
    }
  }

  /** Where the search does not go on among the `n` bits. */
  lemma MatchEnds(bits: seq<nat>, s: seq<bool>, n: nat, l: nat, code: nat)
    requires |bits| == 17 && 1 <= l <= n <= |s| && l <= 17 && First(bits, l) <= code
    requires l == 17 || code < Past(bits, l) || l == n
    ensures var m := MatchFrom(bits, s[..n], l, code);
            !m.More? ==> MatchFrom(bits, s, l, code) == m
  {
    hide Count, First, Past;
  }

  /** No code shorter than `l` fits the start of the string. */
  ghost predicate Passed(bits: seq<nat>, s: seq<bool>, l: nat)
    requires |bits| == 17 && 1 <= l <= 17 && l <= |s| + 1
  {
    forall k :: 1 <= k < l ==> Past(bits, k) <= ValueOf(s[..k])
  }

  /** Then the search may go on at length `l`. */
  lemma {:induction false} PassedMatch(bits: seq<nat>, s: seq<bool>, l: nat)
    requires |bits| == 17 && 1 <= l <= 17 && l <= |s| && Passed(bits, s, l)
    ensures First(bits, l) <= ValueOf(s[..l])
    ensures MatchWord(bits, s) == MatchFrom(bits, s, l, ValueOf(s[..l]))
    decreases l
  {
    hide ValueOf, Count, First, MatchFrom, MatchWord;
    if l == 1 {
      MatchStarts(bits, s);
    } else {
      PassedMatch(bits, s, l - 1);
      ValueOfLonger(s, l - 1);
      NoMatchAt(bits, s, l - 1, ValueOf(s[..l - 1]));
    }
  }

  /** A step of the search at a length where no code fits. */
  lemma NoMatchAt(bits: seq<nat>, s: seq<bool>, l: nat, code: nat)
    requires |bits| == 17 && 1 <= l <= 16 && l < |s| && Past(bits, l) <= code
    ensures var next := 2 * code + if s[l] then 1 else 0;
            First(bits, l + 1) <= next && MatchFrom(bits, s, l, code) == MatchFrom(bits, s, l + 1, next)
  {
  }

  lemma MatchStarts(bits: seq<nat>, s: seq<bool>)
    requires |bits| == 17 && s != []
    ensures First(bits, 1) <= ValueOf(s[..1]) && MatchWord(bits, s) == MatchFrom(bits, s, 1, ValueOf(s[..1]))
  {
    OneBitValue(s);
  }

  lemma NotFoundHere(bits: seq<nat>, s: seq<bool>, l: nat, code: nat)
    requires |bits| == 17 && 1 <= l <= 16 && l <= |s| && First(bits, l) <= code
    requires !MatchFrom(bits, s, l, code).Found?
    ensures Past(bits, l) <= code
  {
  }

  /** What is not found among `n` bits is longer. */
  lemma {:induction false} NotFoundIsPassed(bits: seq<nat>, s: seq<bool>, n: nat, l: nat)
    requires |bits| == 17 && 1 <= l <= n <= |s| && n <= 16 && Passed(bits, s, l)
    requires !MatchWord(bits, s[..n]).Found?
    ensures Passed(bits, s, n + 1)
    decreases n - l
  {
    hide ValueOf, Count, First, MatchFrom, MatchWord;
    var look := s[..n];
    forall k | 1 <= k <= n ensures look[..k] == s[..k] {}
    assert Passed(bits, look, l);
    PassedMatch(bits, look, l);
    NotFoundHere(bits, look, l, ValueOf(look[..l]));
    if l < n { NotFoundIsPassed(bits, s, n, l + 1); }
  }

  /** The lookahead path gives the same symbol and takes the same bits as the bit-by-bit path; without an entry,
      the bit-by-bit path may start behind the bits looked at. */
  lemma LookaheadAgrees(t: HuffTable, s: seq<bool>, nbits: nat, sym: nat)
    requires IsTable(t) && NumSymbols(t) <= 256 && |s| >= 8
    requires LookaheadEntry(t, ValueOf(s[..8]), nbits, sym)
    ensures nbits != 0 ==>
              var m := MatchWord(t.bits, s);
              m.Found? && m.length == nbits && t.huffval[m.index] == sym
    ensures nbits == 0 ==> Passed(t.bits, s, 9)
  {
    hide Count, ValueOf, BitsOf, MatchFrom, MatchWord, First;
    var look := s[..8];
    BitsOfValue(look);
    MatchStarts(t.bits, s);
    MatchStarts(t.bits, look);
    assert look[..1] == s[..1];
    if nbits != 0 {
      LongerMatch(t.bits, s, 8, 1, ValueOf(s[..1]));
    } else {
      NotFoundIsPassed(t.bits, s, 8, 1);
    }
  }

  lemma {:induction false} PassedIsShort(bits: seq<nat>, s: seq<bool>)
    requires |bits| == 17 && |s| <= 16 && Passed(bits, s, |s| + 1)
    ensures MatchWord(bits, s) == More
  {
    hide ValueOf, Count, First;
    if s != [] {
      PassedMatch(bits, s, |s|);
      assert s[..|s|] == s;
    }
  }

  // ---------------------------------------------------------------- symbols

  /** A table with everything derived from it for decoding. */
  datatype DerivedTable = DerivedTable(pub: HuffTable, maxcode: seq<int>, valoffset: seq<int>,
                                       lookNbits: seq<nat>, lookSym: seq<nat>)

  ghost predicate IsDerived(d: DerivedTable) {
    && IsTable(d.pub) && Legal(d.pub.bits)
    && DecoderTables(d.pub, d.maxcode, d.valoffset, d.lookNbits, d.lookSym)
  }

  /** The symbol at the front of a bit string, and how many bits it takes; TooShort when the string ends too early.
      A code of seventeen bits is none: a warning, and symbol zero. */
  datatype SymbolRead = TooShort | Symbol(sym: nat, length: nat)

  function SymbolAt(t: HuffTable, s: seq<bool>): (x: SymbolRead)
    requires IsTable(t) && Legal(t.bits)
    ensures x.Symbol? ==> x.sym <= 255 && 1 <= x.length <= |s|
  {
    NoCodeIsLong(t.bits, s);
    match MatchWord(t.bits, s)
    case More => TooShort
    case NoCode => Symbol(0, 17)
    case Found(p, l) => Symbol(t.huffval[p], l)
  }

  lemma NoCodeIsLong(bits: seq<nat>, s: seq<bool>)
    requires |bits| == 17
    ensures MatchWord(bits, s).NoCode? ==> |s| >= 17
  {
    if s != [] { NoCodeFrom(bits, s, 1, if s[0] then 1 else 0); }
  }

  lemma {:induction false} NoCodeFrom(bits: seq<nat>, s: seq<bool>, l: nat, code: nat)
    requires |bits| == 17 && 1 <= l <= 17 && l <= |s| && First(bits, l) <= code
    ensures MatchFrom(bits, s, l, code).NoCode? ==> |s| >= 17
    decreases 17 - l
  {
    if l < 17 && code >= Past(bits, l) && l < |s| {
      NoCodeFrom(bits, s, l + 1, 2 * code + if s[l] then 1 else 0);
    }
  }

  /** What the comparison with the largest code of a length means. */
  lemma ComparedWithMaxcode(d: DerivedTable, s: seq<bool>, l: nat)
    requires IsDerived(d) && 1 <= l <= 17 && l <= |s| && Passed(d.pub.bits, s, l)
    ensures ValueOf(s[..l]) > d.maxcode[l] ==> l <= 16 && Passed(d.pub.bits, s, l + 1)
    ensures ValueOf(s[..l]) <= d.maxcode[l] && l <= 16 ==>
              var i := ValueOf(s[..l]) + d.valoffset[l];
              0 <= i < 256 && SymbolAt(d.pub, s) == Symbol(d.pub.huffval[i], l)
    ensures l == 17 ==> SymbolAt(d.pub, s) == Symbol(0, 17)
  {
    hide ValueOf, Count, First, MatchWord, Pow2;
    var bits, code := d.pub.bits, ValueOf(s[..l]);
    PassedMatch(bits, s, l);
    if l == 17 {
      SeventeenBits();
    } else if code < Past(bits, l) {
      IndexInRange(bits, l, code);
    }
  }

  lemma SeventeenBits()
    ensures Pow2(17) == 0x20000
  {
    Pow2Of15();
  }
}
