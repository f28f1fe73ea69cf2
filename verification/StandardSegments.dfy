/** How entropy-coded data are put into bytes, as sections B.1.1.5 and B.2.1 and annex C of ITU-T T.81 require: canonical
    code words, segments filled up with one bits, and restart markers numbered in turn. */
module StandardSegments {
  import opened EstimationTable
  import opened Arithmetic
  import opened HuffmanCode
  import opened HuffmanTables
  import opened Markers
  import opened BitWriting
  import opened HuffmanSegments
  import opened ArithModel
  import opened Seqs
  import A = ArithScan
  import S = HuffmanSequential

  // ---------------------------------------------------------------- code words

  /** The first word consists of zeros, and each word is the next number, with zeros appended up to its length. */
  lemma CodesInTurn(bits: seq<nat>, p: nat)
    requires |bits| == 17 && p < Count(bits, 16)
    ensures p == 0 ==> Code(bits, p) == 0
    ensures p > 0 ==> Length(bits, p - 1) <= Length(bits, p)
                      && Code(bits, p) == (Code(bits, p - 1) + 1) * Pow2(Length(bits, p) - Length(bits, p - 1))
  {
    hide Count, First, Length;
    var m := Length(bits, p);
    if p == 0 {
      NoneShorter(bits, m);
    } else {
      var l := Length(bits, p - 1);
      if l > m { CountGrows(bits, m, l - 1); }
      var next := Code(bits, p - 1) + 1;
      if l == m {
        assert Code(bits, p) == next;
        ShiftIsProduct(next, 0);
      } else {
        CountGrows(bits, l, m - 1);
        assert Count(bits, l) == p == Count(bits, m - 1);
        LastOfLength(bits, l, p - 1);
        FirstAfter(bits, l, m);
        ShiftIsProduct(Past(bits, l), m - l);
      }
    }
  }

  lemma {:induction false} NoneShorter(bits: seq<nat>, l: nat)
    requires |bits| == 17 && 1 <= l <= 16 && Count(bits, l - 1) == 0
    ensures First(bits, l) == 0
    decreases l
  {
    if l > 1 {
      CountGrows(bits, l - 2, l - 1);
      NoneShorter(bits, l - 1);
    }
  }

  lemma LastOfLength(bits: seq<nat>, l: nat, p: nat)
    requires |bits| == 17 && p < Count(bits, 16) && Length(bits, p) == l && Count(bits, l) == p + 1
    ensures Code(bits, p) + 1 == Past(bits, l)
  {
  }

  /** Between two lengths with codes, the code only grows by zeros. */
  lemma {:induction false} FirstAfter(bits: seq<nat>, l: nat, m: nat)
    requires |bits| == 17 && 1 <= l < m <= 16 && Count(bits, m - 1) == Count(bits, l)
    ensures First(bits, m) == ShiftLeft(Past(bits, l), m - l)
    decreases m
  {
    if m == l + 1 {
      assert ShiftLeft(Past(bits, l), 1) == 2 * ShiftLeft(Past(bits, l), 0);
    } else {
      CountGrows(bits, l, m - 2);
      FirstAfter(bits, l, m - 1);
    }
  }

  lemma {:induction false} FoundIsWord(bits: seq<nat>, s: seq<bool>, l: nat)
    requires |bits| == 17 && 1 <= l <= 17 && l <= |s| && First(bits, l) <= ValueOf(s[..l])
    ensures var m := MatchFrom(bits, s, l, ValueOf(s[..l]));
            && (m.Found? ==> m.length <= |s| && s[..m.length] == Word(bits, m.index))
            && (m.More? ==> |s| <= 16)
    decreases 17 - l
  {
    hide Count, First, ValueOf, Word, Past, IndexOf;
    var code := ValueOf(s[..l]);
    if l < 17 && code < Past(bits, l) {
      HitIsWord(bits, s, l);
    } else if l < 17 && l < |s| {
      NoMatchAt(bits, s, l, code);
      ValueOfLonger(s, l);
      FoundIsWord(bits, s, l + 1);
    }
  }

  lemma HitIsWord(bits: seq<nat>, s: seq<bool>, l: nat)
    requires |bits| == 17 && 1 <= l <= 16 && l <= |s| && First(bits, l) <= ValueOf(s[..l]) < Past(bits, l)
    ensures var p := IndexOf(bits, l, ValueOf(s[..l]));
            p < Count(bits, 16) && s[..l] == Word(bits, p)
  {
    hide BitsOf, ValueOf, Count, First, Length;
    var code := ValueOf(s[..l]);
    IndexInRange(bits, l, code);
    var p := IndexOf(bits, l, code);
    LengthIs(bits, p, l);
    assert Code(bits, p) == code;
    BitsOfValue(s[..l]);
  }

  /** Matching finds exactly the word that stands in front of the bits. If none does, more bits are needed up to sixteen,
      and with seventeen it is given up. */
  lemma MatchFindsWords(bits: seq<nat>, s: seq<bool>)
    requires Legal(bits)
    ensures forall p :: 0 <= p < Count(bits, 16) ==> (Word(bits, p) <= s <==> MatchWord(bits, s) == Found(p, |Word(bits, p)|))
    ensures var m := MatchWord(bits, s); m.Found? ==> m.index < Count(bits, 16) && Word(bits, m.index) <= s
    ensures MatchWord(bits, s).More? <==> |s| <= 16 && forall p :: 0 <= p < Count(bits, 16) ==> !(Word(bits, p) <= s)
  {
    hide Legal, Count, MatchFrom, MatchWord, Word, Length;
    assert |bits| == 17 by { LegalSize(bits); }
    var m := MatchWord(bits, s);
    if s == [] {
      assert m == More by { NoBitsMatch(bits); }
    } else {
      MatchStarts(bits, s);
      FoundIsWord(bits, s, 1);
      NoCodeIsLong(bits, s);
    }
    forall p | 0 <= p < Count(bits, 16) && Word(bits, p) <= s ensures m == Found(p, |Word(bits, p)|) {
      var n := |Word(bits, p)|;
      assert s == Word(bits, p) + s[n..];
      WordIsFound(bits, p, s[n..]);
    }
  }

  lemma LegalSize(bits: seq<nat>)
    requires Legal(bits)
    ensures |bits| == 17
  {
  }

  lemma NoBitsMatch(bits: seq<nat>)
    requires |bits| == 17
    ensures MatchWord(bits, []) == More
  {
  }

  /** A string of bits that no word fits gives the symbol zero and costs seventeen bits. */
  lemma NoWordIsZero(t: HuffTable, s: seq<bool>)
    requires IsTable(t) && Legal(t.bits)
    requires forall p :: 0 <= p < NumSymbols(t) ==> !(Word(t.bits, p) <= s)
    ensures SymbolAt(t, s) == if |s| <= 16 then TooShort else Symbol(0, 17)
  {
    hide Legal, Count, MatchWord, Word, Length;
    MatchFindsWords(t.bits, s);
  }

  // ---------------------------------------------------------------- padding

  /** A segment is filled up to whole bytes with one bits, fewer than eight of them. */
  lemma PaddedWithOnes(s: seq<bool>)
    ensures |Padded(s)| % 8 == 0 && |s| <= |Padded(s)| < |s| + 8 && Padded(s)[..|s|] == s
    ensures forall i :: |s| <= i < |Padded(s)| ==> Padded(s)[i]
    ensures forall rest :: S.IsPadding(rest) <==> |rest| < 8 && forall i :: 0 <= i < |rest| ==> rest[i]
  {
    forall rest: seq<bool> | |rest| < 8 && forall i :: 0 <= i < |rest| ==> rest[i] ensures S.IsPadding(rest) {
      assert rest == AllOnes(|rest|);
    }
  }

  // ---------------------------------------------------------------- restart markers

  function Marker(i: nat): seq<byte> { [0xFF, 0xD0 + i % 8] }

  /** Each Huffman-coded segment but the last one is followed by its restart marker. */
  function SegmentWithMarker(segments: seq<seq<bool>>, from: nat, i: nat): seq<byte>
    requires i < |segments|
  {
    SegmentBytes(segments[i]) + if i == |segments| - 1 then [] else Marker(from + i)
  }

  lemma {:induction false} MarkersInTurn(segments: seq<seq<bool>>, from: nat)
    requires segments != []
    ensures ScanBytes(segments, from % 8)
            == Flat(seq(|segments|, i requires 0 <= i < |segments| => SegmentWithMarker(segments, from, i)))
    decreases |segments|
  {
    hide SegmentBytes;
    var n := |segments|;
    var parts := seq(n, i requires 0 <= i < n => SegmentWithMarker(segments, from, i));
    var first := SegmentBytes(segments[0]);
    assert parts[0] == first + if n == 1 then [] else Marker(from);
    if n == 1 {
      assert parts[1..] == [];
      assert first + [] == first;
    } else {
      MarkersInTurn(segments[1..], from + 1);
      var later := seq(n - 1, i requires 0 <= i < n - 1 => SegmentWithMarker(segments[1..], from + 1, i));
      forall i | 0 <= i < n - 1 ensures parts[1..][i] == later[i] {
        assert segments[1..][i] == segments[i + 1];
      }
      assert parts[1..] == later;
      NextNumber(from);
      hide Marker, SegmentWithMarker;
      Assoc(first, Marker(from), Flat(later));
    }
  }

  lemma NextNumber(from: nat)
    ensures (from + 1) % 8 == (from % 8 + 1) % 8 && Marker(from) == [0xFF, RST0 + from % 8]
  {
  }

  /** An arithmetic-coded interval with the statistics that the intervals before it leave, and its restart marker. */
  function FinishedInterval(sc: A.ScanParams, bins: seq<Stat>, parts: seq<seq<A.Unit>>, i: nat): seq<byte>
    requires A.ValidScan(sc) && A.ValidIntervals(sc, parts) && |bins| == NUM_BINS && i < |parts|
  {
    A.EncodeInterval(sc, A.ScanPrefix(sc, bins, parts[..i]).bins, parts[i]).bytes + Marker(i)
  }

  /** What is written before the current interval of an arithmetic-coded scan. */
  lemma {:induction false} IntervalsInTurn(sc: A.ScanParams, bins: seq<Stat>, parts: seq<seq<A.Unit>>)
    requires A.ValidScan(sc) && A.ValidIntervals(sc, parts) && |bins| == NUM_BINS
    ensures A.ScanPrefix(sc, bins, parts).bytes
            == Flat(seq(|parts|, i requires 0 <= i < |parts| => FinishedInterval(sc, bins, parts, i)))
    decreases |parts|
  {
    hide A.EncodeInterval, A.EncoderReset, A.ValidInterval, A.ValidScan;
    if parts != [] {
      var n := |parts| - 1;
      var init := parts[..n];
      IntervalsInTurn(sc, bins, init);
      var before := seq(n, i requires 0 <= i < n => FinishedInterval(sc, bins, init, i));
      forall i | 0 <= i < n ensures FinishedInterval(sc, bins, parts, i) == FinishedInterval(sc, bins, init, i) {
        assert init[..i] == parts[..i];
      }
      var all := seq(n + 1, i requires 0 <= i < n + 1 => FinishedInterval(sc, bins, parts, i));
      assert all == before + [FinishedInterval(sc, bins, parts, n)];
      hide A.ScanPrefix;
      FlatSnoc(before, FinishedInterval(sc, bins, parts, n));
    }
  }
}
