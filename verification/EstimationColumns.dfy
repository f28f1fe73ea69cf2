/** The estimation table by columns, each written down by itself: what a row means to the coder. The interval
    sizes and the states after the less probable symbol are lists; the state after the more probable symbol is
    the next one but for the ends of the chains; ten states switch the sense of the more probable symbol. */
module EstimationColumns {
  import opened EstimationTable
  import opened ArithCoding
  import opened ArithDecoding

  /** The states in which the less probable symbol turns the sense of the more probable one over. */
  const SWITCHING := {0, 14, 36, 64, 80, 88, 95, 105, 110, 112}

  /** The interval size of the less probable symbol. */
  function Qe(i: int): int
    requires 0 <= i < 114
  {
    if i < 38 then Qe0(i) else if i < 76 then Qe38(i) else Qe76(i)
  }

  function Qe0(i: int): int {
    match i
    case 0 => 0x5a1d case 1 => 0x2586 case 2 => 0x1114 case 3 => 0x080b case 4 => 0x03d8
    case 5 => 0x01da case 6 => 0x00e5 case 7 => 0x006f case 8 => 0x0036 case 9 => 0x001a
    case 10 => 0x000d case 11 => 0x0006 case 12 => 0x0003 case 13 => 0x0001 case 14 => 0x5a7f
    case 15 => 0x3f25 case 16 => 0x2cf2 case 17 => 0x207c case 18 => 0x17b9 case 19 => 0x1182
    case 20 => 0x0cef case 21 => 0x09a1 case 22 => 0x072f case 23 => 0x055c case 24 => 0x0406
    case 25 => 0x0303 case 26 => 0x0240 case 27 => 0x01b1 case 28 => 0x0144 case 29 => 0x00f5
    case 30 => 0x00b7 case 31 => 0x008a case 32 => 0x0068 case 33 => 0x004e case 34 => 0x003b
    case 35 => 0x002c case 36 => 0x5ae1 case _ => 0x484c
  }

  function Qe38(i: int): int {
    match i
    case 38 => 0x3a0d case 39 => 0x2ef1 case 40 => 0x261f case 41 => 0x1f33 case 42 => 0x19a8
    case 43 => 0x1518 case 44 => 0x1177 case 45 => 0x0e74 case 46 => 0x0bfb case 47 => 0x09f8
    case 48 => 0x0861 case 49 => 0x0706 case 50 => 0x05cd case 51 => 0x04de case 52 => 0x040f
    case 53 => 0x0363 case 54 => 0x02d4 case 55 => 0x025c case 56 => 0x01f8 case 57 => 0x01a4
    case 58 => 0x0160 case 59 => 0x0125 case 60 => 0x00f6 case 61 => 0x00cb case 62 => 0x00ab
    case 63 => 0x008f case 64 => 0x5b12 case 65 => 0x4d04 case 66 => 0x412c case 67 => 0x37d8
    case 68 => 0x2fe8 case 69 => 0x293c case 70 => 0x2379 case 71 => 0x1edf case 72 => 0x1aa9
    case 73 => 0x174e case 74 => 0x1424 case _ => 0x119c
  }

  function Qe76(i: int): int {
    match i
    case 76 => 0x0f6b case 77 => 0x0d51 case 78 => 0x0bb6 case 79 => 0x0a40 case 80 => 0x5832
    case 81 => 0x4d1c case 82 => 0x438e case 83 => 0x3bdd case 84 => 0x34ee case 85 => 0x2eae
    case 86 => 0x299a case 87 => 0x2516 case 88 => 0x5570 case 89 => 0x4ca9 case 90 => 0x44d9
    case 91 => 0x3e22 case 92 => 0x3824 case 93 => 0x32b4 case 94 => 0x2e17 case 95 => 0x56a8
    case 96 => 0x4f46 case 97 => 0x47e5 case 98 => 0x41cf case 99 => 0x3c3d case 100 => 0x375e
    case 101 => 0x5231 case 102 => 0x4c0f case 103 => 0x4639 case 104 => 0x415e case 105 => 0x5627
    case 106 => 0x50e7 case 107 => 0x4b85 case 108 => 0x5597 case 109 => 0x504f case 110 => 0x5a10
    case 111 => 0x5522 case 112 => 0x59eb case _ => 0x5a1d
  }

  /** The state after the less probable symbol. */
  function NextLps(i: int): int
    requires 0 <= i < 114
  {
    if i < 38 then NextLps0(i) else if i < 76 then NextLps38(i) else NextLps76(i)
  }

  function NextLps0(i: int): int {
    match i
    case 0 => 1 case 1 => 14 case 2 => 16 case 3 => 18 case 4 => 20
    case 5 => 23 case 6 => 25 case 7 => 28 case 8 => 30 case 9 => 33
    case 10 => 35 case 11 => 9 case 12 => 10 case 13 => 12 case 14 => 15
    case 15 => 36 case 16 => 38 case 17 => 39 case 18 => 40 case 19 => 42
    case 20 => 43 case 21 => 45 case 22 => 46 case 23 => 48 case 24 => 49
    case 25 => 51 case 26 => 52 case 27 => 54 case 28 => 56 case 29 => 57
    case 30 => 59 case 31 => 60 case 32 => 62 case 33 => 63 case 34 => 32
    case 35 => 33 case 36 => 37 case _ => 64
  }

  function NextLps38(i: int): int {
    match i
    case 38 => 65 case 39 => 67 case 40 => 68 case 41 => 69 case 42 => 70
    case 43 => 72 case 44 => 73 case 45 => 74 case 46 => 75 case 47 => 77
    case 48 => 78 case 49 => 79 case 50 => 48 case 51 => 50 case 52 => 50
    case 53 => 51 case 54 => 52 case 55 => 53 case 56 => 54 case 57 => 55
    case 58 => 56 case 59 => 57 case 60 => 58 case 61 => 59 case 62 => 61
    case 63 => 61 case 64 => 65 case 65 => 80 case 66 => 81 case 67 => 82
    case 68 => 83 case 69 => 84 case 70 => 86 case 71 => 87 case 72 => 87
    case 73 => 72 case 74 => 72 case _ => 74
  }

  function NextLps76(i: int): int {
    match i
    case 76 => 74 case 77 => 75 case 78 => 77 case 79 => 77 case 80 => 80
    case 81 => 88 case 82 => 89 case 83 => 90 case 84 => 91 case 85 => 92
    case 86 => 93 case 87 => 86 case 88 => 88 case 89 => 95 case 90 => 96
    case 91 => 97 case 92 => 99 case 93 => 99 case 94 => 93 case 95 => 95
    case 96 => 101 case 97 => 102 case 98 => 103 case 99 => 104 case 100 => 99
    case 101 => 105 case 102 => 106 case 103 => 107 case 104 => 103 case 105 => 105
    case 106 => 108 case 107 => 109 case 108 => 110 case 109 => 111 case 110 => 110
    case 111 => 112 case 112 => 112 case _ => 113
  }

  /** The state after the more probable symbol. */
  function NextMps(i: int): int {
    match i
    case 13 => 13
    case 35 => 9
    case 63 => 32
    case 79 => 48
    case 87 => 71
    case 94 => 86
    case 100 => 93
    case 104 => 99
    case 107 => 103
    case 109 => 107
    case 111 => 109
    case 112 => 111
    case 113 => 113
    case _ => i + 1
  }

  predicate RowIs(r: Row, i: int)
    requires 0 <= i < 114
  {
    r == Row(Qe(i), NextLps(i), NextMps(i), if i in SWITCHING then 1 else 0)
  }

  lemma Rows0Are(i: int)
    requires 0 <= i < 38
    ensures RowIs(Rows0(i), i)
  {
  }

  lemma Rows38Are(i: int)
    requires 38 <= i < 76
    ensures RowIs(Rows38(i), i)
  {
  }

  lemma Rows76Are(i: int)
    requires 76 <= i < 114
    ensures RowIs(Rows76(i), i)
  {
  }

  /** Each state leads where its columns say, and only the ten switching states carry the switch flag. */
  lemma LookupGivesColumns(sv: Stat)
    ensures var r, i := Lookup(sv), sv % 128;
            && r.qe == Qe(i) && 0 <= NextLps(i) <= 113
            && r.afterLps == NextLps(i) + (if i in SWITCHING then 0x80 else 0)
            && r.afterMps == NextMps(i)
  {
    hide Rows0, Rows38, Rows76, Qe, NextLps, NextMps, Pack, Unpack;
    var i := sv % 128;
    if i < 38 { Rows0Are(i); } else if i < 76 { Rows38Are(i); } else { Rows76Are(i); }
    UnpackInvertsPack(TableRow(i));
  }

  /** The two bytes that can follow. */
  function AfterLps(sv: Stat): Stat {
    hide Lookup;
    Successor(sv, Lookup(sv).afterLps)
  }

  function AfterMps(sv: Stat): Stat {
    hide Lookup;
    SmallRemainder(Lookup(sv).afterMps);
    Successor(sv, Lookup(sv).afterMps)
  }

  lemma SmallRemainder(b: byte)
    requires b <= MAX_STATE
    ensures b % 128 <= MAX_STATE
  {
  }

  lemma SuccessorsAreColumns(sv: Stat)
    ensures AfterLps(sv) % 128 == NextLps(sv % 128)
    ensures AfterLps(sv) >= 128 <==> ((sv >= 128) != (sv % 128 in SWITCHING))
    ensures AfterMps(sv) % 128 == NextMps(sv % 128)
    ensures AfterMps(sv) >= 128 <==> sv >= 128
  {
    hide Lookup, NextLps, NextMps;
    LookupGivesColumns(sv);
    SuccessorIs(sv, NextLps(sv % 128), sv % 128 in SWITCHING);
    SuccessorIs(sv, NextMps(sv % 128), false);
  }

  lemma SuccessorIs(sv: Stat, next: int, turns: bool)
    requires 0 <= next <= MAX_STATE
    ensures var r := Successor(sv, next + if turns then 0x80 else 0);
            r % 128 == next && (r >= 128 <==> ((sv >= 128) != turns))
  {
  }

  /** What becomes of a bin: `kept` says that the interval needs no renormalisation. The less probable symbol
      always moves the bin on, and turns its sense over in a switching state; the more probable symbol moves it
      on only with a renormalisation, and never turns it over. */
  ghost predicate Adapted(before: Stat, bit: bool, kept: bool, after: Stat) {
    var i := before % 128;
    if bit != (before >= 128) then
      && after % 128 == NextLps(i)
      && (after >= 128 <==> ((before >= 128) != (i in SWITCHING)))
    else if kept then after == before
    else after % 128 == NextMps(i) && (after >= 128 <==> before >= 128)
  }

  /** The same, for a decision coded in an interval of size `a`. */
  ghost predicate AdaptedIn(a: int, before: Stat, bit: bool, after: Stat) {
    Adapted(before, bit, a - Qe(before % 128) >= 0x8000, after)
  }

  /** The interval is cut in two: the part of size Qe lies on top, the rest below. The more probable symbol
      takes the larger part, and the bin adapts by its columns. */
  lemma ChoiceIsByColumns(a: int, sv: Stat, bit: bool)
    requires 0x8000 <= a <= 0x10000
    ensures var ch, qe := Choose(a, sv, bit), Qe(sv % 128);
            && ((ch.offset == 0 && ch.size == a - qe) || (ch.offset == a - qe && ch.size == qe))
            && (bit == (sv >= 128) ==> ch.size >= qe && ch.size >= a - qe)
            && Choose(a, sv, !bit).offset != ch.offset
            && AdaptedIn(a, sv, bit, ch.stat)
  {
    ChoiceAdapts(a, sv, bit);
    hide Lookup, Qe, Adapted, AdaptedIn, Successor;
    LookupGivesColumns(sv);
    assert 1 <= Lookup(sv).qe <= 0x5B12;
  }

  lemma ChoiceAdapts(a: int, sv: Stat, bit: bool)
    requires 0x8000 <= a <= 0x10000
    ensures AdaptedIn(a, sv, bit, Choose(a, sv, bit).stat)
  {
    SuccessorsAreColumns(sv);
    hide Lookup, Qe, NextLps, NextMps, Successor;
    LookupGivesColumns(sv);
  }

  /** One decision of the encoder adapts its bin by the columns. */
  lemma StepIsByColumns(run: EncRun, d: Decision)
    requires Ready(run.e) && d.bin < |run.bins|
    ensures AdaptedIn(run.e.a, run.bins[d.bin], d.bit, EncodeStep(run, d).bins[d.bin])
  {
    assert 0x8000 <= run.e.a <= 0x10000;
    hide Choose, Encode, AdaptedIn, Ready, Shape;
    ChoiceIsByColumns(run.e.a, run.bins[d.bin], d.bit);
  }

  /** The decoder adapts the bin in the same way to the decision it finds. */
  lemma DecisionIsByColumns(d: Dec, sv: Stat)
    requires DecShape(d)
    ensures var x := Decode(d, sv);
            x.Some? ==> Adapted(sv, x.value.bit, x.value.d.a >= 0x8000, x.value.stat)
  {
    SuccessorsAreColumns(sv);
    hide Lookup, Qe, NextLps, NextMps, Up, DecRenorm, DecShape, Successor;
    LookupGivesColumns(sv);
  }
}
