/** The bytes of the header segments, position by position, as section B.2 of ITU-T T.81 lays them out: what the
    functions that put segments together come to. */
module StandardHeaders {
  import opened Limits
  import opened Wrappers
  import opened EstimationTable
  import opened HeaderFormat
  import opened HeaderSegments
  import opened HeaderProtocol
  import opened HeaderRoundTrip

  /** The number that two bytes spell, the more significant one first. */
  function Word(s: seq<byte>, i: nat): nat
    requires i + 1 < |s|
  {
    var hi: nat := s[i];
    256 * hi + s[i + 1]
  }

  lemma {:induction false} ValueBytesAre(vs: seq<nat>, wide: bool)
    requires forall i :: 0 <= i < |vs| ==> vs[i] < if wide then 0x10000 else 256
    ensures var s := ValueBytes(vs, wide);
            && |s| == (if wide then 2 * |vs| else |vs|)
            && forall i :: 0 <= i < |vs| ==> vs[i] == if wide then Word(s, 2 * i) else s[i]
    decreases |vs|
  {
    if vs != [] {
      ValueBytesAre(vs[1..], wide);
      var s, rest := ValueBytes(vs, wide), ValueBytes(vs[1..], wide);
      forall i | 0 < i < |vs| ensures vs[i] == if wide then Word(s, 2 * i) else s[i] {
        assert vs[i] == vs[1..][i - 1];
        LaterValue(vs, wide, i, s, rest);
      }
    }
  }

  lemma LaterValue(vs: seq<nat>, wide: bool, i: nat, s: seq<byte>, rest: seq<byte>)
    requires 0 < i < |vs| && |rest| == (if wide then 2 * (|vs| - 1) else |vs| - 1)
    requires |s| == |rest| + (if wide then 2 else 1) && s[if wide then 2 else 1..] == rest
    ensures if wide then Word(s, 2 * i) == Word(rest, 2 * (i - 1)) else s[i] == rest[i - 1]
  {
    if wide {
      assert s[2..][2 * (i - 1)] == s[2 * i] && s[2..][2 * (i - 1) + 1] == s[2 * i + 1];
    } else {
      assert s[1..][i - 1] == s[i];
    }
  }

  /** The same behind three other bytes. */
  lemma ValuesBehind(head: seq<byte>, vs: seq<nat>, wide: bool)
    requires |head| == 3 && forall i :: 0 <= i < |vs| ==> vs[i] < if wide then 0x10000 else 256
    ensures var s := head + ValueBytes(vs, wide);
            && |s| == 3 + (if wide then 2 * |vs| else |vs|)
            && forall i :: 0 <= i < |vs| ==> vs[i] == if wide then Word(s, 3 + 2 * i) else s[3 + i]
  {
    hide ValueBytes;
    ValueBytesAre(vs, wide);
    var body := ValueBytes(vs, wide);
    var s := head + body;
    if wide {
      forall i | 0 <= i < |vs| ensures Word(s, 3 + 2 * i) == Word(body, 2 * i) { }
    } else {
      forall i | 0 <= i < |vs| ensures s[3 + i] == body[i] { }
    }
  }

  /** Quantisation tables: the length, precision and index, then the values in zigzag order. */
  lemma DqtIsStandard(index: nat, vals: seq<nat>)
    requires index < 4 && 1 <= |vals| <= 64 && SixteenBits(vals)
    ensures var s, wide := DqtBytes(index, vals), exists i :: 0 <= i < |vals| && vals[i] > 255;
            && |s| == 3 + (if wide then 2 * |vals| else |vals|)
            && Word(s, 0) == |s| && s[2] == (if wide then 16 + index else index)
            && forall i :: 0 <= i < |vals| ==> vals[i] == if wide then Word(s, 3 + 2 * i) else s[3 + i]
  {
    hide ValueBytes;
    var wide := IsWide(vals);
    assert wide <==> exists i :: 0 <= i < |vals| && vals[i] > 255;
    var head := TwoBytes(if wide then 2 * |vals| + 3 else |vals| + 3) + [index + if wide then 16 else 0];
    ValuesBehind(head, vals, wide);
    assert DqtBytes(index, vals) == head + ValueBytes(vals, wide);
  }

  /** Huffman tables: the length, class and index, sixteen counts of codes, then the symbols. */
  lemma DhtIsStandard(ac: bool, index: nat, h: HuffSpec)
    requires index < 4 && Sendable(h)
    ensures var s := DhtBytes(ac, index, h);
            && |s| == 19 + |h.huffval| && Word(s, 0) == |s| && s[2] == (if ac then 16 + index else index)
            && (forall l :: 0 <= l < 16 ==> s[3 + l] == h.bits[l])
            && forall i :: 0 <= i < |h.huffval| ==> s[19 + i] == h.huffval[i]
  {
    hide ValueBytes, Sum;
    ValueBytesAre(h.bits, false);
    ValueBytesAre(h.huffval, false);
    var s, a, b := DhtBytes(ac, index, h), ValueBytes(h.bits, false), ValueBytes(h.huffval, false);
    assert forall l :: 0 <= l < 16 ==> s[3 + l] == a[l];
    assert forall i :: 0 <= i < |b| ==> s[19 + i] == b[i];
  }

  lemma {:induction false} DacPairsAre(ds: seq<DacDef>)
    requires forall i :: 0 <= i < |ds| ==> Fits(ds[i])
    ensures var s := DacPairs(ds);
            && |s| == 2 * |ds|
            && forall i :: 0 <= i < |ds| ==>
                 match ds[i]
                 case DcCond(t, l, u) => s[2 * i] == t && s[2 * i + 1] == l + 16 * u
                 case AcCond(t, k) => s[2 * i] == t + 16 && s[2 * i + 1] == k
    decreases |ds|
  {
    if ds != [] {
      DacPairsAre(ds[1..]);
      var s, rest := DacPairs(ds), DacPairs(ds[1..]);
      forall i | 0 < i < |ds| ensures s[2 * i] == rest[2 * (i - 1)] && s[2 * i + 1] == rest[2 * (i - 1) + 1] { }
      assert forall i :: 0 < i < |ds| ==> ds[i] == ds[1..][i - 1];
    }
  }

  /** Arithmetic conditioning: the length, then an index and a value for each table. */
  lemma DacIsStandard(ds: seq<DacDef>)
    requires |ds| <= 32 && forall i :: 0 <= i < |ds| ==> Fits(ds[i])
    ensures var s := DacBytes(ds);
            && |s| == 2 + 2 * |ds| && Word(s, 0) == |s|
            && forall i :: 0 <= i < |ds| ==>
                 match ds[i]
                 case DcCond(t, l, u) => s[2 + 2 * i] == t && s[3 + 2 * i] == l + 16 * u
                 case AcCond(t, k) => s[2 + 2 * i] == t + 16 && s[3 + 2 * i] == k
  {
    hide DacPairs;
    DacPairsAre(ds);
    var s, rest := DacBytes(ds), DacPairs(ds);
    forall i | 0 <= i < |ds| ensures s[2 + 2 * i] == rest[2 * i] && s[3 + 2 * i] == rest[2 * i + 1] { }
  }

  lemma DriIsStandard(interval: nat)
    requires interval < 0x10000
    ensures var s := DriBytes(interval); |s| == 4 && Word(s, 0) == 4 && Word(s, 2) == interval
  {
  }

  lemma {:induction false} FrameCompsAre(cs: seq<FrameComp>)
    requires forall i :: 0 <= i < |cs| ==> SendableFrameComp(cs[i])
    ensures var s := FrameCompBytes(cs);
            && |s| == 3 * |cs|
            && forall i :: 0 <= i < |cs| ==>
                 s[3 * i] == cs[i].id && s[3 * i + 1] == 16 * cs[i].h + cs[i].v && s[3 * i + 2] == cs[i].tq
    decreases |cs|
  {
    if cs != [] {
      FrameCompsAre(cs[1..]);
      var s, rest := FrameCompBytes(cs), FrameCompBytes(cs[1..]);
      forall i | 0 < i < |cs|
        ensures s[3 * i] == cs[i].id && s[3 * i + 1] == 16 * cs[i].h + cs[i].v && s[3 * i + 2] == cs[i].tq
      {
        assert cs[i] == cs[1..][i - 1];
        assert s[3 * i] == rest[3 * (i - 1)] && s[3 * i + 1] == rest[3 * (i - 1) + 1] && s[3 * i + 2] == rest[3 * (i - 1) + 2];
      }
    }
  }

  /** The frame: length, precision, height, width, number of components; then for each its identifier, its sampling
      factors, horizontal first, and its quantisation table. */
  lemma SofIsStandard(f: FrameHead)
    requires SendableFrame(f)
    ensures var s, n := SofBytes(f), |f.comps|;
            && |s| == 8 + 3 * n && Word(s, 0) == |s| && s[2] == f.precision
            && Word(s, 3) == f.height && Word(s, 5) == f.width && s[7] == n
            && forall i :: 0 <= i < n ==>
                 && s[8 + 3 * i] == f.comps[i].id
                 && s[9 + 3 * i] == 16 * f.comps[i].h + f.comps[i].v
                 && s[10 + 3 * i] == f.comps[i].tq
  {
    hide FrameCompBytes;
    FrameCompsAre(f.comps);
    var s, rest := SofBytes(f), FrameCompBytes(f.comps);
    assert |TwoBytes(f.height)| == |TwoBytes(f.width)| == 2;
    assert s == (TwoBytes(3 * |f.comps| + 8) + [f.precision] + TwoBytes(f.height) + TwoBytes(f.width) + [|f.comps|]) + rest;
    assert forall i :: 0 <= i < |rest| ==> s[8 + i] == rest[i];
    forall i | 0 <= i < |f.comps|
      ensures s[8 + 3 * i] == rest[3 * i] && s[9 + 3 * i] == rest[3 * i + 1] && s[10 + 3 * i] == rest[3 * i + 2]
    {
      assert s[8 + (3 * i + 1)] == rest[3 * i + 1] && s[8 + (3 * i + 2)] == rest[3 * i + 2];
    }
  }

  lemma {:induction false} ScanCompsAre(cs: seq<ScanComp>)
    requires forall i :: 0 <= i < |cs| ==> SendableScanComp(cs[i])
    ensures var s := ScanCompBytes(cs);
            && |s| == 2 * |cs|
            && forall i :: 0 <= i < |cs| ==> s[2 * i] == cs[i].id && s[2 * i + 1] == 16 * cs[i].td + cs[i].ta
    decreases |cs|
  {
    if cs != [] {
      ScanCompsAre(cs[1..]);
      var s, rest := ScanCompBytes(cs), ScanCompBytes(cs[1..]);
      forall i | 0 < i < |cs| ensures s[2 * i] == cs[i].id && s[2 * i + 1] == 16 * cs[i].td + cs[i].ta {
        assert cs[i] == cs[1..][i - 1];
        assert s[2 * i] == rest[2 * (i - 1)] && s[2 * i + 1] == rest[2 * (i - 1) + 1];
      }
    }
  }

  /** The scan: length, number of components, for each its identifier and its entropy-coding tables, DC first; then the
      band and the bit positions. */
  lemma SosIsStandard(h: ScanHead)
    requires SendableScan(h)
    ensures var s, n := SosBytes(h), |h.comps|;
            && |s| == 6 + 2 * n && Word(s, 0) == |s| && s[2] == n
            && (forall i :: 0 <= i < n ==> s[3 + 2 * i] == h.comps[i].id && s[4 + 2 * i] == 16 * h.comps[i].td + h.comps[i].ta)
            && s[3 + 2 * n] == h.ss && s[4 + 2 * n] == h.se && s[5 + 2 * n] == 16 * h.ah + h.al
  {
    hide ScanCompBytes;
    ScanCompsAre(h.comps);
    var s, rest, n := SosBytes(h), ScanCompBytes(h.comps), |h.comps|;
    var head := TwoBytes(2 * n + 6) + [n];
    assert s == head + rest + [h.ss, h.se, 16 * h.ah + h.al];
    assert forall i :: 0 <= i < |rest| ==> s[3 + i] == rest[i];
    forall i | 0 <= i < n ensures s[3 + 2 * i] == rest[2 * i] && s[4 + 2 * i] == rest[2 * i + 1] {
      assert s[3 + (2 * i + 1)] == rest[2 * i + 1];
    }
  }

  // ---------------------------------------------------------------- marker codes

  /** Which marker announces the frame: the process, and its entropy coding. */
  lemma FrameMarker(k: Kind)
    requires k.baseline ==> !k.progressive && !k.arith
    ensures SofCode(k) == if k.baseline then 0xC0
                          else 0xC1 + (if k.progressive then 1 else 0) + (if k.arith then 8 else 0)
  {
  }

  /** Each segment stands behind its own marker. */
  lemma SegmentMarkers(im: Image, w: Writer, sc: ScanSetup, index: nat)
    requires im.Valid() && w.Valid() && sc.Valid(im)
    ensures var x := EmitDqt(im, w, index); x.Wrote? && x.bytes != [] ==> x.bytes[..2] == [0xFF, 0xDB]
    ensures forall ac :: var x := EmitDht(w, ac, index); x.Wrote? && x.bytes != [] ==> x.bytes[..2] == [0xFF, 0xC4]
    ensures im.kind.arith ==> WriteScanHeader(im, w, sc).Wrote? && WriteScanHeader(im, w, sc).bytes[..2] == [0xFF, 0xCC]
    ensures var s, n := DriAndSos(im, w, sc), |sc.comps|;
            var dri := if sc.restartInterval != w.lastRestart then 6 else 0;
            && |s| == dri + 8 + 2 * n && s[dri..dri + 2] == [0xFF, 0xDA] && s[dri + 2..] == SosBytes(Head(im, sc))
            && (dri > 0 ==> s[..2] == [0xFF, 0xDD] && s[2..dri] == DriBytes(sc.restartInterval))
  {
    hide DqtBytes, DhtBytes, DacBytes, SosBytes, Zigzag, Head, Conds;
    SosIsStandard(Head(im, sc));
    assert |DriBytes(sc.restartInterval)| == 4;
    assert |Head(im, sc).comps| == |sc.comps| by { HeadSize(im, sc); }
  }

  lemma HeadSize(im: Image, sc: ScanSetup)
    requires im.Valid() && sc.Valid(im)
    ensures |Head(im, sc).comps| == |sc.comps|
  {
  }

  // ---------------------------------------------------------------- what the reader takes and refuses

  function ByteAt(s: seq<byte>, i: nat): nat
    requires i < |s|
  {
    s[i]
  }

  function FrameCompAt(s: seq<byte>, i: nat): FrameComp
    requires i + 2 < |s|
  {
    FrameComp(ByteAt(s, i), ByteAt(s, i + 1) / 16, ByteAt(s, i + 1) % 16, ByteAt(s, i + 2))
  }

  lemma FirstFrameComp(s: seq<byte>, n: nat)
    requires n > 0 && |s| >= 3
    ensures var y := FrameComps(s[3..], n - 1);
            y.Ok? ==> FrameComps(s, n) == Ok(y.rest, [FrameCompAt(s, 0)] + y.v)
  {
    assert s[1..][1..][1..] == s[3..];
  }

  lemma {:induction false} FrameCompsByPosition(s: seq<byte>, n: nat)
    requires |s| >= 3 * n
    ensures var x := FrameComps(s, n);
            && x.Ok? && x.rest == s[3 * n..] && |x.v| == n
            && forall i :: 0 <= i < n ==> x.v[i] == FrameCompAt(s, 3 * i)
    decreases n
  {
    if n > 0 {
      hide FrameComps;
      var tail := s[3..];
      FirstFrameComp(s, n);
      FrameCompsByPosition(tail, n - 1);
      assert tail[3 * (n - 1)..] == s[3 * n..];
      forall i | 0 <= i < n - 1 ensures FrameCompAt(tail, 3 * i) == FrameCompAt(s, 3 * (i + 1)) {
        Shifted(s, 3, 3 * i);
        Shifted(s, 3, 3 * i + 1);
        Shifted(s, 3, 3 * i + 2);
      }
    }
  }

  lemma Shifted(s: seq<byte>, k: nat, i: nat)
    requires k + i < |s|
    ensures s[k..][i] == s[k + i]
  {
  }

  lemma FieldsByPosition(s: seq<byte>)
    requires |s| >= 8
    ensures ParseFields(s) == Ok(s[8..], FrameFields(Word(s, 0), s[2], Word(s, 3), Word(s, 5), s[7]))
  {
    assert s[1..][1..] == s[2..] && s[2..][1..] == s[3..] && s[3..][1..] == s[4..] && s[4..][1..] == s[5..]
        && s[5..][1..] == s[6..] && s[6..][1..] == s[7..] && s[7..][1..] == s[8..];
  }

  /** A frame header whose bytes are all there is refused if there has been one before, if the image or its list of
      components is empty, or if the length is wrong; otherwise its fields are taken from their places. */
  lemma FrameByPosition(s: seq<byte>, seen: bool)
    requires |s| >= 8 && |s| >= 8 + 3 * ByteAt(s, 7)
    ensures var x, n := ParseSof(s, seen), ByteAt(s, 7);
            if seen || Word(s, 3) == 0 || Word(s, 5) == 0 || n == 0 || Word(s, 0) != 8 + 3 * n then x == Bad
            else
              && x.Ok? && x.rest == s[8 + 3 * n..]
              && x.v.precision == s[2] && x.v.height == Word(s, 3) && x.v.width == Word(s, 5) && |x.v.comps| == n
              && forall i :: 0 <= i < n ==> x.v.comps[i] == FrameCompAt(s, 8 + 3 * i)
  {
    FieldsByPosition(s);
    var n, tail := ByteAt(s, 7), s[8..];
    FrameCompsByPosition(tail, n);
    hide ParseFields, FrameComps;
    assert tail[3 * n..] == s[8 + 3 * n..];
    forall i | 0 <= i < n ensures FrameCompAt(tail, 3 * i) == FrameCompAt(s, 8 + 3 * i) {
      Shifted(s, 8, 3 * i);
      Shifted(s, 8, 3 * i + 1);
      Shifted(s, 8, 3 * i + 2);
    }
  }

  lemma {:induction false} UnknownComponent(s: seq<byte>, n: nat, ids: seq<nat>, i: nat)
    requires |s| >= 2 * n && i < n && ByteAt(s, 2 * i) !in ids
    ensures ScanComps(s, n, ids) == Bad
    decreases n
  {
    if i > 0 {
      var tail := s[2..];
      assert s[1..][1..] == tail && tail[2 * (i - 1)] == s[2 * i];
      UnknownComponent(tail, n - 1, ids, i - 1);
    }
  }

  lemma {:induction false} KnownComponents(s: seq<byte>, n: nat, ids: seq<nat>)
    requires |s| >= 2 * n && forall i :: 0 <= i < n ==> ByteAt(s, 2 * i) in ids
    ensures var x := ScanComps(s, n, ids);
            && x.Ok? && x.rest == s[2 * n..] && |x.v| == n
            && forall i :: 0 <= i < n ==>
                 x.v[i] == CompRef(FirstWith(ids, ByteAt(s, 2 * i)), ByteAt(s, 2 * i + 1) / 16, ByteAt(s, 2 * i + 1) % 16)
    decreases n
  {
    if n > 0 {
      hide FirstWith;
      var tail := s[2..];
      assert s[1..][1..] == tail && ByteAt(s, 2 * 0) in ids;
      forall i | 0 <= i < n - 1 ensures ByteAt(tail, 2 * i) in ids {
        assert ByteAt(tail, 2 * i) == ByteAt(s, 2 * (i + 1));
      }
      KnownComponents(tail, n - 1, ids);
      assert tail[2 * (n - 1)..] == s[2 * n..];
      var y := ScanComps(tail, n - 1, ids);
      assert ScanComps(s, n, ids)
          == Ok(y.rest, [CompRef(FirstWith(ids, ByteAt(s, 0)), ByteAt(s, 1) / 16, ByteAt(s, 1) % 16)] + y.v);
      hide ScanComps;
      forall i | 0 < i < n
        ensures y.v[i - 1] == CompRef(FirstWith(ids, ByteAt(s, 2 * i)), ByteAt(s, 2 * i + 1) / 16, ByteAt(s, 2 * i + 1) % 16)
      {
        Shifted(s, 2, 2 * (i - 1));
        Shifted(s, 2, 2 * (i - 1) + 1);
      }
    }
  }

  /** A scan header whose bytes are all there is refused if there has been no frame header, if the length is wrong, if it
      names more than four components or an unknown one, or if it names none and the frame is not progressive; otherwise
      its fields are taken from their places. */
  lemma ScanByPosition(s: seq<byte>, seen: bool, progressive: bool, ids: seq<nat>)
    requires |s| >= 3 && |s| >= 6 + 2 * ByteAt(s, 2)
    ensures var x, n := ParseSos(s, seen, progressive, ids), ByteAt(s, 2);
            if !seen || Word(s, 0) != 6 + 2 * n || n > 4 || (n == 0 && !progressive)
               || exists i :: 0 <= i < n && ByteAt(s, 3 + 2 * i) !in ids
            then x == Bad
            else
              && x.Ok? && x.rest == s[6 + 2 * n..] && |x.v.refs| == n
              && x.v.ss == s[3 + 2 * n] && x.v.se == s[4 + 2 * n]
              && x.v.ah == s[5 + 2 * n] / 16 && x.v.al == s[5 + 2 * n] % 16
              && forall i :: 0 <= i < n ==>
                   && ByteAt(s, 3 + 2 * i) in ids
                   && x.v.refs[i] == CompRef(FirstWith(ids, ByteAt(s, 3 + 2 * i)),
                                             ByteAt(s, 4 + 2 * i) / 16, ByteAt(s, 4 + 2 * i) % 16)
  {
    hide FirstWith, ScanComps;
    var n, tail := ByteAt(s, 2), s[3..];
    assert s[1..][1..] == s[2..] && s[2..][1..] == tail;
    forall i | 0 <= i < n ensures ByteAt(tail, 2 * i) == ByteAt(s, 3 + 2 * i) && ByteAt(tail, 2 * i + 1) == ByteAt(s, 4 + 2 * i) { }
    if i :| 0 <= i < n && ByteAt(s, 3 + 2 * i) !in ids {
      UnknownComponent(tail, n, ids, i);
    } else {
      KnownComponents(tail, n, ids);
      var rest := s[3 + 2 * n..];
      assert tail[2 * n..] == rest;
      assert rest[1..][1..][1..] == s[6 + 2 * n..];
      assert ParseTail(rest) == Ok(rest[1..][1..][1..], ScanTail(rest[0], rest[1], rest[2] / 16, rest[2] % 16));
      hide ParseTail;
    }
  }

  /** A restart interval must come in a segment of four bytes. */
  lemma IntervalByPosition(s: seq<byte>)
    requires |s| >= 4
    ensures ParseDri(s) == if Word(s, 0) != 4 then Bad else Ok(s[4..], Word(s, 2))
  {
    assert s[1..][1..] == s[2..] && s[2..][1..] == s[3..] && s[3..][1..] == s[4..];
  }

  /** The next conditioning value of a segment with `length` bytes left: there are sixteen tables of each class, and a
      lower bound is not above its upper bound. */
  lemma ConditionByPosition(s: seq<byte>, length: int)
    requires |s| >= 2 && length > 0
    ensures var x, i, v, more := DacTables(s, length), ByteAt(s, 0), ByteAt(s, 1), DacTables(s[2..], length - 2);
            if i >= 32 || (i < 16 && v % 16 > v / 16) then x == Bad
            else if more.Ok? then x == Ok(more.rest, [if i < 16 then DcCond(i, v % 16, v / 16) else AcCond(i - 16, v)] + more.v)
            else x.Short? == more.Short? && !x.Ok?
  {
    assert s[1..][1..] == s[2..];
  }

  /** A segment of a wrong length is refused when it has been read. */
  lemma WrongLengths(s: seq<byte>, length: int)
    ensures length < 0 ==> DqtTables(s, length) == Bad && DacTables(s, length) == Bad
    ensures length <= 16 && length != 0 ==> DhtTables(s, length) == Bad
    ensures DqtTables(s, 0) == Ok(s, []) && DhtTables(s, 0) == Ok(s, []) && DacTables(s, 0) == Ok(s, [])
  {
  }

  /** The next quantisation table: one of four, with as many values as the segment has bytes for, 64 at most. */
  lemma QuantByPosition(s: seq<byte>, length: int)
    requires |s| >= 1 && length > 0
    ensures var x, t, wide := DqtTables(s, length), ByteAt(s, 0) % 16, ByteAt(s, 0) / 16 > 0;
            var count := if wide then (if length - 1 < 128 then (length - 1) / 2 else 64) else if length - 1 < 64 then length - 1 else 64;
            && (t >= 4 ==> x == Bad)
            && (x.Ok? ==> t < 4 && |x.v| >= 1 && x.v[0].index == t && |x.v[0].vals| == count)
  {
    hide GetValues;
  }

  /** The next Huffman table: one of four of each class, and no more symbols than 256 or than the segment has bytes for. */
  lemma HuffmanByPosition(s: seq<byte>, length: int)
    requires |s| >= 17 && length > 16
    ensures var x, i, bits := DhtTable(s, length), ByteAt(s, 0), ByteValues(s[1..17]);
            && (Sum(bits) > 256 || Sum(bits) > length - 17 ==> x == Bad)
            && (x.Ok? ==> && x.v.0.ac == (i / 16 % 2 == 1) && x.v.0.index == (if x.v.0.ac then i - 16 else i) && x.v.0.index < 4
                          && x.v.0.spec.bits == bits && |x.v.0.spec.huffval| == Sum(bits) && x.v.1 == length - 17 - Sum(bits))
            && (4 <= i < 16 || i >= 20 ==> !x.Ok?)
  {
    hide Sum, GetValues;
    ValuesByPosition(s[1..], 16);
    assert s[1..][..16] == s[1..17];
  }

  function ByteValues(s: seq<byte>): (vs: seq<nat>)
    ensures |vs| == |s|
  {
    seq(|s|, i requires 0 <= i < |s| => ByteAt(s, i))
  }

  lemma {:induction false} ValuesByPosition(s: seq<byte>, n: nat)
    requires |s| >= n
    ensures GetValues(s, n, false) == Ok(s[n..], ByteValues(s[..n]))
    decreases n
  {
    if n > 0 {
      var tail := s[1..];
      ValuesByPosition(tail, n - 1);
      assert tail[n - 1..] == s[n..];
      assert ByteValues(s[..n]) == [ByteAt(s, 0)] + ByteValues(tail[..n - 1]) by {
        assert forall i :: 0 < i < n ==> s[..n][i] == tail[..n - 1][i - 1];
      }
    }
  }

  /** Which marker is what to the reader; the codes not listed are beyond this model and refused. */
  lemma KindsOfMarkers(os: Orders, code: byte, s: seq<byte>, st: Reader)
    requires os.Valid() && st.Valid()
    ensures SofKind(code).Some? <==> code in {0xC0, 0xC1, 0xC2, 0xC9, 0xCA}
    ensures SofKind(code).Some? ==> SofKind(code).value == Kind(code == 0xC0, code == 0xC2 || code == 0xCA, code >= 0xC9)
    ensures code == 0x01 || 0xD0 <= code <= 0xD7 ==> Segment(os, code, s, st) == Ok(s, st)
    ensures code !in {0xC0, 0xC1, 0xC2, 0xC4, 0xC9, 0xCA, 0xCC, 0xDA, 0xDB, 0xDD} && code != 0x01 && !(0xD0 <= code <= 0xD7) ==>
              Segment(os, code, s, st) == Bad
  {
  }
}
