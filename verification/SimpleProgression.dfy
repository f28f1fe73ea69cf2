/** The recommended progressive script (jpeg_simple_progression in jcparam.c): filled in through an advancing
    index, accepted by the validator for every number of components, and complete to the last bit. */
module SimpleProgression {
  import opened Limits
  import opened Wrappers
  import opened ScanScript

  function OneEach(n: nat, ss: int, se: int, ah: int, al: int): (r: seq<ScanInfo>)
    ensures |r| == n
  {
    seq(n, c => ScanInfo([c], ss, se, ah, al))
  }

  function Everything(n: nat): seq<int> { seq(n, c => c) }

  function DcScans(n: nat, ah: int, al: int): (r: seq<ScanInfo>)
    ensures |r| == if n <= MAX_COMPS_IN_SCAN then 1 else n
  {
    if n <= MAX_COMPS_IN_SCAN then [ScanInfo(Everything(n), 0, 0, ah, al)] else OneEach(n, 0, 0, ah, al)
  }

  function One(c: int, ss: int, se: int, ah: int, al: int): (r: seq<ScanInfo>)
    ensures |r| == 1
  {
    [ScanInfo([c], ss, se, ah, al)]
  }

  /** The first scans of all coefficients. */
  function YccFirst(): seq<ScanInfo> {
    DcScans(3, 0, 1) + One(0, 1, 5, 0, 2) + One(2, 1, 63, 0, 1) + One(1, 1, 63, 0, 1) + One(0, 6, 63, 0, 2)
  }

  /** Luminance gets more scans than chrominance. */
  function YccScript(): seq<ScanInfo> {
    YccFirst()
    + One(0, 1, 63, 2, 1) + DcScans(3, 1, 0) + One(2, 1, 63, 1, 0) + One(1, 1, 63, 1, 0) + One(0, 1, 63, 1, 0)
  }

  function GeneralScript(n: nat): seq<ScanInfo> {
    DcScans(n, 0, 1) + OneEach(n, 1, 5, 0, 2) + OneEach(n, 6, 63, 0, 2) + OneEach(n, 1, 63, 2, 1)
    + DcScans(n, 1, 0) + OneEach(n, 1, 63, 1, 0)
  }

  function SimpleScript(n: nat, ycc: bool): seq<ScanInfo> {
    if n == 3 && ycc then YccScript() else GeneralScript(n)
  }

  /** The script for luminance and chrominance, column by column. */
  lemma YccColumns()
    ensures var s := YccScript();
            && |s| == 10
            && forall i :: 0 <= i < 10 ==>
                 && s[i].comps == [[0, 1, 2], [0], [2], [1], [0], [0], [0, 1, 2], [2], [1], [0]][i]
                 && s[i].ss == [0, 1, 1, 1, 6, 1, 0, 1, 1, 1][i] && s[i].se == [0, 5, 63, 63, 63, 63, 0, 63, 63, 63][i]
                 && s[i].ah == [0, 0, 0, 0, 0, 2, 1, 1, 1, 1][i] && s[i].al == [1, 2, 1, 1, 2, 1, 0, 0, 0, 0][i]
  {
    assert Everything(3) == [0, 1, 2];
    var s := YccScript();
    assert s == [ScanInfo([0, 1, 2], 0, 0, 0, 1), ScanInfo([0], 1, 5, 0, 2), ScanInfo([2], 1, 63, 0, 1),
                 ScanInfo([1], 1, 63, 0, 1), ScanInfo([0], 6, 63, 0, 2), ScanInfo([0], 1, 63, 2, 1),
                 ScanInfo([0, 1, 2], 0, 0, 1, 0), ScanInfo([2], 1, 63, 1, 0), ScanInfo([1], 1, 63, 1, 0),
                 ScanInfo([0], 1, 63, 1, 0)];
  }

  /** The script for other images, round by round: all DC coefficients but their last bit, in one scan if four or fewer
      components allow it; low and high frequencies but their last two bits; the next bit of both; the last bits. */
  lemma GeneralRounds(n: nat, c: nat)
    requires c < n
    ensures var s, d := GeneralScript(n), if n <= 4 then 1 else n;
            && |s| == 2 * d + 4 * n
            && (if n <= 4 then s[0] == ScanInfo(seq(n, i => i), 0, 0, 0, 1) else s[c] == ScanInfo([c], 0, 0, 0, 1))
            && s[d + c] == ScanInfo([c], 1, 5, 0, 2)
            && s[d + n + c] == ScanInfo([c], 6, 63, 0, 2)
            && s[d + 2 * n + c] == ScanInfo([c], 1, 63, 2, 1)
            && (if n <= 4 then s[d + 3 * n] == ScanInfo(seq(n, i => i), 0, 0, 1, 0)
                else s[d + 3 * n + c] == ScanInfo([c], 0, 0, 1, 0))
            && s[2 * d + 3 * n + c] == ScanInfo([c], 1, 63, 1, 0)
  {
    var d := if n <= 4 then 1 else n;
    var first, low, high, next := DcScans(n, 0, 1), OneEach(n, 1, 5, 0, 2), OneEach(n, 6, 63, 0, 2), OneEach(n, 1, 63, 2, 1);
    var last, rest := DcScans(n, 1, 0), OneEach(n, 1, 63, 1, 0);
    assert Everything(n) == seq(n, i => i);
    assert GeneralScript(n) == first + low + high + next + last + rest;
  }

  /** The space figured out before the script is filled in. */
  function ScansNeeded(n: nat, ycc: bool): nat {
    if n == 3 && ycc then 10 else if n > MAX_COMPS_IN_SCAN then 6 * n else 2 + 4 * n
  }

  // ---------------------------------------------------------------- filling it in

  method FillAScan(space: array<ScanInfo>, p: nat, ci: int, ss: int, se: int, ah: int, al: int) returns (next: nat)
    requires p < space.Length
    modifies space
    ensures next == p + 1 && space[..next] == old(space[..p]) + One(ci, ss, se, ah, al)
  {
    space[p] := ScanInfo([ci], ss, se, ah, al);
    next := p + 1;
  }

  method FillScans(space: array<ScanInfo>, p: nat, ncomps: nat, ss: int, se: int, ah: int, al: int) returns (next: nat)
    requires p + ncomps <= space.Length
    modifies space
    ensures next == p + ncomps && space[..next] == old(space[..p]) + OneEach(ncomps, ss, se, ah, al)
  {
    next := p;
    for ci := 0 to ncomps
      invariant next == p + ci && space[..next] == old(space[..p]) + OneEach(ci, ss, se, ah, al)
    {
      space[next] := ScanInfo([ci], ss, se, ah, al);
      next := next + 1;
    }
  }

  method FillDcScans(space: array<ScanInfo>, p: nat, ncomps: nat, ah: int, al: int) returns (next: nat)
    requires p + |DcScans(ncomps, ah, al)| <= space.Length
    modifies space
    ensures next == p + |DcScans(ncomps, ah, al)| && space[..next] == old(space[..p]) + DcScans(ncomps, ah, al)
  {
    if ncomps <= MAX_COMPS_IN_SCAN {
      var index: seq<int> := [];
      for ci := 0 to ncomps
        invariant index == Everything(ci) && space[..p] == old(space[..p])
      {
        index := index + [ci];
      }
      space[p] := ScanInfo(index, 0, 0, ah, al);
      next := p + 1;
    } else {
      next := FillScans(space, p, ncomps, 0, 0, ah, al);
    }
  }

  /** `space` is what an earlier call left, if there was one. */
  method FillSimpleProgression(space: array?<ScanInfo>, ncomps: nat, ycc: bool)
    returns (script: array<ScanInfo>, numScans: nat)
    modifies if space == null then {} else {space}
    ensures script == space || fresh(script)
    ensures numScans == |SimpleScript(ncomps, ycc)| <= script.Length
    ensures script[..numScans] == SimpleScript(ncomps, ycc)
  {
    hide YccScript, GeneralScript;
    numScans := ScansNeeded(ncomps, ycc);
    if space == null || space.Length < numScans {
      var blank := ScanInfo([], 0, 0, 0, 0);
      script := new ScanInfo[if numScans > 10 then numScans else 10](_ => blank);
    } else {
      script := space;
    }
    if ncomps == 3 && ycc {
      FillYccScript(script, numScans);
    } else {
      FillGeneralScript(script, ncomps, numScans);
    }
  }

  method FillYccScript(script: array<ScanInfo>, numScans: nat)
    requires numScans == 10 <= script.Length
    modifies script
    ensures numScans == |YccScript()| && script[..numScans] == YccScript()
  {
    hide DcScans, One, YccFirst;
    var p := FillYccFirst(script);
    p := FillAScan(script, p, 0, 1, 63, 2, 1);
    p := FillDcScans(script, p, 3, 1, 0);
    p := FillAScan(script, p, 2, 1, 63, 1, 0);
    p := FillAScan(script, p, 1, 1, 63, 1, 0);
    p := FillAScan(script, p, 0, 1, 63, 1, 0);
  }

  method FillYccFirst(script: array<ScanInfo>) returns (p: nat)
    requires script.Length >= 10
    modifies script
    ensures p == |YccFirst()| == 5 && script[..p] == YccFirst()
  {
    hide DcScans, One;
    assert script[..0] == [];
    p := FillDcScans(script, 0, 3, 0, 1);
    p := FillAScan(script, p, 0, 1, 5, 0, 2);
    p := FillAScan(script, p, 2, 1, 63, 0, 1);
    p := FillAScan(script, p, 1, 1, 63, 0, 1);
    p := FillAScan(script, p, 0, 6, 63, 0, 2);
  }

  method FillGeneralScript(script: array<ScanInfo>, ncomps: nat, numScans: nat)
    requires numScans == ScansNeeded(ncomps, false) <= script.Length
    modifies script
    ensures numScans == |GeneralScript(ncomps)| && script[..numScans] == GeneralScript(ncomps)
  {
    hide DcScans, OneEach;
    assert script[..0] == [];
    var p := FillDcScans(script, 0, ncomps, 0, 1);
    p := FillScans(script, p, ncomps, 1, 5, 0, 2);
    p := FillScans(script, p, ncomps, 6, 63, 0, 2);
    p := FillScans(script, p, ncomps, 1, 63, 2, 1);
    p := FillDcScans(script, p, ncomps, 1, 0);
    p := FillScans(script, p, ncomps, 1, 63, 1, 0);
  }

  // ---------------------------------------------------------------- the script is accepted and complete

  function Uniform(n: nat, row: BitRow): (r: seq<BitRow>)
    ensures |r| == n
  {
    seq(n, _ => row)
  }

  /** The first `k` components have had the scan that the others are still waiting for. */
  function Partly(n: nat, k: nat, row: BitRow, after: BitRow): (r: seq<BitRow>)
    ensures |r| == n
  {
    seq(n, c => if c < k then after else row)
  }

  lemma SingleComponent(bits: seq<BitRow>, s: ScanInfo, scanno: nat, c: nat)
    requires c < |bits| && s.comps == [c] && ParametersInRange(s) && RowFollows(bits[c], s)
    ensures CheckScan(bits, s, scanno) == Accepted(bits[c := SentRow(bits[c], s)])
  {
    hide RowFollows, SentRow;
    assert Sent(bits, s) == bits[c := SentRow(bits[c], s)];
  }

  /** The same scan for every component moves every component forward. */
  lemma {:induction false} OneEachIsAccepted(n: nat, k: nat, row: BitRow, s: ScanInfo, scanno: nat)
    requires k <= n && s.comps == [0] && ParametersInRange(s) && RowFollows(row, s)
    ensures CheckScans(Uniform(n, row), OneEach(k, s.ss, s.se, s.ah, s.al), scanno)
         == Accepted(Partly(n, k, row, SentRow(row, s)))
    decreases k
  {
    hide RowFollows, SentRow, CheckScan;
    var bits, after := Uniform(n, row), SentRow(row, s);
    if k == 0 {
      assert bits == Partly(n, 0, row, after);
    } else {
      OneEachIsAccepted(n, k - 1, row, s, scanno);
      var scans, last := OneEach(k - 1, s.ss, s.se, s.ah, s.al), s.(comps := [k - 1]);
      assert OneEach(k, s.ss, s.se, s.ah, s.al) == scans + [last];
      CheckScansConcat(bits, scans, [last], scanno);
      SameParameters(row, s, last);
      SingleComponent(Partly(n, k - 1, row, after), last, scanno + k - 1, k - 1);
      assert Partly(n, k - 1, row, after)[k - 1 := after] == Partly(n, k, row, after);
      assert [last][1..] == [];
    }
  }

  lemma SameParameters(row: BitRow, s: ScanInfo, t: ScanInfo)
    requires ParametersInRange(s) && RowFollows(row, s) && |s.comps| == |t.comps| && t == s.(comps := t.comps)
    ensures ParametersInRange(t) && RowFollows(row, t) && SentRow(row, s) == SentRow(row, t)
  {
  }

  lemma AllComponents(n: nat, row: BitRow, s: ScanInfo, scanno: nat)
    requires s.comps == [0] && ParametersInRange(s) && RowFollows(row, s)
    ensures CheckScans(Uniform(n, row), OneEach(n, s.ss, s.se, s.ah, s.al), scanno)
         == Accepted(Uniform(n, SentRow(row, s)))
  {
    hide RowFollows, SentRow;
    OneEachIsAccepted(n, n, row, s, scanno);
    assert Partly(n, n, row, SentRow(row, s)) == Uniform(n, SentRow(row, s));
  }

  lemma DcScansAreAccepted(n: nat, row: BitRow, ah: int, al: int, scanno: nat)
    requires 1 <= n && 0 <= ah <= MAX_AH_AL && 0 <= al <= MAX_AH_AL && CoefficientFollows(row[0], ah, al)
    ensures CheckScans(Uniform(n, row), DcScans(n, ah, al), scanno) == Accepted(Uniform(n, row[0 := al]))
  {
    var s := ScanInfo([0], 0, 0, ah, al);
    assert RowFollows(row, s) && SentRow(row, s) == row[0 := al];
    if n <= MAX_COMPS_IN_SCAN {
      var all := s.(comps := Everything(n));
      assert ComponentsInOrder(n, all.comps);
      hide SentRow;
      forall c | 0 <= c < n ensures Sent(Uniform(n, row), all)[c] == row[0 := al] {
        assert all.comps[c] == c;
        assert SentRow(row, all) == SentRow(row, s) by { SameBand(row, s, all); }
      }
      assert Sent(Uniform(n, row), all) == Uniform(n, row[0 := al]);
    } else {
      AllComponents(n, row, s, scanno);
    }
  }

  lemma SameBand(row: BitRow, s: ScanInfo, t: ScanInfo)
    requires s.ss == t.ss && s.se == t.se && s.al == t.al
    ensures SentRow(row, s) == SentRow(row, t)
  {
  }

  /** Bit positions with the DC at `dc` and the AC coefficients at `low` up to index 5 and `high` above. */
  function Stage(dc: int, low: int, high: int): (row: BitRow) {
    seq(64, k requires 0 <= k < 64 => if k == 0 then dc else if k <= 5 then low else high)
  }

  lemma AcStage(dc: int, low: int, high: int, ss: int, se: int, ah: int, al: int)
    requires 0 <= dc && 0 <= ah <= MAX_AH_AL && 0 <= al <= MAX_AH_AL
    requires (ss, se) == (1, 5) || (ss, se) == (6, 63) || (ss, se) == (1, 63)
    requires ss == 1 ==> CoefficientFollows(low, ah, al)
    requires se == 63 ==> CoefficientFollows(high, ah, al)
    ensures var s := ScanInfo([0], ss, se, ah, al);
            && ParametersInRange(s) && RowFollows(Stage(dc, low, high), s)
            && SentRow(Stage(dc, low, high), s)
               == Stage(dc, if ss == 1 then al else low, if se == 63 then al else high)
  {
  }

  /** All components through one AC stage. */
  lemma AcStageForAll(n: nat, dc: int, low: int, high: int, ss: int, se: int, ah: int, al: int, scanno: nat)
    requires 0 <= dc && 0 <= ah <= MAX_AH_AL && 0 <= al <= MAX_AH_AL
    requires (ss, se) == (1, 5) || (ss, se) == (6, 63) || (ss, se) == (1, 63)
    requires ss == 1 ==> CoefficientFollows(low, ah, al)
    requires se == 63 ==> CoefficientFollows(high, ah, al)
    ensures CheckScans(Uniform(n, Stage(dc, low, high)), OneEach(n, ss, se, ah, al), scanno)
         == Accepted(Uniform(n, Stage(dc, if ss == 1 then al else low, if se == 63 then al else high)))
  {
    AcStage(dc, low, high, ss, se, ah, al);
    hide Stage, RowFollows, SentRow;
    AllComponents(n, Stage(dc, low, high), ScanInfo([0], ss, se, ah, al), scanno);
  }

  lemma DcStageForAll(n: nat, dc: int, low: int, high: int, ah: int, al: int, scanno: nat)
    requires 1 <= n && 0 <= ah <= MAX_AH_AL && 0 <= al <= MAX_AH_AL && CoefficientFollows(dc, ah, al)
    ensures CheckScans(Uniform(n, Stage(dc, low, high)), DcScans(n, ah, al), scanno)
         == Accepted(Uniform(n, Stage(al, low, high)))
  {
    DcScansAreAccepted(n, Stage(dc, low, high), ah, al, scanno);
    assert Stage(dc, low, high)[0 := al] == Stage(al, low, high);
  }

  /** Two runs of scans after each other. */
  lemma Then(bits: seq<BitRow>, a: seq<ScanInfo>, mid: seq<BitRow>, b: seq<ScanInfo>, after: seq<BitRow>)
    requires CheckScans(bits, a, 1) == Accepted(mid) && CheckScans(mid, b, 1 + |a|) == Accepted(after)
    ensures CheckScans(bits, a + b, 1) == Accepted(after)
  {
    CheckScansConcat(bits, a, b, 1);
  }

  lemma FreshIsUniform(n: nat)
    ensures Fresh(n) == Uniform(n, Stage(-1, -1, -1))
  {
    assert Stage(-1, -1, -1) == seq(64, _ => -1);
  }

  lemma GeneralScriptIsComplete(n: nat)
    requires 1 <= n
    ensures CheckScans(Fresh(n), GeneralScript(n), 1) == Accepted(Uniform(n, Stage(0, 0, 0)))
  {
    hide CheckScans, Stage, Uniform, OneEach, DcScans;
    FreshIsUniform(n);
    var s1, s2, s3 := DcScans(n, 0, 1), OneEach(n, 1, 5, 0, 2), OneEach(n, 6, 63, 0, 2);
    var s4, s5, s6 := OneEach(n, 1, 63, 2, 1), DcScans(n, 1, 0), OneEach(n, 1, 63, 1, 0);
    DcStageForAll(n, -1, -1, -1, 0, 1, 1);
    AcStageForAll(n, 1, -1, -1, 1, 5, 0, 2, 1 + |s1|);
    AcStageForAll(n, 1, 2, -1, 6, 63, 0, 2, 1 + |s1 + s2|);
    AcStageForAll(n, 1, 2, 2, 1, 63, 2, 1, 1 + |s1 + s2 + s3|);
    DcStageForAll(n, 1, 1, 1, 1, 0, 1 + |s1 + s2 + s3 + s4|);
    AcStageForAll(n, 0, 1, 1, 1, 63, 1, 0, 1 + |s1 + s2 + s3 + s4 + s5|);
    var u := (dc, low, high) => Uniform(n, Stage(dc, low, high));
    Then(Fresh(n), s1, u(1, -1, -1), s2, u(1, 2, -1));
    Then(Fresh(n), s1 + s2, u(1, 2, -1), s3, u(1, 2, 2));
    Then(Fresh(n), s1 + s2 + s3, u(1, 2, 2), s4, u(1, 1, 1));
    Then(Fresh(n), s1 + s2 + s3 + s4, u(1, 1, 1), s5, u(0, 1, 1));
    Then(Fresh(n), s1 + s2 + s3 + s4 + s5, u(0, 1, 1), s6, u(0, 0, 0));
  }

  /** One AC scan of a colour image. */
  lemma YccAcStage(bits: seq<BitRow>, c: nat, dc: int, low: int, high: int, ss: int, se: int, ah: int, al: int, scanno: nat)
    requires c < |bits| && bits[c] == Stage(dc, low, high)
    requires 0 <= dc && 0 <= ah <= MAX_AH_AL && 0 <= al <= MAX_AH_AL
    requires (ss, se) == (1, 5) || (ss, se) == (6, 63) || (ss, se) == (1, 63)
    requires ss == 1 ==> CoefficientFollows(low, ah, al)
    requires se == 63 ==> CoefficientFollows(high, ah, al)
    ensures CheckScans(bits, One(c, ss, se, ah, al), scanno)
         == Accepted(bits[c := Stage(dc, if ss == 1 then al else low, if se == 63 then al else high)])
  {
    AcStage(dc, low, high, ss, se, ah, al);
    hide Stage, RowFollows, SentRow, CheckScan;
    var s, t := ScanInfo([0], ss, se, ah, al), ScanInfo([c], ss, se, ah, al);
    SameParameters(bits[c], s, t);
    SingleComponent(bits, t, scanno, c);
    assert [t][1..] == [];
  }

  lemma YccScriptIsComplete()
    ensures CheckScans(Fresh(3), YccScript(), 1) == Accepted(Uniform(3, Stage(0, 0, 0)))
  {
    hide CheckScans, Stage, DcScans, One;
    FreshIsUniform(3);
    var s1, s2, s3, s4, s5 :=
      DcScans(3, 0, 1), One(0, 1, 5, 0, 2), One(2, 1, 63, 0, 1), One(1, 1, 63, 0, 1), One(0, 6, 63, 0, 2);
    var b1 := Uniform(3, Stage(1, -1, -1));
    DcStageForAll(3, -1, -1, -1, 0, 1, 1);
    var b2 := b1[0 := Stage(1, 2, -1)];
    YccAcStage(b1, 0, 1, -1, -1, 1, 5, 0, 2, 2);
    Then(Fresh(3), s1, b1, s2, b2);
    var b3 := b2[2 := Stage(1, 1, 1)];
    YccAcStage(b2, 2, 1, -1, -1, 1, 63, 0, 1, 3);
    Then(Fresh(3), s1 + s2, b2, s3, b3);
    var b4 := b3[1 := Stage(1, 1, 1)];
    YccAcStage(b3, 1, 1, -1, -1, 1, 63, 0, 1, 4);
    Then(Fresh(3), s1 + s2 + s3, b3, s4, b4);
    var b5 := b4[0 := Stage(1, 2, 2)];
    YccAcStage(b4, 0, 1, 2, -1, 6, 63, 0, 2, 5);
    Then(Fresh(3), s1 + s2 + s3 + s4, b4, s5, b5);
    YccRefinements(b5, s1 + s2 + s3 + s4 + s5);
  }

  lemma YccRefinements(b5: seq<BitRow>, before: seq<ScanInfo>)
    requires b5 == [Stage(1, 2, 2), Stage(1, 1, 1), Stage(1, 1, 1)] && |before| == 5
    requires CheckScans(Fresh(3), before, 1) == Accepted(b5)
    ensures CheckScans(Fresh(3),
                       before + One(0, 1, 63, 2, 1) + DcScans(3, 1, 0) + One(2, 1, 63, 1, 0) + One(1, 1, 63, 1, 0)
                       + One(0, 1, 63, 1, 0), 1)
         == Accepted(Uniform(3, Stage(0, 0, 0)))
  {
    hide CheckScans, Stage, DcScans, One;
    var s6, s7, s8, s9, s10 :=
      One(0, 1, 63, 2, 1), DcScans(3, 1, 0), One(2, 1, 63, 1, 0), One(1, 1, 63, 1, 0), One(0, 1, 63, 1, 0);
    var b6 := Uniform(3, Stage(1, 1, 1));
    YccAcStage(b5, 0, 1, 2, 2, 1, 63, 2, 1, 6);
    assert b5[0 := Stage(1, 1, 1)] == b6;
    Then(Fresh(3), before, b5, s6, b6);
    var b7 := Uniform(3, Stage(0, 1, 1));
    DcStageForAll(3, 1, 1, 1, 1, 0, 7);
    Then(Fresh(3), before + s6, b6, s7, b7);
    var b8 := b7[2 := Stage(0, 0, 0)];
    YccAcStage(b7, 2, 0, 1, 1, 1, 63, 1, 0, 8);
    Then(Fresh(3), before + s6 + s7, b7, s8, b8);
    var b9 := b8[1 := Stage(0, 0, 0)];
    YccAcStage(b8, 1, 0, 1, 1, 1, 63, 1, 0, 9);
    Then(Fresh(3), before + s6 + s7 + s8, b8, s9, b9);
    YccAcStage(b9, 0, 0, 1, 1, 1, 63, 1, 0, 10);
    assert b9[0 := Stage(0, 0, 0)] == Uniform(3, Stage(0, 0, 0));
    Then(Fresh(3), before + s6 + s7 + s8 + s9, b9, s10, Uniform(3, Stage(0, 0, 0)));
  }

  /** The recommended script fills exactly the space figured out for it, is accepted, and sends every bit of every
      coefficient; with no component at all it is refused. */
  lemma SimpleScriptIsAccepted(n: nat, ycc: bool)
    ensures |SimpleScript(n, ycc)| == ScansNeeded(n, ycc)
    ensures ScriptFault(n, SimpleScript(n, ycc)).None? <==> 1 <= n
    ensures 1 <= n ==>
              && CheckScans(Fresh(n), SimpleScript(n, ycc), 1) == Accepted(Uniform(n, seq(64, _ => 0)))
              && !IsSequential(SimpleScript(n, ycc)[0])
  {
    assert Stage(0, 0, 0) == seq(64, _ => 0);
    var script := SimpleScript(n, ycc);
    FirstScanIsDc(n, ycc);
    hide CheckScans, Stage, YccScript, GeneralScript;
    if n == 0 {
      NothingToSend();
    } else {
      YccScriptIsComplete();
      GeneralScriptIsComplete(n);
    }
  }

  lemma FirstScanIsDc(n: nat, ycc: bool)
    ensures var script := SimpleScript(n, ycc);
            |script| == ScansNeeded(n, ycc) && script[0].ss == 0 && script[0].se == 0
  {
    var dc := DcScans(n, 0, 1);
    assert dc[0].ss == 0 && dc[0].se == 0;
    hide DcScans, OneEach, One;
  }

  lemma NothingToSend()
    ensures ScriptFault(0, GeneralScript(0)).Some?
  {
    assert GeneralScript(0)[0].comps == [];
  }
}
