/** The validator of scan scripts as it runs (validate_script in jcmaster.c): the table of bit positions and the marks of
    components are kept in place. */
module ScriptValidator {
  import opened Limits
  import opened Wrappers
  import opened ScanScript
  import opened ScriptRules

  method ComponentsFault(n: nat, s: ScanInfo, scanno: nat) returns (e: Option<ScriptError>)
    ensures e == if |s.comps| == 0 || |s.comps| > MAX_COMPS_IN_SCAN then Some(ComponentCount(|s.comps|))
                 else if !ComponentsInOrder(n, s.comps) then Some(BadScanScript(scanno))
                 else None
  {
    var ncomps := |s.comps|;
    if ncomps <= 0 || ncomps > MAX_COMPS_IN_SCAN { return Some(ComponentCount(ncomps)); }
    for ci := 0 to ncomps
      invariant forall i :: 0 <= i < ci ==> 0 <= s.comps[i] < n
      invariant forall i :: 0 < i < ci ==> s.comps[i - 1] < s.comps[i]
    {
      var thisi := s.comps[ci];
      if thisi < 0 || thisi >= n { return Some(BadScanScript(scanno)); }
      if ci > 0 && thisi <= s.comps[ci - 1] { return Some(BadScanScript(scanno)); }
    }
    e := None;
  }

  /** The coefficients of one component; the row of the table is updated on the way. */
  method SendRow(last: array2<int>, c: nat, s: ScanInfo) returns (ok: bool)
    requires last.Length1 == 64 && c < last.Length0 && ParametersInRange(s)
    modifies last
    ensures ok <==> RowFollows(old(Rows(last))[c], s)
    ensures ok ==> Rows(last) == old(Rows(last))[c := SentRow(old(Rows(last))[c], s)]
  {
    ghost var row := Rows(last)[c];
    if s.ss != 0 && last[c, 0] < 0 { return false; }
    for k := s.ss to s.se + 1
      invariant forall j :: s.ss <= j < k ==> CoefficientFollows(row[j], s.ah, s.al) && last[c, j] == s.al
      invariant forall j :: 0 <= j < 64 && !(s.ss <= j < k) ==> last[c, j] == row[j]
      invariant forall d, j :: 0 <= d < last.Length0 && 0 <= j < 64 && d != c ==> last[d, j] == old(last[d, j])
    {
      if last[c, k] < 0 {
        if s.ah != 0 { return false; }
      } else {
        if s.ah != last[c, k] || s.al != s.ah - 1 { return false; }
      }
      last[c, k] := s.al;
    }
    forall d | 0 <= d < last.Length0 ensures Rows(last)[d] == old(Rows(last))[c := SentRow(row, s)][d] {
    }
    ok := true;
  }

  method SendProgressive(last: array2<int>, s: ScanInfo) returns (ok: bool)
    requires last.Length1 == 64 && ComponentsInOrder(last.Length0, s.comps)
    modifies last
    ensures ok <==> ProgressiveScanFollows(old(Rows(last)), s)
    ensures ok ==> Rows(last) == Sent(old(Rows(last)), s)
  {
    hide SentRow, RowFollows;
    ghost var bits := Rows(last);
    if s.ss < 0 || s.ss >= 64 || s.se < s.ss || s.se >= 64 ||
       s.ah < 0 || s.ah > MAX_AH_AL || s.al < 0 || s.al > MAX_AH_AL
    {
      return false;
    }
    if s.ss == 0 {
      if s.se != 0 { return false; }
    } else {
      if |s.comps| != 1 { return false; }
    }
    for ci := 0 to |s.comps|
      invariant Rows(last) == SentTo(bits, s, ci)
      invariant forall i :: 0 <= i < ci ==> RowFollows(bits[s.comps[i]], s)
    {
      SentOneMore(bits, s, ci);
      ok := SendRow(last, s.comps[ci], s);
      if !ok { return; }
    }
    assert s.comps[..|s.comps|] == s.comps && SentTo(bits, s, |s.comps|) == Sent(bits, s);
    ok := true;
  }

  method ValidateProgressive(n: nat, script: seq<ScanInfo>) returns (e: Option<ScriptError>)
    ensures var v := CheckScans(Fresh(n), script, 1);
            e == if v.Rejected? then Some(v.error) else if DcSent(v.bits) then None else Some(MissingData)
  {
    hide ProgressiveScanFollows, ComponentsInOrder, Sent;
    var last := new int[n, 64]((i, j) => -1);
    forall c | 0 <= c < n ensures Rows(last)[c] == Fresh(n)[c] {
    }
    assert Rows(last) == Fresh(n) && script[0..] == script;
    for scanno := 0 to |script|
      invariant CheckScans(Fresh(n), script, 1) == CheckScans(Rows(last), script[scanno..], scanno + 1)
    {
      assert script[scanno..][0] == script[scanno] && script[scanno..][1..] == script[scanno + 1..];
      var s := script[scanno];
      e := ComponentsFault(n, s, scanno + 1);
      if e.Some? { return; }
      var ok := SendProgressive(last, s);
      if !ok { return Some(BadProgScript(scanno + 1)); }
    }
    ghost var bits := Rows(last);
    for ci := 0 to n
      invariant forall c :: 0 <= c < ci ==> bits[c][0] >= 0
    {
      assert bits[ci][0] == last[ci, 0];
      if last[ci, 0] < 0 { return Some(MissingData); }
    }
    e := None;
  }

  ghost function TrueAt(sent: array<bool>): set<int>
    reads sent
  {
    set c | 0 <= c < sent.Length && sent[c]
  }

  method MarkSent(sent: array<bool>, s: ScanInfo) returns (ok: bool)
    requires ComponentsInOrder(sent.Length, s.comps)
    modifies sent
    ensures ok <==> !exists i :: 0 <= i < |s.comps| && s.comps[i] in old(TrueAt(sent))
    ensures ok ==> TrueAt(sent) == old(TrueAt(sent)) + ComponentSet(s)
  {
    for ci := 0 to |s.comps|
      invariant forall i :: 0 <= i < ci ==> s.comps[i] !in old(TrueAt(sent))
      invariant forall c :: 0 <= c < sent.Length ==> sent[c] == (old(sent[c]) || c in s.comps[..ci])
    {
      forall i | 0 <= i < ci ensures s.comps[i] < s.comps[ci] {
        InOrderMeansSorted(sent.Length, s.comps, i, ci);
      }
      var thisi := s.comps[ci];
      if sent[thisi] {
        assert s.comps[ci] in old(TrueAt(sent));
        return false;
      }
      sent[thisi] := true;
      assert s.comps[..ci + 1] == s.comps[..ci] + [s.comps[ci]];
    }
    assert s.comps[..|s.comps|] == s.comps;
    ok := true;
  }

  method ValidateSequential(n: nat, script: seq<ScanInfo>) returns (e: Option<ScriptError>)
    ensures e == CheckSequential(n, {}, script, 1)
  {
    var sent := new bool[n](_ => false);
    assert TrueAt(sent) == {};
    for scanno := 0 to |script|
      invariant CheckSequential(n, {}, script, 1) == CheckSequential(n, TrueAt(sent), script[scanno..], scanno + 1)
    {
      assert script[scanno..][0] == script[scanno] && script[scanno..][1..] == script[scanno + 1..];
      var s := script[scanno];
      e := ComponentsFault(n, s, scanno + 1);
      if e.Some? { return; }
      if s.ss != 0 || s.se != 63 || s.ah != 0 || s.al != 0 { return Some(BadProgScript(scanno + 1)); }
      ghost var before := TrueAt(sent);
      var ok := MarkSent(sent, s);
      if !ok { return Some(BadScanScript(scanno + 1)); }
    }
    for ci := 0 to n
      invariant forall c :: 0 <= c < ci ==> c in TrueAt(sent)
    {
      if !sent[ci] {
        assert ci !in TrueAt(sent);
        return Some(MissingData);
      }
    }
    e := None;
  }

  /** The validator; the error is the one that the first faulty scan of the script gives. */
  method ValidateScript(n: nat, script: seq<ScanInfo>) returns (e: Option<ScriptError>, progressive: bool)
    ensures e == ScriptFault(n, script) && IsVerdict(n, script, e)
    ensures script != [] ==> (progressive <==> script[0].ss != 0 || script[0].se != 63)
  {
    ValidatorFollowsRules(n, script);
    hide IsVerdict;
    progressive := false;
    if |script| <= 0 { return Some(BadScanScript(0)), false; }
    if script[0].ss != 0 || script[0].se != 63 {
      progressive := true;
      e := ValidateProgressive(n, script);
    } else {
      e := ValidateSequential(n, script);
    }
  }
}
