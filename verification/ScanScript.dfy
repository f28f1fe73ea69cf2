/** Scan scripts: what the validator that runs before compression says (validate_script in jcmaster.c), as a function
    that goes through the script with a record of the bits sent. */
module ScanScript {
  import opened Limits
  import opened Wrappers

  const MAX_AH_AL := 10

  /** One entry of the script. The fields are what an application stored, so nothing is known about them. */
  datatype ScanInfo = ScanInfo(comps: seq<int>, ss: int, se: int, ah: int, al: int)

  datatype ScriptError =
    | ComponentCount(count: int)
    | BadScanScript(scanno: nat)
    | BadProgScript(scanno: nat)
    | MissingData

  /** For every component and coefficient the lowest bit that has been sent, -1 before its first scan. */
  type BitRow = r: seq<int> | |r| == 64 witness seq(64, _ => -1)

  function Fresh(n: nat): (bits: seq<BitRow>)
    ensures |bits| == n && forall c :: 0 <= c < n ==> bits[c] == seq(64, _ => -1)
  {
    seq(n, _ => seq(64, _ => -1))
  }

  // ---------------------------------------------------------------- one scan

  predicate ComponentsInOrder(n: nat, comps: seq<int>) {
    && (forall i :: 0 <= i < |comps| ==> 0 <= comps[i] < n)
    && (forall i :: 0 < i < |comps| ==> comps[i - 1] < comps[i])
  }

  predicate ParametersInRange(s: ScanInfo) {
    && 0 <= s.ss < 64 && s.ss <= s.se < 64
    && 0 <= s.ah <= MAX_AH_AL && 0 <= s.al <= MAX_AH_AL
    && (if s.ss == 0 then s.se == 0 else |s.comps| == 1)
  }

  /** A coefficient starts with all its high bits, and then gets one bit at a time. */
  predicate CoefficientFollows(last: int, ah: int, al: int) {
    if last < 0 then ah == 0 else ah == last && al == ah - 1
  }

  predicate RowFollows(row: BitRow, s: ScanInfo)
    requires ParametersInRange(s)
  {
    && (s.ss != 0 ==> row[0] >= 0)
    && forall k :: s.ss <= k <= s.se ==> CoefficientFollows(row[k], s.ah, s.al)
  }

  /** The row after a scan of its component. */
  function SentRow(row: BitRow, s: ScanInfo): BitRow {
    seq(64, k requires 0 <= k < 64 => if s.ss <= k <= s.se then s.al else row[k])
  }

  predicate ProgressiveScanFollows(bits: seq<BitRow>, s: ScanInfo)
    requires ComponentsInOrder(|bits|, s.comps)
  {
    ParametersInRange(s) && forall i :: 0 <= i < |s.comps| ==> RowFollows(bits[s.comps[i]], s)
  }

  /** The bit positions after the first `n` components of the scan. */
  function SentTo(bits: seq<BitRow>, s: ScanInfo, n: nat): (r: seq<BitRow>)
    requires ComponentsInOrder(|bits|, s.comps) && ParametersInRange(s) && n <= |s.comps|
    ensures |r| == |bits|
  {
    seq(|bits|, c requires 0 <= c < |bits| => if c in s.comps[..n] then SentRow(bits[c], s) else bits[c])
  }

  function Sent(bits: seq<BitRow>, s: ScanInfo): (r: seq<BitRow>)
    requires ComponentsInOrder(|bits|, s.comps) && ParametersInRange(s)
    ensures |r| == |bits|
  {
    seq(|bits|, c requires 0 <= c < |bits| => if c in s.comps then SentRow(bits[c], s) else bits[c])
  }

  lemma {:induction false} InOrderMeansSorted(n: nat, comps: seq<int>, i: nat, j: nat)
    requires ComponentsInOrder(n, comps) && i < j < |comps|
    ensures comps[i] < comps[j]
    decreases j
  {
    if i < j - 1 { InOrderMeansSorted(n, comps, i, j - 1); }
  }

  lemma SentOneMore(bits: seq<BitRow>, s: ScanInfo, n: nat)
    requires ComponentsInOrder(|bits|, s.comps) && ParametersInRange(s) && n < |s.comps|
    ensures SentTo(bits, s, n)[s.comps[n]] == bits[s.comps[n]]
    ensures SentTo(bits, s, n + 1) == SentTo(bits, s, n)[s.comps[n] := SentRow(bits[s.comps[n]], s)]
  {
    hide SentRow;
    forall i | 0 <= i < n ensures s.comps[i] < s.comps[n] {
      InOrderMeansSorted(|bits|, s.comps, i, n);
    }
    assert s.comps[..n + 1] == s.comps[..n] + [s.comps[n]];
  }

  // ---------------------------------------------------------------- whole scripts

  /** Some error, or the bit positions after the scans. */
  datatype Verdict = Rejected(error: ScriptError) | Accepted(bits: seq<BitRow>)

  function CheckScan(bits: seq<BitRow>, s: ScanInfo, scanno: nat): Verdict {
    if |s.comps| == 0 || |s.comps| > MAX_COMPS_IN_SCAN then Rejected(ComponentCount(|s.comps|))
    else if !ComponentsInOrder(|bits|, s.comps) then Rejected(BadScanScript(scanno))
    else if !ProgressiveScanFollows(bits, s) then Rejected(BadProgScript(scanno))
    else Accepted(Sent(bits, s))
  }

  function CheckScans(bits: seq<BitRow>, script: seq<ScanInfo>, scanno: nat): (v: Verdict)
    ensures v.Accepted? ==> |v.bits| == |bits|
    decreases |script|
  {
    if script == [] then Accepted(bits)
    else
      var v := CheckScan(bits, script[0], scanno);
      if v.Rejected? then v else CheckScans(v.bits, script[1..], scanno + 1)
  }

  predicate IsSequential(s: ScanInfo) { s.ss == 0 && s.se == 63 }

  function CheckSequentialScan(n: nat, sent: set<int>, s: ScanInfo, scanno: nat): Option<ScriptError> {
    if |s.comps| == 0 || |s.comps| > MAX_COMPS_IN_SCAN then Some(ComponentCount(|s.comps|))
    else if !ComponentsInOrder(n, s.comps) then Some(BadScanScript(scanno))
    else if !IsSequential(s) || s.ah != 0 || s.al != 0 then Some(BadProgScript(scanno))
    else if exists i :: 0 <= i < |s.comps| && s.comps[i] in sent then Some(BadScanScript(scanno))
    else None
  }

  function CheckSequential(n: nat, sent: set<int>, script: seq<ScanInfo>, scanno: nat): Option<ScriptError>
    decreases |script|
  {
    if script == [] then
      if forall c :: 0 <= c < n ==> c in sent then None else Some(MissingData)
    else
      var e := CheckSequentialScan(n, sent, script[0], scanno);
      if e.Some? then e else CheckSequential(n, sent + ComponentSet(script[0]), script[1..], scanno + 1)
  }

  function ComponentSet(s: ScanInfo): set<int> { set c | c in s.comps }

  predicate DcSent(bits: seq<BitRow>) { forall c :: 0 <= c < |bits| ==> bits[c][0] >= 0 }

  /** What the validator says about a script for `n` components; None when it accepts. */
  function ScriptFault(n: nat, script: seq<ScanInfo>): Option<ScriptError> {
    if script == [] then Some(BadScanScript(0))
    else if IsSequential(script[0]) then CheckSequential(n, {}, script, 1)
    else
      match CheckScans(Fresh(n), script, 1)
      case Rejected(e) => Some(e)
      case Accepted(bits) => if DcSent(bits) then None else Some(MissingData)
  }

  lemma {:induction false} CheckScansConcat(bits: seq<BitRow>, a: seq<ScanInfo>, b: seq<ScanInfo>, scanno: nat)
    ensures CheckScans(bits, a + b, scanno)
         == match CheckScans(bits, a, scanno)
            case Rejected(e) => Rejected(e)
            case Accepted(r) => CheckScans(r, b, scanno + |a|)
    decreases |a|
  {
    hide CheckScan;
    if a == [] {
      assert a + b == b;
    } else {
      assert (a + b)[1..] == a[1..] + b;
      var v := CheckScan(bits, a[0], scanno);
      if v.Accepted? { CheckScansConcat(v.bits, a[1..], b, scanno + 1); }
    }
  }

  /** The rows of the table of bit positions. */
  ghost function Rows(m: array2<int>): (r: seq<BitRow>)
    requires m.Length1 == 64
    reads m
    ensures |r| == m.Length0
  {
    seq(m.Length0, c requires 0 <= c < m.Length0 reads m =>
      seq(64, k requires 0 <= k < 64 reads m => m[c, k]))
  }
}
