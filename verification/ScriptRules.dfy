/** The rules for scan scripts, read off the script alone (validate_script in jcmaster.c): what is wrong with a scan in
    view of the scans before it, and what is missing at the end. The validator, which keeps a record of what has been
    sent, says exactly this. */
module ScriptRules {
  import opened Wrappers
  import opened ScanScript

  /** The scan sends coefficient `k` of component `c`. */
  predicate Sends(s: ScanInfo, c: int, k: int) { c in s.comps && s.ss <= k <= s.se }

  /** The bit position at which the latest of the first `n` scans that send the coefficient stops, -1 if there is none. */
  function LastAl(script: seq<ScanInfo>, n: nat, c: int, k: int): (al: int)
    requires n <= |script|
  {
    if n == 0 then -1 else if Sends(script[n - 1], c, k) then script[n - 1].al else LastAl(script, n - 1, c, k)
  }

  /** The scan `j` is the latest that sends the coefficient, or there is none. */
  lemma {:induction false} LastAlIs(script: seq<ScanInfo>, n: nat, c: int, k: int, j: int)
    requires -1 <= j < n <= |script| && (j >= 0 ==> Sends(script[j], c, k))
    requires forall i :: j < i < n ==> !Sends(script[i], c, k)
    ensures LastAl(script, n, c, k) == if j < 0 then -1 else script[j].al
    decreases n
  {
    if n > 0 && j < n - 1 { LastAlIs(script, n - 1, c, k, j); }
  }

  /** What is wrong with scan `i`; errors count scans from one. */
  ghost function Fault(n: nat, script: seq<ScanInfo>, i: nat): Option<ScriptError>
    requires i < |script|
  {
    var s := script[i];
    if |s.comps| < 1 || |s.comps| > 4 then Some(ComponentCount(|s.comps|))
    else if exists j :: 0 <= j < |s.comps| && !(0 <= s.comps[j] < n) then Some(BadScanScript(i + 1))
    else if exists j :: 0 < j < |s.comps| && s.comps[j - 1] >= s.comps[j] then Some(BadScanScript(i + 1))
    else if script[0].ss == 0 && script[0].se == 63 then
      if s.ss != 0 || s.se != 63 || s.ah != 0 || s.al != 0 then Some(BadProgScript(i + 1))
      else if exists c :: c in s.comps && SentBefore(script, i, c) then Some(BadScanScript(i + 1))
      else None
    else if OutOfRange(s) || exists c :: c in s.comps && OutOfTurn(script, i, c) then Some(BadProgScript(i + 1))
    else None
  }

  ghost predicate SentBefore(script: seq<ScanInfo>, i: nat, c: int)
    requires i <= |script|
  {
    exists j :: 0 <= j < i && c in script[j].comps
  }

  /** Parameters that no progressive scan may have. */
  predicate OutOfRange(s: ScanInfo) {
    || s.ss < 0 || s.se > 63 || s.ss > s.se || s.ah < 0 || s.ah > 10 || s.al < 0 || s.al > 10
    || (s.ss == 0 && s.se > 0) || (s.ss > 0 && |s.comps| != 1)
  }

  /** A band comes before the DC coefficient, or some coefficient does not start with all its high bits, or does not go
      on where it stopped with one bit more. */
  predicate OutOfTurn(script: seq<ScanInfo>, i: nat, c: int)
    requires i < |script|
  {
    var s := script[i];
    || (s.ss > 0 && LastAl(script, i, c, 0) < 0)
    || exists k :: s.ss <= k <= s.se &&
         var last := LastAl(script, i, c, k);
         if last < 0 then s.ah != 0 else s.ah != last || s.al != last - 1
  }

  /** The fault of the first faulty scan from `i` on. */
  ghost function FirstFault(n: nat, script: seq<ScanInfo>, i: nat): Option<ScriptError>
    requires i <= |script|
    decreases |script| - i
  {
    if i == |script| then None
    else if Fault(n, script, i).Some? then Fault(n, script, i)
    else FirstFault(n, script, i + 1)
  }

  /** Some scan sends the DC coefficient of the component. */
  ghost predicate HasDc(script: seq<ScanInfo>, c: int) {
    exists i :: 0 <= i < |script| && c in script[i].comps && script[i].ss == 0
  }

  ghost predicate IsVerdict(n: nat, script: seq<ScanInfo>, e: Option<ScriptError>) {
    if script == [] then e == Some(BadScanScript(0))
    else if FirstFault(n, script, 0).Some? then e == FirstFault(n, script, 0)
    else if forall c :: 0 <= c < n ==> HasDc(script, c) then e == None
    else e == Some(MissingData)
  }

  // ---------------------------------------------------------------- progressive scripts

  /** The record holds what the first `i` scans have sent. */
  ghost predicate Records(script: seq<ScanInfo>, i: nat, bits: seq<BitRow>) {
    i <= |script|
    && forall c, k :: 0 <= c < |bits| && 0 <= k < 64 ==> bits[c][k] == LastAl(script, i, c, k)
  }

  lemma OrderIsRule(n: nat, comps: seq<int>)
    ensures ComponentsInOrder(n, comps) <==>
              && !(exists j :: 0 <= j < |comps| && !(0 <= comps[j] < n))
              && !(exists j :: 0 < j < |comps| && comps[j - 1] >= comps[j])
  {
  }

  lemma TurnIsRule(script: seq<ScanInfo>, i: nat, bits: seq<BitRow>, c: int)
    requires Records(script, i, bits) && i < |script| && 0 <= c < |bits| && ParametersInRange(script[i])
    ensures RowFollows(bits[c], script[i]) <==> !OutOfTurn(script, i, c)
  {
  }

  /** One scan: rejected for its fault, or recorded. */
  lemma CheckIsRule(n: nat, script: seq<ScanInfo>, i: nat, bits: seq<BitRow>)
    requires Records(script, i, bits) && |bits| == n && i < |script| && !IsSequential(script[0])
    ensures var v := CheckScan(bits, script[i], i + 1);
            && Fault(n, script, i) == (if v.Rejected? then Some(v.error) else None)
            && (v.Accepted? ==> |v.bits| == n && Records(script, i + 1, v.bits) && !OutOfRange(script[i]))
  {
    var s := script[i];
    OrderIsRule(n, s.comps);
    if ComponentsInOrder(n, s.comps) && ParametersInRange(s) {
      hide OutOfTurn, RowFollows;
      forall c | c in s.comps ensures 0 <= c < n && (RowFollows(bits[c], s) <==> !OutOfTurn(script, i, c)) {
        TurnIsRule(script, i, bits, c);
      }
      forall j | 0 <= j < |s.comps| ensures s.comps[j] in s.comps { }
    }
  }

  lemma {:induction false} ProgressiveFrom(n: nat, script: seq<ScanInfo>, i: nat, bits: seq<BitRow>)
    requires Records(script, i, bits) && |bits| == n && (script != [] ==> !IsSequential(script[0]))
    requires forall j :: 0 <= j < i ==> !OutOfRange(script[j])
    ensures var v := CheckScans(bits, script[i..], i + 1);
            && FirstFault(n, script, i) == (if v.Rejected? then Some(v.error) else None)
            && (v.Accepted? ==> |v.bits| == n && Records(script, |script|, v.bits)
                                && forall j :: 0 <= j < |script| ==> !OutOfRange(script[j]))
    decreases |script| - i
  {
    hide Records, Fault, CheckScan, OutOfRange;
    assert i <= |script| by { RecordsBound(script, i, bits); }
    if i < |script| {
      assert script[i..][0] == script[i] && script[i..][1..] == script[i + 1..];
      CheckIsRule(n, script, i, bits);
      var v := CheckScan(bits, script[i], i + 1);
      if v.Accepted? { ProgressiveFrom(n, script, i + 1, v.bits); }
    }
  }

  lemma RecordsBound(script: seq<ScanInfo>, i: nat, bits: seq<BitRow>)
    requires Records(script, i, bits)
    ensures i <= |script|
  {
  }

  lemma SendsDc(s: ScanInfo, c: int)
    requires !OutOfRange(s)
    ensures s.al >= 0 && (Sends(s, c, 0) <==> c in s.comps && s.ss == 0)
  {
  }

  /** A DC coefficient has a bit position if and only if some scan sent it. */
  lemma {:induction false} DcIsRecorded(script: seq<ScanInfo>, n: nat, c: int)
    requires n <= |script| && forall j :: 0 <= j < n ==> !OutOfRange(script[j])
    ensures LastAl(script, n, c, 0) >= 0 <==> exists i :: 0 <= i < n && c in script[i].comps && script[i].ss == 0
    decreases n
  {
    if n > 0 {
      DcIsRecorded(script, n - 1, c);
      SendsDc(script[n - 1], c);
      hide OutOfRange, Sends;
    }
  }

  lemma ProgressiveVerdict(n: nat, script: seq<ScanInfo>)
    requires script != [] && !IsSequential(script[0])
    ensures IsVerdict(n, script, ScriptFault(n, script))
  {
    hide CheckScans, FirstFault, OutOfRange;
    assert script[0..] == script;
    ProgressiveFrom(n, script, 0, Fresh(n));
    var v := CheckScans(Fresh(n), script, 1);
    if v.Accepted? {
      forall c | 0 <= c < n ensures v.bits[c][0] >= 0 <==> HasDc(script, c) {
        DcIsRecorded(script, |script|, c);
        assert v.bits[c][0] == LastAl(script, |script|, c, 0);
      }
    }
  }

  // ---------------------------------------------------------------- sequential scripts

  /** What the first `i` scans have sent. */
  ghost predicate Marks(script: seq<ScanInfo>, i: nat, sent: set<int>) {
    i <= |script| && forall c :: c in sent <==> SentBefore(script, i, c)
  }

  lemma MarksNext(script: seq<ScanInfo>, i: nat, sent: set<int>)
    requires Marks(script, i, sent) && i < |script|
    ensures Marks(script, i + 1, sent + ComponentSet(script[i]))
  {
    var more := sent + ComponentSet(script[i]);
    forall c ensures c in more <==> SentBefore(script, i + 1, c) {
      if c in script[i].comps {
        assert SentBefore(script, i + 1, c);
      } else if c in sent {
        var j :| 0 <= j < i && c in script[j].comps;
      }
    }
  }

  lemma SequentialIsRule(n: nat, script: seq<ScanInfo>, i: nat, sent: set<int>)
    requires Marks(script, i, sent) && i < |script| && IsSequential(script[0])
    ensures Fault(n, script, i) == CheckSequentialScan(n, sent, script[i], i + 1)
  {
    var s := script[i];
    OrderIsRule(n, s.comps);
    hide SentBefore, ComponentsInOrder;
    if k :| 0 <= k < |s.comps| && s.comps[k] in sent {
      assert s.comps[k] in s.comps && SentBefore(script, i, s.comps[k]);
    }
    if c :| c in s.comps && SentBefore(script, i, c) {
      assert c in sent;
      var k :| 0 <= k < |s.comps| && s.comps[k] == c;
    }
  }

  lemma {:induction false} SequentialFrom(n: nat, script: seq<ScanInfo>, i: nat, sent: set<int>)
    requires Marks(script, i, sent) && script != [] && IsSequential(script[0])
    requires forall j :: 0 <= j < i ==> script[j].ss == 0
    ensures var e := CheckSequential(n, sent, script[i..], i + 1);
            if FirstFault(n, script, i).Some? then e == FirstFault(n, script, i)
            else if forall c :: 0 <= c < n ==> HasDc(script, c) then e == None
            else e == Some(MissingData)
    decreases |script| - i
  {
    hide Marks, Fault, CheckSequentialScan, HasDc;
    assert i <= |script| by { MarksBound(script, i, sent); }
    if i == |script| {
      assert script[i..] == [];
      forall c | 0 <= c < n ensures c in sent <==> HasDc(script, c) { MarkedHasDc(script, sent, c); }
    } else {
      assert script[i..][0] == script[i] && script[i..][1..] == script[i + 1..];
      SequentialIsRule(n, script, i, sent);
      if Fault(n, script, i).None? {
        NoFaultIsDc(n, script, i);
        MarksNext(script, i, sent);
        SequentialFrom(n, script, i + 1, sent + ComponentSet(script[i]));
      }
    }
  }

  lemma MarksBound(script: seq<ScanInfo>, i: nat, sent: set<int>)
    requires Marks(script, i, sent)
    ensures i <= |script|
  {
  }

  lemma MarkedHasDc(script: seq<ScanInfo>, sent: set<int>, c: int)
    requires Marks(script, |script|, sent) && forall j :: 0 <= j < |script| ==> script[j].ss == 0
    ensures c in sent <==> HasDc(script, c)
  {
  }

  lemma NoFaultIsDc(n: nat, script: seq<ScanInfo>, i: nat)
    requires i < |script| && IsSequential(script[0]) && Fault(n, script, i).None?
    ensures script[i].ss == 0
  {
  }

  // ---------------------------------------------------------------- the verdict

  /** The validator reports the fault of the first faulty scan; if there is none, that data are missing if and only if
      some component is in no scan that sends DC coefficients; and otherwise nothing. */
  lemma ValidatorFollowsRules(n: nat, script: seq<ScanInfo>)
    ensures IsVerdict(n, script, ScriptFault(n, script))
  {
    hide CheckSequential, FirstFault, Fault, CheckScans, HasDc;
    if script != [] && IsSequential(script[0]) {
      assert script[0..] == script;
      SequentialFrom(n, script, 0, {});
    } else if script != [] {
      ProgressiveVerdict(n, script);
    }
  }

  /** An accepted script sends the DC coefficients of every component. */
  lemma AcceptedSendsEverything(n: nat, script: seq<ScanInfo>, c: nat)
    requires ScriptFault(n, script) == None && c < n
    ensures exists i :: 0 <= i < |script| && c in script[i].comps && script[i].ss == 0
  {
    hide ScriptFault, FirstFault;
    ValidatorFollowsRules(n, script);
    assert HasDc(script, c);
  }
}
