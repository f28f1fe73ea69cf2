/** The decoder's view of a scan sequence: the checks at the start of every scan (start_pass in jdarith.c and
    start_pass_huff_decoder in jdhuff.c), and why an accepted script passes them. */
module DecoderProgression {
  import opened Wrappers
  import opened ScanScript

  /** The error exit, or the number of warnings and the bit positions after the scan. */
  datatype Progress = BadProgression | Checked(warnings: nat, bits: seq<BitRow>)

  /** The header fields of a scan are unsigned bytes, and its components exist. */
  predicate FromHeader(n: nat, s: ScanInfo) {
    && 0 <= s.ss <= 255 && 0 <= s.se <= 255 && 0 <= s.ah <= 15 && 0 <= s.al <= 15
    && forall i :: 0 <= i < |s.comps| ==> 0 <= s.comps[i] < n
  }

  predicate BadParameters(s: ScanInfo, limSe: nat) {
    || (s.ss == 0 && s.se != 0)
    || (s.ss != 0 && (s.se < s.ss || s.se > limSe || |s.comps| != 1))
    || (s.ah != 0 && s.ah - 1 != s.al)
    || s.al > 13
  }

  /** Coefficients before `end` whose high bit is not where the last scan left it. */
  function Mismatches(row: BitRow, ss: nat, end: nat, ah: int): nat
    requires ss <= end <= 64
    decreases end
  {
    if end == ss then 0
    else
      var expected := if row[end - 1] < 0 then 0 else row[end - 1];
      Mismatches(row, ss, end - 1, ah) + if ah != expected then 1 else 0
  }

  /** A warning for every coefficient whose high bit does not continue; before its first scan that is bit 0. */
  lemma {:induction false} MismatchesAre(row: BitRow, ss: nat, end: nat, ah: int)
    requires ss <= end <= 64
    ensures Mismatches(row, ss, end, ah) == |set k: nat | ss <= k < end && ah != (if row[k] >= 0 then row[k] else 0)|
    decreases end
  {
    var now := set k: nat | ss <= k < end && ah != (if row[k] >= 0 then row[k] else 0);
    if end > ss {
      MismatchesAre(row, ss, end - 1, ah);
      var before := set k: nat | ss <= k < end - 1 && ah != (if row[k] >= 0 then row[k] else 0);
      assert now == before + if ah != (if row[end - 1] >= 0 then row[end - 1] else 0) then {end - 1} else {};
    } else {
      assert now == {};
    }
  }

  /** The record after a scan: the band of each of its components stands at the scan's last bit. */
  lemma {:induction false} RecordAfter(bits: seq<BitRow>, s: ScanInfo, n: nat, c: nat, k: nat)
    requires FromHeader(|bits|, s) && s.ss <= s.se < 64 && n <= |s.comps| && c < |bits| && k < 64
    ensures CheckTo(bits, s, n).bits[c][k] == if c in s.comps[..n] && s.ss <= k <= s.se then s.al else bits[c][k]
  {
    if n > 0 {
      RecordAfter(bits, s, n - 1, c, k);
      assert s.comps[..n] == s.comps[..n - 1] + [s.comps[n - 1]];
    }
  }

  function RowWarnings(row: BitRow, s: ScanInfo): nat
    requires 0 <= s.ss <= s.se < 64
  {
    Mismatches(row, s.ss, s.se + 1, s.ah) + if s.ss != 0 && row[0] < 0 then 1 else 0
  }

  /** The first `n` components of the scan, one after the other. */
  function CheckTo(bits: seq<BitRow>, s: ScanInfo, n: nat): (p: Progress)
    requires FromHeader(|bits|, s) && s.ss <= s.se < 64 && n <= |s.comps|
    ensures p.Checked? && |p.bits| == |bits|
  {
    if n == 0 then Checked(0, bits)
    else
      var p, c := CheckTo(bits, s, n - 1), s.comps[n - 1];
      Checked(p.warnings + RowWarnings(p.bits[c], s), p.bits[c := SentRow(p.bits[c], s)])
  }

  function CheckPass(bits: seq<BitRow>, s: ScanInfo, limSe: nat): (p: Progress)
    requires FromHeader(|bits|, s) && limSe <= 63
    ensures p.Checked? ==> |p.bits| == |bits|
  {
    if BadParameters(s, limSe) then BadProgression else CheckTo(bits, s, |s.comps|)
  }

  function CheckPasses(bits: seq<BitRow>, scans: seq<ScanInfo>, limSe: nat): (p: Progress)
    requires (forall i :: 0 <= i < |scans| ==> FromHeader(|bits|, scans[i])) && limSe <= 63
    decreases |scans|
  {
    if scans == [] then Checked(0, bits)
    else
      match CheckPass(bits, scans[0], limSe)
      case BadProgression => BadProgression
      case Checked(w, bits1) =>
        match CheckPasses(bits1, scans[1..], limSe)
        case BadProgression => BadProgression
        case Checked(v, bits2) => Checked(w + v, bits2)
  }

  /** The check as the decoder runs it, over its own table of bit positions. */
  method StartPass(coefBits: array2<int>, s: ScanInfo, limSe: nat) returns (bad: bool, warnings: nat)
    requires coefBits.Length1 == 64 && FromHeader(coefBits.Length0, s) && limSe <= 63
    modifies coefBits
    ensures var p := CheckPass(old(Rows(coefBits)), s, limSe);
            if bad then p == BadProgression else p == Checked(warnings, Rows(coefBits))
    ensures bad <==> || (s.ss == 0 && s.se > 0) || (s.ss > 0 && (s.se < s.ss || s.se > limSe || |s.comps| != 1))
                     || (s.ah > 0 && s.al != s.ah - 1) || s.al >= 14
  {
    warnings := 0;
    if s.ss == 0 {
      if s.se != 0 { return true, 0; }
    } else {
      if s.se < s.ss || s.se > limSe { return true, 0; }
      if |s.comps| != 1 { return true, 0; }
    }
    if s.ah != 0 {
      if s.ah - 1 != s.al { return true, 0; }
    }
    if s.al > 13 { return true, 0; }
    for ci := 0 to |s.comps|
      invariant CheckTo(old(Rows(coefBits)), s, ci) == Checked(warnings, Rows(coefBits))
    {
      var w := StartComponent(coefBits, s, s.comps[ci]);
      warnings := warnings + w;
    }
    bad := false;
  }

  method StartComponent(coefBits: array2<int>, s: ScanInfo, cindex: nat) returns (warnings: nat)
    requires coefBits.Length1 == 64 && cindex < coefBits.Length0 && 0 <= s.ss <= s.se < 64
    modifies coefBits
    ensures var before := old(Rows(coefBits));
            && warnings == RowWarnings(before[cindex], s)
            && Rows(coefBits) == before[cindex := SentRow(before[cindex], s)]
  {
    ghost var row := Rows(coefBits)[cindex];
    warnings := 0;
    if s.ss != 0 && coefBits[cindex, 0] < 0 {
      warnings := warnings + 1;
    }
    ghost var first := warnings;
    for coefi := s.ss to s.se + 1
      invariant warnings == first + Mismatches(row, s.ss, coefi, s.ah)
      invariant forall j :: s.ss <= j < coefi ==> coefBits[cindex, j] == s.al
      invariant forall j :: 0 <= j < 64 && !(s.ss <= j < coefi) ==> coefBits[cindex, j] == row[j]
      invariant forall d, j :: 0 <= d < coefBits.Length0 && 0 <= j < 64 && d != cindex ==>
                  coefBits[d, j] == old(coefBits[d, j])
    {
      var expected := if coefBits[cindex, coefi] < 0 then 0 else coefBits[cindex, coefi];
      if s.ah != expected {
        warnings := warnings + 1;
      }
      coefBits[cindex, coefi] := s.al;
    }
    forall d | 0 <= d < coefBits.Length0
      ensures Rows(coefBits)[d] == old(Rows(coefBits))[cindex := SentRow(row, s)][d]
    {
    }
  }

  // ---------------------------------------------------------------- accepted scripts

  lemma {:induction false} NoMismatches(row: BitRow, s: ScanInfo, end: nat)
    requires ParametersInRange(s) && RowFollows(row, s) && s.ss <= end <= s.se + 1
    ensures Mismatches(row, s.ss, end, s.ah) == 0
    decreases end
  {
    if end > s.ss {
      NoMismatches(row, s, end - 1);
      assert CoefficientFollows(row[end - 1], s.ah, s.al);
    }
  }

  /** A scan that the validator lets through has no fault for the decoder, and both keep the same record. */
  lemma {:induction false} AcceptedComponents(bits: seq<BitRow>, s: ScanInfo, n: nat)
    requires ComponentsInOrder(|bits|, s.comps) && ProgressiveScanFollows(bits, s) && n <= |s.comps|
    ensures FromHeader(|bits|, s)
    ensures CheckTo(bits, s, n) == Checked(0, SentTo(bits, s, n))
    decreases n
  {
    hide Mismatches;
    if n > 0 {
      AcceptedComponents(bits, s, n - 1);
      var c := s.comps[n - 1];
      SentOneMore(bits, s, n - 1);
      assert RowFollows(bits[c], s);
      NoMismatches(bits[c], s, s.se + 1);
    }
  }

  lemma AcceptedScan(bits: seq<BitRow>, s: ScanInfo, scanno: nat)
    requires CheckScan(bits, s, scanno).Accepted?
    ensures FromHeader(|bits|, s)
    ensures CheckPass(bits, s, 63) == Checked(0, CheckScan(bits, s, scanno).bits)
  {
    AcceptedComponents(bits, s, |s.comps|);
    assert s.comps[..|s.comps|] == s.comps;
    assert SentTo(bits, s, |s.comps|) == Sent(bits, s);
    RefinedByOne(bits, s);
  }

  lemma RefinedByOne(bits: seq<BitRow>, s: ScanInfo)
    requires ComponentsInOrder(|bits|, s.comps) && ProgressiveScanFollows(bits, s) && s.comps != []
    ensures s.ah != 0 ==> s.al == s.ah - 1
  {
    var row := bits[s.comps[0]];
    assert RowFollows(row, s) && CoefficientFollows(row[s.ss], s.ah, s.al);
  }

  lemma {:induction false} AcceptedScans(bits: seq<BitRow>, script: seq<ScanInfo>, scanno: nat)
    requires CheckScans(bits, script, scanno).Accepted?
    ensures forall i :: 0 <= i < |script| ==> FromHeader(|bits|, script[i])
    ensures CheckPasses(bits, script, 63) == Checked(0, CheckScans(bits, script, scanno).bits)
    decreases |script|
  {
    hide CheckScan, CheckPass;
    if script != [] {
      AcceptedScan(bits, script[0], scanno);
      var v := CheckScan(bits, script[0], scanno);
      AcceptedScans(v.bits, script[1..], scanno + 1);
      assert forall i :: 0 < i < |script| ==> script[i] == script[1..][i - 1];
    }
  }

  /** Sequential scans: any of these conditions is a warning. */
  predicate NotSequentialWarning(s: ScanInfo, limSe: nat, baseline: bool) {
    s.ss != 0 || s.ah != 0 || s.al != 0 || ((baseline || s.se < 64) && s.se != limSe)
  }

  lemma {:induction false} AcceptedSequentialScans(n: nat, sent: set<int>, script: seq<ScanInfo>, scanno: nat)
    requires CheckSequential(n, sent, script, scanno).None?
    ensures forall i, baseline :: 0 <= i < |script| ==> !NotSequentialWarning(script[i], 63, baseline)
    ensures forall c :: 0 <= c < n ==> c in sent || exists i :: 0 <= i < |script| && c in script[i].comps
    decreases |script|
  {
    if script != [] {
      AcceptedSequentialScans(n, sent + ComponentSet(script[0]), script[1..], scanno + 1);
      assert forall i :: 0 < i < |script| ==> script[i] == script[1..][i - 1];
      forall c | 0 <= c < n ensures c in sent || exists i :: 0 <= i < |script| && c in script[i].comps {
        if c !in sent && c !in script[0].comps {
          var i :| 0 <= i < |script[1..]| && c in script[1..][i].comps;
          assert c in script[i + 1].comps;
        }
      }
    }
  }

  /** A script that the validator accepts is decoded without an error and without a warning, full 8x8 blocks
      assumed; the decoder's record of bit positions ends as the validator's did. */
  lemma AcceptedScriptsDecodeCleanly(n: nat, script: seq<ScanInfo>)
    requires ScriptFault(n, script).None?
    ensures script != []
    ensures !IsSequential(script[0]) ==>
              && CheckScans(Fresh(n), script, 1).Accepted?
              && (forall i :: 0 <= i < |script| ==> FromHeader(n, script[i]))
              && CheckPasses(Fresh(n), script, 63) == Checked(0, CheckScans(Fresh(n), script, 1).bits)
    ensures IsSequential(script[0]) ==>
              forall i, baseline :: 0 <= i < |script| ==> !NotSequentialWarning(script[i], 63, baseline)
  {
    if IsSequential(script[0]) {
      AcceptedSequentialScans(n, {}, script, 1);
    } else {
      AcceptedScans(Fresh(n), script, 1);
    }
  }
}
