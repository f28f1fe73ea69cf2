/** Master control of a compression run: which passes are made over the image, with which scan's parameters, and where
    the headers go (prepare_for_pass, pass_startup and finish_pass_master in jcmaster.c, jpeg_finish_compress in
    jcapimin.c). */
module PassMaster {

  /** The parameters of a scan that matter here. */
  datatype ScanKind = ScanKind(ss: nat, ah: nat)

  datatype Job = Job(scans: seq<ScanKind>, optimizeCoding: bool, transcodeOnly: bool) {
    predicate Valid() { |scans| >= 1 }

    /** Huffman DC refinement scans need no table. */
    predicate NeedsNoTable(n: nat)
      requires n < |scans|
    {
      scans[n].ss == 0 && scans[n].ah != 0
    }

    /** Statistics are gathered for scan `n`. The pass that collects the image from the application always does so. */
    predicate Gathers(n: nat)
      requires n < |scans|
    {
      optimizeCoding && (!NeedsNoTable(n) || (n == 0 && !transcodeOnly))
    }

    function TotalPasses(): nat { if optimizeCoding then 2 * |scans| else |scans| }
  }

  datatype PassType = MainPass | HuffOptPass | OutputPass

  /** What happens to the file and to the image. `Coded`: the whole image goes through the entropy coder, with the
      parameters of scan `scan`, either for statistics only or for output. */
  datatype Event = FrameHeader | ScanHeader(scan: nat) | Coded(scan: nat, gather: bool) | FileTrailer

  /** What has to happen for scan `n`. */
  function ScanEvents(job: Job, n: nat): seq<Event>
    requires n < |job.scans|
  {
    (if job.Gathers(n) then [Coded(n, true)] else []) + Output(n)
  }

  function Output(n: nat): seq<Event> {
    (if n == 0 then [FrameHeader] else []) + [ScanHeader(n), Coded(n, false)]
  }

  function ScansEvents(job: Job, n: nat): seq<Event>
    requires n <= |job.scans|
  {
    if n == 0 then [] else ScansEvents(job, n - 1) + ScanEvents(job, n - 1)
  }

  // ---------------------------------------------------------------- what this order means

  /** The headers in a log. */
  function Headers(log: seq<Event>): seq<Event> {
    if log == [] then []
    else Headers(log[..|log| - 1]) + if log[|log| - 1].Coded? then [] else [log[|log| - 1]]
  }

  /** The scans whose data were written, in the order of writing. */
  function Written(log: seq<Event>): seq<nat> {
    if log == [] then []
    else
      var last := log[|log| - 1];
      Written(log[..|log| - 1]) + if last.Coded? && !last.gather then [last.scan] else []
  }

  /** How often the image went through the entropy coder. */
  function Runs(log: seq<Event>): nat {
    if log == [] then 0 else Runs(log[..|log| - 1]) + if log[|log| - 1].Coded? then 1 else 0
  }

  function Skipped(job: Job, n: nat): nat
    requires n <= |job.scans|
  {
    if n == 0 then 0
    else Skipped(job, n - 1) + if job.optimizeCoding && !job.Gathers(n - 1) then 1 else 0
  }

  lemma Snoc(log: seq<Event>, e: Event)
    ensures Headers(log + [e]) == Headers(log) + if e.Coded? then [] else [e]
    ensures Written(log + [e]) == Written(log) + if e.Coded? && !e.gather then [e.scan] else []
    ensures Runs(log + [e]) == Runs(log) + if e.Coded? then 1 else 0
  {
    assert (log + [e])[..|log|] == log;
  }

  /** The frame header comes once and first, then the scan headers in order; the data of every scan are written exactly
      once and in order; and there are as many runs over the image as passes, but for the skipped ones. */
  lemma {:induction false} EachScanOnce(job: Job, n: nat)
    requires n <= |job.scans|
    ensures Headers(ScansEvents(job, n)) == (if n == 0 then [] else [FrameHeader]) + seq(n, i requires 0 <= i < n => ScanHeader(i))
    ensures Written(ScansEvents(job, n)) == seq(n, i requires 0 <= i < n => i)
    ensures Runs(ScansEvents(job, n)) + Skipped(job, n) == if job.optimizeCoding then 2 * n else n
  {
    hide Headers, Written, Runs, ScansEvents;
    if n == 0 {
      EmptyLog();
      assert ScansEvents(job, 0) == [] by { NoScans(job); }
    } else {
      var k := n - 1;
      EachScanOnce(job, k);
      NextScan(job, k);
      var a := ScansEvents(job, k);
      var b := a + if job.Gathers(k) then [Coded(k, true)] else [];
      var c := b + ((if k == 0 then [FrameHeader] else []) + [ScanHeader(k)]);
      StatisticsAdded(a, job.Gathers(k), k);
      HeadersAdded(b, k);
      Snoc(c, Coded(k, false));
    }
  }

  lemma NoScans(job: Job)
    ensures ScansEvents(job, 0) == []
  {
  }

  lemma StatisticsAdded(a: seq<Event>, gathers: bool, k: nat)
    ensures var b := a + if gathers then [Coded(k, true)] else [];
            Headers(b) == Headers(a) && Written(b) == Written(a) && Runs(b) == Runs(a) + if gathers then 1 else 0
  {
    Snoc(a, Coded(k, true));
    assert a + [] == a;
  }

  lemma HeadersAdded(b: seq<Event>, k: nat)
    ensures var headers := (if k == 0 then [FrameHeader] else []) + [ScanHeader(k)];
            Headers(b + headers) == Headers(b) + headers && Written(b + headers) == Written(b) && Runs(b + headers) == Runs(b)
  {
    hide Headers, Written, Runs;
    var c := if k == 0 then b + [FrameHeader] else b;
    Snoc(b, FrameHeader);
    Snoc(c, ScanHeader(k));
    assert c + [ScanHeader(k)] == b + ((if k == 0 then [FrameHeader] else []) + [ScanHeader(k)]);
  }

  /** One scan more: its statistics, its headers, its data. */
  lemma NextScan(job: Job, n: nat)
    requires n < |job.scans|
    ensures ScansEvents(job, n + 1)
         == ScansEvents(job, n) + (if job.Gathers(n) then [Coded(n, true)] else [])
              + ((if n == 0 then [FrameHeader] else []) + [ScanHeader(n)]) + [Coded(n, false)]
  {
  }

  lemma EmptyLog()
    ensures Headers([]) == [] && Written([]) == [] && Runs([]) == 0
  {
  }

  /** How often an event occurs. */
  function Times(log: seq<Event>, e: Event): nat {
    if log == [] then 0 else Times(log[..|log| - 1], e) + if log[|log| - 1] == e then 1 else 0
  }

  lemma {:induction false} TimesOfSum(s: seq<Event>, t: seq<Event>, e: Event)
    ensures Times(s + t, e) == Times(s, e) + Times(t, e)
    decreases |t|
  {
    if t == [] {
      assert s + t == s;
    } else {
      assert (s + t)[..|s + t| - 1] == s + t[..|t| - 1];
      TimesOfSum(s, t[..|t| - 1], e);
    }
  }

  lemma {:induction false} TimesIsZero(s: seq<Event>, e: Event)
    ensures Times(s, e) == 0 <==> e !in s
  {
    if s != [] { TimesIsZero(s[..|s| - 1], e); }
  }

  lemma TimesOfNone(e: Event)
    ensures Times([], e) == 0
  {
  }

  lemma TimesOfOne(x: Event, e: Event)
    ensures Times([x], e) == if x == e then 1 else 0
  {
    assert [x][..0] == [];
  }

  /** Statistics in a finished log, read off the parameters: with optimisation there is one pass for statistics, in front
      of the scan's header, for each scan that starts beyond the DC coefficient or is not a refinement, and for the first
      scan of a run that collects the image; there is none for any other scan. The data of a scan stand
      between its header and the next one. */
  ghost predicate StatisticsAsNeeded(job: Job, log: seq<Event>) {
    forall n :: 0 <= n < |job.scans| ==>
      && Times(log, ScanHeader(n)) == 1
      && Times(log, Coded(n, false)) == 1
      && Times(log, Coded(n, true)) == StatisticsPasses(job, n)
      && Precedes(log, Coded(n, true), ScanHeader(n))
      && Precedes(log, ScanHeader(n), Coded(n, false))
      && Precedes(log, Coded(n, false), ScanHeader(n + 1))
  }

  function StatisticsPasses(job: Job, n: nat): nat
    requires n < |job.scans|
  {
    if !job.optimizeCoding then 0
    else if job.scans[n].ss != 0 || job.scans[n].ah == 0 then 1
    else if n == 0 && !job.transcodeOnly then 1
    else 0
  }

  /** Every `a` stands before every `b`. */
  ghost predicate Precedes(log: seq<Event>, a: Event, b: Event) {
    forall i, j :: 0 <= i < |log| && 0 <= j < |log| && log[i] == a && log[j] == b ==> i < j
  }

  lemma PrecedesInBoth(s: seq<Event>, t: seq<Event>, a: Event, b: Event)
    requires Precedes(s, a, b) && Precedes(t, a, b) && (a !in t || b !in s)
    ensures Precedes(s + t, a, b)
  {
    forall i, j | 0 <= i < |s + t| && 0 <= j < |s + t| && (s + t)[i] == a && (s + t)[j] == b ensures i < j {
      if i < |s| {
        if j < |s| { assert s[i] == a && s[j] == b; }
      } else {
        assert t[i - |s|] == a;
        if j >= |s| { assert t[j - |s|] == b; }
      }
    }
  }

  lemma PrecedesByAbsence(s: seq<Event>, a: Event, b: Event)
    requires a !in s || b !in s
    ensures Precedes(s, a, b)
  {
  }

  /** How often each event occurs in the part of one scan. */
  lemma TimesInScan(job: Job, n: nat, e: Event)
    requires n < |job.scans|
    ensures Times(ScanEvents(job, n), e)
            == (if e == Coded(n, true) then StatisticsPasses(job, n) else 0)
               + (if e == FrameHeader && n == 0 then 1 else 0)
               + (if e == ScanHeader(n) || e == Coded(n, false) then 1 else 0)
  {
    var statistics, frame := if job.Gathers(n) then [Coded(n, true)] else [], if n == 0 then [FrameHeader] else [];
    var head, data := [ScanHeader(n)], [Coded(n, false)];
    assert ScanEvents(job, n) == statistics + (frame + (head + data));
    assert job.Gathers(n) <==> StatisticsPasses(job, n) == 1;
    assert StatisticsPasses(job, n) <= 1;
    TimesOfNone(e);
    hide Times, ScanEvents, StatisticsPasses, Job.Gathers;
    TimesOfSum(statistics, frame + (head + data), e);
    TimesOfSum(frame, head + data, e);
    TimesOfSum(head, data, e);
    TimesOfOne(Coded(n, true), e);
    TimesOfOne(FrameHeader, e);
    TimesOfOne(ScanHeader(n), e);
    TimesOfOne(Coded(n, false), e);
  }

  lemma StatisticsFirst(job: Job, n: nat)
    requires n < |job.scans|
    ensures Precedes(ScanEvents(job, n), Coded(n, true), ScanHeader(n))
  {
    var statistics := if job.Gathers(n) then [Coded(n, true)] else [];
    PrecedesByAbsence(statistics, Coded(n, true), ScanHeader(n));
    PrecedesByAbsence(Output(n), Coded(n, true), ScanHeader(n));
    PrecedesInBoth(statistics, Output(n), Coded(n, true), ScanHeader(n));
  }

  lemma HeaderFirst(job: Job, n: nat)
    requires n < |job.scans|
    ensures Precedes(ScanEvents(job, n), ScanHeader(n), Coded(n, false))
  {
    var before := (if job.Gathers(n) then [Coded(n, true)] else []) + if n == 0 then [FrameHeader] else [];
    assert ScanEvents(job, n) == before + [ScanHeader(n)] + [Coded(n, false)];
    PrecedesByAbsence(before + [ScanHeader(n)], ScanHeader(n), Coded(n, false));
    PrecedesByAbsence([Coded(n, false)], ScanHeader(n), Coded(n, false));
    PrecedesInBoth(before + [ScanHeader(n)], [Coded(n, false)], ScanHeader(n), Coded(n, false));
  }

  /** The order of events around scan `k` in the first `n` scans. */
  ghost predicate InOrder(s: seq<Event>, k: nat) {
    && Precedes(s, Coded(k, true), ScanHeader(k))
    && Precedes(s, ScanHeader(k), Coded(k, false))
    && Precedes(s, Coded(k, false), ScanHeader(k + 1))
  }

  lemma {:induction false} EventsOfScans(job: Job, n: nat, k: nat)
    requires n <= |job.scans|
    ensures var s := ScansEvents(job, n);
            && Times(s, ScanHeader(k)) == Times(s, Coded(k, false)) == (if k < n then 1 else 0)
            && Times(s, Coded(k, true)) == (if k < n then StatisticsPasses(job, k) else 0)
            && Times(s, ScanHeader(k + 1)) == (if k + 1 < n then 1 else 0)
            && InOrder(s, k)
  {
    hide ScanEvents, StatisticsPasses, Precedes, Times;
    if n == 0 {
      PrecedesByAbsence([], Coded(k, true), ScanHeader(k));
      PrecedesByAbsence([], ScanHeader(k), Coded(k, false));
      PrecedesByAbsence([], Coded(k, false), ScanHeader(k + 1));
      TimesIsZero([], ScanHeader(k));
      TimesIsZero([], ScanHeader(k + 1));
      TimesIsZero([], Coded(k, false));
      TimesIsZero([], Coded(k, true));
    } else {
      EventsOfScans(job, n - 1, k);
      var s, t := ScansEvents(job, n - 1), ScanEvents(job, n - 1);
      TimesOfBoth(s, t, ScanHeader(k));
      TimesOfBoth(s, t, ScanHeader(k + 1));
      TimesOfBoth(s, t, Coded(k, false));
      TimesOfBoth(s, t, Coded(k, true));
      TimesInScan(job, n - 1, ScanHeader(k));
      TimesInScan(job, n - 1, ScanHeader(k + 1));
      TimesInScan(job, n - 1, Coded(k, false));
      TimesInScan(job, n - 1, Coded(k, true));
      if k == n - 1 {
        StatisticsFirst(job, k);
        HeaderFirst(job, k);
      } else {
        PrecedesByAbsence(t, Coded(k, true), ScanHeader(k));
        PrecedesByAbsence(t, ScanHeader(k), Coded(k, false));
      }
      PrecedesByAbsence(t, Coded(k, false), ScanHeader(k + 1));
      PrecedesInBoth(s, t, Coded(k, true), ScanHeader(k));
      PrecedesInBoth(s, t, ScanHeader(k), Coded(k, false));
      PrecedesInBoth(s, t, Coded(k, false), ScanHeader(k + 1));
    }
  }

  lemma TimesOfBoth(s: seq<Event>, t: seq<Event>, e: Event)
    ensures Times(s + t, e) == Times(s, e) + Times(t, e)
    ensures Times(s, e) == 0 <==> e !in s
    ensures Times(t, e) == 0 <==> e !in t
  {
    TimesOfSum(s, t, e);
    TimesIsZero(s, e);
    TimesIsZero(t, e);
  }

  lemma FinishedLog(job: Job)
    ensures StatisticsAsNeeded(job, ScansEvents(job, |job.scans|) + [FileTrailer])
  {
    hide ScansEvents, StatisticsPasses, Precedes;
    var s, last := ScansEvents(job, |job.scans|), [FileTrailer];
    forall n | 0 <= n < |job.scans|
      ensures Times(s + last, ScanHeader(n)) == Times(s + last, Coded(n, false)) == 1
      ensures Times(s + last, Coded(n, true)) == StatisticsPasses(job, n)
      ensures Precedes(s + last, Coded(n, true), ScanHeader(n))
      ensures Precedes(s + last, ScanHeader(n), Coded(n, false))
      ensures Precedes(s + last, Coded(n, false), ScanHeader(n + 1))
    {
      EventsOfScans(job, |job.scans|, n);
      TimesOfBoth(s, last, ScanHeader(n));
      TimesOfBoth(s, last, Coded(n, false));
      TimesOfBoth(s, last, Coded(n, true));
      TimesOfOne(FileTrailer, ScanHeader(n));
      TimesOfOne(FileTrailer, Coded(n, false));
      TimesOfOne(FileTrailer, Coded(n, true));
      PrecedesByAbsence(last, Coded(n, true), ScanHeader(n));
      PrecedesInBoth(s, last, Coded(n, true), ScanHeader(n));
      PrecedesByAbsence(last, ScanHeader(n), Coded(n, false));
      PrecedesInBoth(s, last, ScanHeader(n), Coded(n, false));
      PrecedesByAbsence(last, Coded(n, false), ScanHeader(n + 1));
      PrecedesInBoth(s, last, Coded(n, false), ScanHeader(n + 1));
    }
  }

  class CompMaster {
    const job: Job
    var passType: PassType
    var passNumber: nat
    var scanNumber: nat
    var isLastPass: bool
    var callPassStartup: bool
    // What the other modules have been set up for: the current scan parameters, and the entropy coder's mode.
    var curScan: nat
    var gathering: bool
    ghost var log: seq<Event>

    /** jinit_c_master_control. */
    constructor (job: Job)
      requires job.Valid()
      ensures this.job == job && log == [] && BetweenPasses() && passNumber == 0
      ensures passType == if !job.transcodeOnly then MainPass else if job.optimizeCoding then HuffOptPass else OutputPass
      ensures !isLastPass
    {
      this.job := job;
      passType := if !job.transcodeOnly then MainPass else if job.optimizeCoding then HuffOptPass else OutputPass;
      passNumber, scanNumber, isLastPass, callPassStartup := 0, 0, false, false;
      curScan, gathering, log := 0, false, [];
    }

    /** How the pass number goes with the scan number. */
    ghost predicate Counted()
      reads this
    {
      passNumber == if job.optimizeCoding then 2 * scanNumber + (if passType == OutputPass then 1 else 0) else scanNumber
    }

    /** A pass is about to be prepared. */
    ghost predicate BetweenPasses()
      reads this
    {
      && job.Valid() && Counted() && scanNumber < |job.scans| && !callPassStartup
      && (passType == MainPass ==> scanNumber == 0 && !job.transcodeOnly)
      && (passType == HuffOptPass ==> job.optimizeCoding && (scanNumber == 0 ==> job.transcodeOnly))
      && (passType == OutputPass && job.optimizeCoding ==> curScan == scanNumber)
      && log == ScansEvents(job, scanNumber) +
                (if passType == OutputPass && job.Gathers(scanNumber) then [Coded(scanNumber, true)] else [])
      && (isLastPass <==> passNumber == job.TotalPasses())
    }

    /** All passes are done. */
    ghost predicate Done()
      reads this
    {
      && job.Valid() && isLastPass && scanNumber == |job.scans| && passNumber == job.TotalPasses()
      && log == ScansEvents(job, |job.scans|)
    }

    /** A pass has been prepared: the image can be put through. */
    ghost predicate Prepared()
      reads this
    {
      && job.Valid() && Counted() && scanNumber < |job.scans|
      && curScan == scanNumber && (gathering <==> passType != OutputPass && job.optimizeCoding)
      && (passType == MainPass ==> scanNumber == 0 && !job.transcodeOnly)
      && (passType == HuffOptPass ==> job.Gathers(scanNumber))
      && (isLastPass <==> passNumber == job.TotalPasses() - 1)
      && (callPassStartup <==> passType == MainPass && !job.optimizeCoding)
      && log == ScansEvents(job, scanNumber)
              + (if passType == OutputPass && job.Gathers(scanNumber) then [Coded(scanNumber, true)] else [])
              + if passType == OutputPass then (if scanNumber == 0 then [FrameHeader] else []) + [ScanHeader(scanNumber)]
                else []
    }

    /** prepare_for_pass. */
    method PrepareForPass()
      requires BetweenPasses() && !isLastPass
      modifies this
      ensures Prepared()
      ensures old(passType) == HuffOptPass && job.NeedsNoTable(scanNumber) ==>
                passType == OutputPass && passNumber == old(passNumber) + 1
      ensures !(old(passType) == HuffOptPass && job.NeedsNoTable(scanNumber)) ==>
                passType == old(passType) && passNumber == old(passNumber)
    {
      match passType {
        case MainPass =>
          SelectScanParameters();
          gathering := job.optimizeCoding;
          callPassStartup := !job.optimizeCoding;
        case HuffOptPass =>
          SelectScanParameters();
          if !job.NeedsNoTable(curScan) {
            gathering := true;
            callPassStartup := false;
          } else {
            passType := OutputPass;
            passNumber := passNumber + 1;
            PrepareOutput();
          }
        case OutputPass =>
          PrepareOutput();
      }
      isLastPass := passNumber == job.TotalPasses() - 1;
    }

    /** select_scan_parameters and per_scan_setup. */
    method SelectScanParameters()
      modifies this`curScan
      ensures curScan == scanNumber
    {
      curScan := scanNumber;
    }

    /** The output_pass case of prepare_for_pass. */
    method PrepareOutput()
      modifies this`curScan, this`gathering, this`log, this`callPassStartup
      ensures curScan == if job.optimizeCoding then old(curScan) else scanNumber
      ensures !gathering && !callPassStartup
      ensures log == old(log) + ((if scanNumber == 0 then [FrameHeader] else []) + [ScanHeader(curScan)])
    {
      if !job.optimizeCoding { SelectScanParameters(); }
      gathering := false;
      if scanNumber == 0 { log := log + [FrameHeader]; }
      log := log + [ScanHeader(curScan)];
      callPassStartup := false;
    }

    /** pass_startup. */
    method PassStartup()
      requires Prepared() && callPassStartup
      modifies this`callPassStartup, this`log
      ensures !callPassStartup && log == old(log) + [FrameHeader, ScanHeader(curScan)]
    {
      callPassStartup := false;
      log := log + [FrameHeader, ScanHeader(curScan)];
    }

    /** The image goes through the coefficient controller and the entropy coder: scan line by scan line from the
        application in a main pass, from the coefficient buffer otherwise. */
    method PutThrough()
      requires Prepared()
      modifies this`callPassStartup, this`log
      ensures !callPassStartup
      ensures log == old(log) + (if old(callPassStartup) then [FrameHeader, ScanHeader(curScan)] else []) + [Coded(curScan, gathering)]
    {
      if callPassStartup { PassStartup(); }
      log := log + [Coded(curScan, gathering)];
    }

    /** finish_pass_master. */
    method FinishPass()
      modifies this`passType, this`scanNumber, this`passNumber
      ensures passNumber == old(passNumber) + 1
      ensures match old(passType)
              case MainPass => passType == OutputPass && scanNumber == old(scanNumber) + if job.optimizeCoding then 0 else 1
              case HuffOptPass => passType == OutputPass && scanNumber == old(scanNumber)
              case OutputPass => && passType == (if job.optimizeCoding then HuffOptPass else OutputPass)
                                 && scanNumber == old(scanNumber) + 1
    {
      match passType {
        case MainPass =>
          passType := OutputPass;
          if !job.optimizeCoding { scanNumber := scanNumber + 1; }
        case HuffOptPass =>
          passType := OutputPass;
        case OutputPass =>
          if job.optimizeCoding { passType := HuffOptPass; }
          scanNumber := scanNumber + 1;
      }
      passNumber := passNumber + 1;
    }

    /** One pass, from its preparation to its end. */
    method OnePass()
      requires BetweenPasses() && !isLastPass
      modifies this
      ensures if isLastPass then Done() else BetweenPasses()
      ensures passNumber > old(passNumber)
    {
      hide ScansEvents;
      PrepareForPass();
      NextScan(job, scanNumber);
      ghost var n, done := scanNumber, ScansEvents(job, scanNumber);
      assert done + [] == done && done + [] + [] == done && log + [] == log;
      assert [FrameHeader, ScanHeader(n)] == [FrameHeader] + [ScanHeader(n)];
      PutThrough();
      assert gathering ==> log == done + [Coded(n, true)];
      assert !gathering ==> log == ScansEvents(job, n + 1);
      FinishPass();
    }

    /** The passes of a run that starts with a fresh master object: the first one while the application hands over its
        scan lines, if it does, and the others in jpeg_finish_compress. */
    method Compress()
      requires BetweenPasses() && passNumber == 0 && log == [] && !isLastPass
      modifies this
      ensures passNumber == job.TotalPasses() && log == ScansEvents(job, |job.scans|) + [FileTrailer]
      ensures StatisticsAsNeeded(job, log)
    {
      hide ScansEvents, StatisticsAsNeeded;
      if passType == MainPass { OnePass(); }
      while !isLastPass
        invariant if isLastPass then Done() else BetweenPasses()
        decreases job.TotalPasses() - passNumber
      {
        OnePass();
      }
      log := log + [FileTrailer];
      FinishedLog(job);
    }
  }
}
