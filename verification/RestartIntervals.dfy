/** How the restart counter of the entropy coders (restarts_to_go) divides the MCUs of a scan into intervals. */
module RestartIntervals {
  import opened Seqs

  /** The counter after `k` MCUs: when it is zero, a restart marker is due before the next MCU. */
  function ToGo(k: nat, interval: nat): nat
    requires interval > 0
  {
    if k == 0 then interval
    else
      var before := ToGo(k - 1, interval);
      (if before == 0 then interval else before) - 1
  }

  predicate RestartBefore(k: nat, interval: nat) { interval > 0 && ToGo(k, interval) == 0 }

  /** The MCUs, one after the other within each interval. */
  function Intervals<T>(mcus: seq<seq<T>>, interval: nat): (r: seq<seq<T>>)
    ensures |r| >= 1
    decreases |mcus|
  {
    if mcus == [] then [[]]
    else
      var k := |mcus| - 1;
      var before := Intervals(mcus[..k], interval);
      var last := |before| - 1;
      if RestartBefore(k, interval) then before + [mcus[k]] else before[..last] + [before[last] + mcus[k]]
  }

  lemma OneMcuMore<T>(mcus: seq<seq<T>>, mcu: seq<T>, interval: nat)
    ensures var before := Intervals(mcus, interval);
            var last := |before| - 1;
            Intervals(mcus + [mcu], interval)
            == if RestartBefore(|mcus|, interval) then before + [mcu] else before[..last] + [before[last] + mcu]
  {
    assert (mcus + [mcu])[..|mcus|] == mcus;
  }

  /** Nothing is lost or moved. */
  lemma {:induction false} IntervalsHoldAll<T>(mcus: seq<seq<T>>, interval: nat)
    ensures Flat(Intervals(mcus, interval)) == Flat(mcus)
    decreases |mcus|
  {
    if mcus == [] {
      assert Flat([[]]) == Flat<T>([]) by { FlatSnoc<T>([], []); }
    } else {
      var k := |mcus| - 1;
      var before := Intervals(mcus[..k], interval);
      var last := |before| - 1;
      IntervalsHoldAll(mcus[..k], interval);
      assert mcus == mcus[..k] + [mcus[k]];
      FlatSnoc(mcus[..k], mcus[k]);
      if RestartBefore(k, interval) {
        FlatSnoc(before, mcus[k]);
      } else {
        assert before == before[..last] + [before[last]];
        FlatSnoc(before[..last], before[last]);
        FlatSnoc(before[..last], before[last] + mcus[k]);
        Assoc(Flat(before[..last]), before[last], mcus[k]);
      }
    }
  }

  /** The counter starts over after an interval. */
  lemma {:induction false} ToGoStartsOver(k: nat, interval: nat)
    requires interval > 0
    ensures k <= interval ==> ToGo(k, interval) == interval - k
    ensures k >= 1 ==> ToGo(k + interval, interval) == ToGo(k, interval)
    decreases k
  {
    if k > 0 { ToGoStartsOver(k - 1, interval); }
    if k == 1 { ToGoWithin(interval, interval); }
  }

  lemma {:induction false} ToGoWithin(k: nat, interval: nat)
    requires interval > 0 && k <= interval
    ensures ToGo(k, interval) == interval - k
    decreases k
  {
    if k > 0 { ToGoWithin(k - 1, interval); }
  }

  /** Without restarts, or before the first of them, there is one interval. */
  lemma {:induction false} FirstInterval<T>(mcus: seq<seq<T>>, interval: nat)
    requires interval == 0 || |mcus| <= interval
    ensures Intervals(mcus, interval) == [Flat(mcus)]
    decreases |mcus|
  {
    if mcus != [] {
      var k := |mcus| - 1;
      FirstInterval(mcus[..k], interval);
      if interval > 0 { ToGoWithin(k, interval); }
      assert mcus == mcus[..k] + [mcus[k]];
      FlatSnoc(mcus[..k], mcus[k]);
    }
  }

  /** Every interval but the last has exactly `interval` MCUs. */
  lemma {:induction false} IntervalsAreChunks<T>(mcus: seq<seq<T>>, interval: nat)
    requires 0 < interval < |mcus|
    ensures Intervals(mcus, interval) == [Flat(mcus[..interval])] + Intervals(mcus[interval..], interval)
    decreases |mcus|
  {
    hide Intervals, Flat, ToGo;
    var k := |mcus| - 1;
    var front, mcu := mcus[..k], mcus[k];
    assert mcus == front + [mcu];
    OneMcuMore(front, mcu, interval);
    ToGoStartsOver(k - interval, interval);
    if k == interval {
      assert front == mcus[..interval] && mcus[interval..] == [mcu];
      FirstInterval(front, interval);
      OneInterval(mcu, interval);
      ToGoWithin(interval, interval);
    } else {
      IntervalsAreChunks(front, interval);
      var first, later := Flat(mcus[..interval]), front[interval..];
      assert front[..interval] == mcus[..interval] && mcus[interval..] == later + [mcu];
      OneMcuMore(later, mcu, interval);
      LastOfMore(first, Intervals(later, interval), mcu);
    }
  }

  lemma LastOfMore<T>(first: seq<T>, parts: seq<seq<T>>, mcu: seq<T>)
    requires parts != []
    ensures var all := [first] + parts; var n := |all| - 1;
            && all + [mcu] == [first] + (parts + [mcu])
            && all[..n] + [all[n] + mcu] == [first] + (parts[..|parts| - 1] + [parts[|parts| - 1] + mcu])
  {
  }

  lemma OneInterval<T>(mcu: seq<T>, interval: nat)
    requires interval > 0
    ensures Intervals([mcu], interval) == [mcu]
  {
    assert [mcu][..0] == [];
    assert [] + mcu == mcu;
  }
}
