/**
 * The garbage-collection statistics a Go process reads from its runtime
 * (`debug.GCStats`), and the step of the `procstats` collector that drops
 * from such a record every pause an earlier poll has already reported.
 *
 * Durations and timestamps are plain integers (nanoseconds). Timestamps are
 * only ever copied, never computed with.
 */
module GCPauses {

  /** One snapshot of the runtime's GC statistics.
      `pause` and `pauseEnd` are parallel and most-recent-first: the entry at
      index i belongs to GC pass number `numGC - i`. `pauseQuantiles` is a
      field the stripping step does not concern. */
  datatype GCStats = GCStats(
    lastGC: int,
    numGC: int,
    pauseTotal: int,
    pause: seq<int>,
    pauseEnd: seq<int>,
    pauseQuantiles: seq<int>)

  /** The runtime fills the two pause histories side by side. */
  predicate WellFormed(gc: GCStats)
  {
    |gc.pause| == |gc.pauseEnd|
  }

  /** The GC pass whose pause is recorded at buffer index i. */
  function PassAt(gc: GCStats, i: nat): int
  {
    gc.numGC - i
  }

  /** How many leading buffer entries belong to passes newer than
      `lastNumGC`: the pass delta, clamped to what the buffer holds. */
  function KeptCount(gc: GCStats, lastNumGC: int): (k: nat)
    ensures k <= |gc.pause|
  {
    var delta := gc.numGC - lastNumGC;
    if delta <= 0 then 0
    else if delta >= |gc.pause| then |gc.pause|
    else delta
  }

  /** The record after stripping: both pause histories cut, in step, to the
      entries of passes newer than `lastNumGC`; nothing else touched. */
  function Stripped(gc: GCStats, lastNumGC: int): (r: GCStats)
    requires WellFormed(gc)
    ensures WellFormed(r)
    // the kept entries are the leading part of each buffer, in buffer order
    ensures r.pause <= gc.pause && r.pauseEnd <= gc.pauseEnd
    // an entry is kept exactly when its pass was not observed before
    ensures forall i :: 0 <= i < |gc.pause| ==>
              (i < |r.pause| <==> PassAt(gc, i) > lastNumGC)
    // every other field is left as it was
    ensures r.(pause := gc.pause, pauseEnd := gc.pauseEnd) == gc
  {
    var k := KeptCount(gc, lastNumGC);
    gc.(pause := gc.pause[..k], pauseEnd := gc.pauseEnd[..k])
  }

  /** Scans the buffer from the most recent pause and cuts both histories at
      the first pass that was already observed. When every buffered pass is
      new (more passes than the buffer holds since the last poll), nothing
      is cut. */
  method StripOutdatedGCPauses(gc: GCStats, lastNumGC: int) returns (r: GCStats)
    requires WellFormed(gc)
    ensures r == Stripped(gc, lastNumGC)
  {
    var i := 0;
    while i < |gc.pause|
      invariant 0 <= i <= |gc.pause|
      invariant forall j :: 0 <= j < i ==> PassAt(gc, j) > lastNumGC
    {
      if PassAt(gc, i) <= lastNumGC {
        return gc.(pause := gc.pause[..i], pauseEnd := gc.pauseEnd[..i]);
      }
      i := i + 1;
    }
    if i > 0 {
      assert PassAt(gc, i - 1) > lastNumGC;
    }
    assert gc.pause[..i] == gc.pause && gc.pauseEnd[..i] == gc.pauseEnd;
    return gc;
  }

  /** How many pauses survive, case by case: the pass delta when the buffer
      holds them all, none when no pass happened, the whole buffer (the
      record unchanged) when more passes happened than it holds. */
  lemma StrippedCount(gc: GCStats, lastNumGC: int)
    requires WellFormed(gc)
    ensures 0 <= gc.numGC - lastNumGC <= |gc.pause| ==>
              |Stripped(gc, lastNumGC).pause| == gc.numGC - lastNumGC
    ensures gc.numGC <= lastNumGC ==>
              Stripped(gc, lastNumGC).pause == [] && Stripped(gc, lastNumGC).pauseEnd == []
    ensures gc.numGC - lastNumGC >= |gc.pause| ==> Stripped(gc, lastNumGC) == gc
  {
  }

  /** Stripping again against the same observed pass removes nothing more. */
  lemma StripIdempotent(gc: GCStats, lastNumGC: int)
    requires WellFormed(gc)
    ensures Stripped(Stripped(gc, lastNumGC), lastNumGC) == Stripped(gc, lastNumGC)
  {
  }

  /** The pass numbers whose pauses a poll reports. */
  function ReportedPasses(gc: GCStats, lastNumGC: int): set<int>
    requires WellFormed(gc)
  {
    set i | 0 <= i < |Stripped(gc, lastNumGC).pause| :: PassAt(gc, i)
  }

  /** A poll reports exactly the passes newer than the last observed one that
      the buffer still holds. */
  lemma ReportedPassesExact(gc: GCStats, lastNumGC: int, p: int)
    requires WellFormed(gc)
    ensures p in ReportedPasses(gc, lastNumGC) <==>
              lastNumGC < p <= gc.numGC && gc.numGC - |gc.pause| < p
  {
    if lastNumGC < p <= gc.numGC && gc.numGC - |gc.pause| < p {
      var i := gc.numGC - p;
      assert 0 <= i < |gc.pause| && PassAt(gc, i) == p;
      assert i < |Stripped(gc, lastNumGC).pause|;
    }
  }

  /** Two consecutive polls, the second remembering the first's pass number,
      never report a pass twice; when neither poll overflowed the buffer,
      together they report every pass since the first poll's boundary. */
  lemma ConsecutivePollsReportEachPassOnce(first: GCStats, second: GCStats, lastNumGC: int)
    requires WellFormed(first) && WellFormed(second)
    ensures ReportedPasses(first, lastNumGC) !! ReportedPasses(second, first.numGC)
    ensures lastNumGC <= first.numGC <= second.numGC &&
            first.numGC - lastNumGC <= |first.pause| &&
            second.numGC - first.numGC <= |second.pause| ==>
              forall p ::
                (p in ReportedPasses(first, lastNumGC) || p in ReportedPasses(second, first.numGC))
                <==> lastNumGC < p <= second.numGC
  {
    forall p | p in ReportedPasses(first, lastNumGC)
      ensures p !in ReportedPasses(second, first.numGC)
    {
      ReportedPassesExact(first, lastNumGC, p);
      ReportedPassesExact(second, first.numGC, p);
    }
    if lastNumGC <= first.numGC <= second.numGC &&
       first.numGC - lastNumGC <= |first.pause| &&
       second.numGC - first.numGC <= |second.pause|
    {
      forall p: int
        ensures (p in ReportedPasses(first, lastNumGC) || p in ReportedPasses(second, first.numGC))
                <==> lastNumGC < p <= second.numGC
      {
        ReportedPassesExact(first, lastNumGC, p);
        ReportedPassesExact(second, first.numGC, p);
      }
    }
  }

  /** The test scenario: ten buffered pauses of 100µs at pass 10, last
      observed pass 8. The two most recent pauses remain, most-recent-first,
      with their own end times, and every other field is unchanged. */
  method StripOutdatedGCPausesExample(now: int) returns (r: GCStats)
    ensures r == GCStats(
              now - 1_000_000_000, 10, 1_000_000,
              [100_000, 100_000],
              [now - 1_000_000_000 - 100_000, now - 1_000_000_000 - 200_000],
              [])
  {
    var gc := GCStats(
      now - 1_000_000_000, 10, 1_000_000,
      seq(10, i => 100_000),
      seq(10, i => now - 1_000_000_000 - (i + 1) * 100_000),
      []);
    r := StripOutdatedGCPauses(gc, 8);
  }
}
