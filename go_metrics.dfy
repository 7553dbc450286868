/**
 * The `procstats` Go-runtime collector: it keeps the last GC statistics
 * record and the pass number observed at the previous poll, and on every
 * poll emits named metric events. Delivery to the metrics engine is modelled
 * as appending to a ghost log of events.
 */
module GoMetricsCollector {
  import opened GCPauses

  /** The two name families consumers filter on. */
  const RuntimePrefix: string := "go.runtime."
  const MemStatsPrefix: string := "go.memstats."

  /** One metric event: its dotted name, its value and the time it is
      stamped with (an opaque timestamp). */
  datatype Metric = Metric(name: string, value: int, time: int)

  predicate HasCollectorPrefix(name: string)
  {
    RuntimePrefix <= name || MemStatsPrefix <= name
  }

  /** Process-level counters read from the runtime at poll time. */
  datatype RuntimeStats = RuntimeStats(numCPU: int, numGoroutine: int, numCgoCall: int)

  /** One memory-allocator counter copied through from the runtime. */
  datatype Counter = Counter(field: string, value: int)

  /** The events a poll emits for the process-level counters. */
  function RuntimeEvents(rt: RuntimeStats, now: int): seq<Metric>
  {
    [ Metric(RuntimePrefix + "cpu.num", rt.numCPU, now),
      Metric(RuntimePrefix + "goroutine.num", rt.numGoroutine, now),
      Metric(RuntimePrefix + "cgo.calls", rt.numCgoCall, now) ]
  }

  /** The events for the pass-through memory-allocator counters. */
  function CounterEvents(mem: seq<Counter>, now: int): seq<Metric>
  {
    seq(|mem|, i requires 0 <= i < |mem| => Metric(MemStatsPrefix + mem[i].field, mem[i].value, now))
  }

  /** The GC totals of an (already stripped) record: the number of passes
      since the previous poll, whose pass number was `lastNumGC`, and the
      cumulative pause time. Derived GC statistics belong to the runtime
      family. */
  function GCTotalEvents(gc: GCStats, lastNumGC: int, now: int): seq<Metric>
  {
    [ Metric(RuntimePrefix + "gc.count", gc.numGC - lastNumGC, now),
      Metric(RuntimePrefix + "gc.pause.total", gc.pauseTotal, now) ]
  }

  /** One event per pause left in an (already stripped) record, in buffer
      order, each stamped with that pause's own end time. */
  function PauseEvents(gc: GCStats): seq<Metric>
    requires WellFormed(gc)
  {
    seq(|gc.pause|, i requires 0 <= i < |gc.pause| =>
      Metric(RuntimePrefix + "gc.pause", gc.pause[i], gc.pauseEnd[i]))
  }

  /** Everything one memory-statistics update emits, given the record after
      stripping and the pass number of the previous poll. */
  function MemStatsEvents(mem: seq<Counter>, gc: GCStats, lastNumGC: int, now: int): seq<Metric>
    requires WellFormed(gc)
  {
    CounterEvents(mem, now) + GCTotalEvents(gc, lastNumGC, now) + PauseEvents(gc)
  }

  /** Every event a memory-statistics update emits lies in one of the two
      name families. */
  lemma MemStatsEventsArePrefixed(mem: seq<Counter>, gc: GCStats, lastNumGC: int, now: int)
    requires WellFormed(gc)
    ensures forall m :: m in MemStatsEvents(mem, gc, lastNumGC, now) ==> HasCollectorPrefix(m.name)
  {
  }

  /** A full poll emits at least the process-level counters, and every event
      it emits lies in one of the two name families. */
  lemma PollEventsNonEmptyAndPrefixed(rt: RuntimeStats, mem: seq<Counter>, gc: GCStats, lastNumGC: int, now: int)
    requires WellFormed(gc)
    ensures |RuntimeEvents(rt, now) + MemStatsEvents(mem, gc, lastNumGC, now)| > 0
    ensures forall m :: m in RuntimeEvents(rt, now) + MemStatsEvents(mem, gc, lastNumGC, now) ==>
              HasCollectorPrefix(m.name)
  {
    MemStatsEventsArePrefixed(mem, gc, lastNumGC, now);
  }

  /** When the buffer holds every pass since the previous poll, the GC count
      event of an update equals the number of pause events it emits. */
  lemma GCCountMatchesPauseEvents(gc: GCStats, lastNumGC: int, now: int)
    requires WellFormed(gc) && 0 <= gc.numGC - lastNumGC <= |gc.pause|
    ensures GCTotalEvents(Stripped(gc, lastNumGC), lastNumGC, now)[0].value
              == |PauseEvents(Stripped(gc, lastNumGC))|
  {
  }

  /** The pause events of an update are exactly the pauses of passes newer
      than the last observed one, each with its own duration and end time. */
  lemma PauseEventsReportNewPasses(gc: GCStats, lastNumGC: int, i: nat)
    requires WellFormed(gc) && i < |gc.pause|
    ensures i < |PauseEvents(Stripped(gc, lastNumGC))| <==> PassAt(gc, i) > lastNumGC
    ensures i < |PauseEvents(Stripped(gc, lastNumGC))| ==>
              PauseEvents(Stripped(gc, lastNumGC))[i]
                == Metric(RuntimePrefix + "gc.pause", gc.pause[i], gc.pauseEnd[i])
  {
  }

  /** The collector. `gc` is the GC record of the latest poll, `lastNumGC`
      the pass number seen at the previous one (0: none yet); `events` is
      everything delivered to the metrics engine so far. */
  class GoMetrics {
    var gc: GCStats
    var lastNumGC: int
    ghost var events: seq<Metric>

    /** The GC record is well formed, and every event delivered so far lies
        in one of the two name families. */
    ghost predicate Valid()
      reads this
    {
      && WellFormed(gc)
      && forall m :: m in events ==> HasCollectorPrefix(m.name)
    }

    constructor ()
      ensures Valid()
      ensures gc == GCStats(0, 0, 0, [], [], []) && lastNumGC == 0 && events == []
    {
      gc := GCStats(0, 0, 0, [], [], []);
      lastNumGC := 0;
      events := [];
    }

    /** Strips from `gc` the pauses reported before, remembers the new pass
        number, and emits the memory counters, the GC totals and one event
        per remaining pause. */
    method UpdateMemStats(mem: seq<Counter>, now: int)
      requires Valid()
      modifies this
      ensures Valid()
      ensures gc == Stripped(old(gc), old(lastNumGC))
      ensures lastNumGC == old(gc).numGC
      ensures events == old(events) + MemStatsEvents(mem, gc, old(lastNumGC), now)
    {
      var previous := lastNumGC;
      gc := StripOutdatedGCPauses(gc, lastNumGC);
      lastNumGC := gc.numGC;
      MemStatsEventsArePrefixed(mem, gc, previous, now);
      events := events + CounterEvents(mem, now) + GCTotalEvents(gc, previous, now);
      var i := 0;
      while i < |gc.pause|
        invariant 0 <= i <= |gc.pause|
        invariant gc == Stripped(old(gc), old(lastNumGC)) && lastNumGC == old(gc).numGC
        invariant events == old(events) + CounterEvents(mem, now) + GCTotalEvents(gc, previous, now)
                              + PauseEvents(gc)[..i]
      {
        events := events + [Metric(RuntimePrefix + "gc.pause", gc.pause[i], gc.pauseEnd[i])];
        i := i + 1;
      }
      assert PauseEvents(gc)[..i] == PauseEvents(gc);
    }

    /** One full poll: emits the process-level counters, takes the GC
        snapshot just read from the runtime as `gc`, then updates the memory
        statistics from it. */
    method Collect(rt: RuntimeStats, mem: seq<Counter>, snapshot: GCStats, now: int)
      requires Valid() && WellFormed(snapshot)
      modifies this
      ensures Valid()
      ensures gc == Stripped(snapshot, old(lastNumGC)) && lastNumGC == snapshot.numGC
      ensures events == old(events) + RuntimeEvents(rt, now) + MemStatsEvents(mem, gc, old(lastNumGC), now)
      ensures |events| > |old(events)|
    {
      PollEventsNonEmptyAndPrefixed(rt, mem, Stripped(snapshot, lastNumGC), lastNumGC, now);
      events := events + RuntimeEvents(rt, now);
      gc := snapshot;
      UpdateMemStats(mem, now);
    }
  }

  /** A fresh collector's first poll reports something, and only names in
      the two families. */
  method CollectOnFreshCollector(rt: RuntimeStats, mem: seq<Counter>, snapshot: GCStats, now: int)
    returns (g: GoMetrics)
    requires WellFormed(snapshot)
    ensures fresh(g) && g.Valid()
    ensures |g.events| > 0
    ensures forall m :: m in g.events ==> HasCollectorPrefix(m.name)
  {
    g := new GoMetrics();
    g.Collect(rt, mem, snapshot, now);
  }

  /** A fresh collector whose record is set by hand to one GC pass with one
      1µs pause: the update reports one new pass and that pause with its end
      time, and only names in the two families. */
  method UpdateAfterOnePass(mem: seq<Counter>, pauseEnd: int, now: int) returns (g: GoMetrics)
    ensures fresh(g) && g.Valid()
    ensures |g.events| > 0
    ensures Metric(RuntimePrefix + "gc.pause", 1_000, pauseEnd) in g.events
    ensures Metric(RuntimePrefix + "gc.count", 1, now) in g.events
  {
    g := new GoMetrics();
    g.gc := g.gc.(numGC := 1, pause := [1_000], pauseEnd := [pauseEnd]);
    var before := g.gc;
    g.UpdateMemStats(mem, now);
    PauseEventsReportNewPasses(before, 0, 0);
    assert PauseEvents(g.gc)[0] in g.events;
    assert GCTotalEvents(g.gc, 0, now)[0] in g.events;
  }
}
