# procstats GC-pause differencing, in Dafny

This project models the Go-runtime collector of the `procstats` package of
`stats` (a metrics library for Go). The collector polls the runtime's
garbage-collection statistics again and again. The runtime keeps a
most-recent-first history of GC pauses: the entry at index `i` belongs to
pass `NumGC - i`. On each poll the collector must report only the pauses of
passes it has not seen yet. The step that does this, `stripOutdatedGCPauses`,
cuts the `Pause` and `PauseEnd` histories of a `debug.GCStats` record down to
the entries of passes newer than the pass number seen at the previous poll.
The collector then emits metric events whose names start with `go.runtime.`
or `go.memstats.`.

- `gc_pauses.dfy` (module `GCPauses`): the `GCStats` record, the stripping
  step and its properties.
- `go_metrics.dfy` (module `GoMetricsCollector`): the `GoMetrics` collector,
  a class holding the `gc` record and the last observed pass number, plus
  its `UpdateMemStats` and `Collect` steps. Events delivered to the metrics
  engine are appended to a ghost log `events`. Derived GC statistics (the
  number of new passes, the cumulative pause time, one event per new pause)
  go in the `go.runtime.` family; the raw memory-allocator counters go in
  the `go.memstats.` family.

Decisions the source leaves open:

- Order. The kept pauses stay in buffer order, most-recent-first, as
  procstats/go_test.go:102-109 expects; nothing is reversed.
- Range. The test only covers a pass delta `NumGC - lastNumGC` inside the
  buffer length. Outside it, the model clamps instead of requiring it. With
  no new pass (delta `<= 0`), both histories become empty. With more new
  passes than the buffer holds, nothing is cut and the record is unchanged.
  `StripOutdatedGCPauses` gets this clamp by scanning the buffer and cutting
  at the first already-observed pass. `GCPauses.StrippedCount` states all
  three cases.
- `Pause` and `PauseEnd` are required to have equal length
  (`GCPauses.WellFormed`). `debug.ReadGCStats` fills both to the same
  length, and both tests set them so (procstats/go_test.go:44-45, 69-92).
  The collector keeps this as part of its invariant.

## Model

| member | source | states |
|---|---|---|
| `GCPauses.KeptCount` | procstats/go_test.go:96-105 | the number of surviving entries never exceeds the buffer length |
| `GCPauses.Stripped` | procstats/go_test.go:96-110 | the result is well formed; `Pause` and `PauseEnd` are prefixes of the originals, in the same order; index `i` is kept exactly when its pass `NumGC - i` is newer than the last observed pass; every other field (`NumGC`, `PauseTotal`, `LastGC`, `PauseQuantiles`) is unchanged |
| `GCPauses.StripOutdatedGCPauses` | procstats/go_test.go:96 | the record the scan returns is the stripped record, with all of `Stripped`'s properties |
| `GCPauses.StrippedCount` | procstats/go_test.go:96-105 | exactly `NumGC - lastNumGC` pauses remain when the delta is within the buffer; none remain when no pass happened; the record is unchanged when the delta reaches or exceeds the buffer length |
| `GCPauses.StripIdempotent` | procstats/go_test.go:96-110 | stripping a stripped record again against the same pass changes nothing |
| `GCPauses.ReportedPassesExact` | procstats/go_test.go:96-105 | a pass is reported exactly when it is newer than the last observed pass, not newer than `NumGC`, and still in the buffer |
| `GCPauses.ConsecutivePollsReportEachPassOnce` | procstats/go_test.go:96-105 | two consecutive polls never report the same pass; if neither overflowed the buffer, together they report every pass after the first poll's boundary up to the second poll's `NumGC` |
| `GCPauses.StripOutdatedGCPausesExample` | procstats/go_test.go:62-113 | with `NumGC = 10`, ten 100µs pauses and last observed pass 8, the result holds exactly the first two pauses and their original end times; `LastGC`, `NumGC` and `PauseTotal` are unchanged; `PauseQuantiles` stays empty |
| `GoMetricsCollector.MemStatsEventsArePrefixed` | procstats/go_test.go:52-59 | every event of a memory-statistics update has a name starting with `go.runtime.` or `go.memstats.` |
| `GoMetricsCollector.PollEventsNonEmptyAndPrefixed` | procstats/go_test.go:18-32 | a full poll emits at least one event, and every name starts with `go.runtime.` or `go.memstats.` |
| `GoMetricsCollector.GCCountMatchesPauseEvents` | procstats/go_test.go:42-50 | when the buffer holds every pass since the previous poll, the GC count event carries `NumGC` minus the previous pass number, which equals the number of pause events emitted |
| `GoMetricsCollector.PauseEventsReportNewPasses` | procstats/go_test.go:42-50 | after stripping, an update emits a pause event for buffer index `i` exactly when that pass is new, carrying the original duration and end time |
| `GoMetricsCollector.GoMetrics.constructor` | procstats/go_test.go:18 | a new collector has an empty GC record, no observed pass and no emitted events |
| `GoMetricsCollector.GoMetrics.UpdateMemStats` | procstats/go_test.go:43-46 | `gc` becomes the stripped record; the observed pass becomes its `NumGC`; the log grows by exactly the counter events, the GC count (new passes since the previous pass number) and pause total, and one event per kept pause; the record stays well formed and every logged name stays in the two families |
| `GoMetricsCollector.GoMetrics.Collect` | procstats/go_test.go:19-21 | one poll emits the process-level counters, then updates from the new snapshot; the log grows strictly and keeps every name in the two families |
| `GoMetricsCollector.CollectOnFreshCollector` | procstats/go_test.go:13-33 | the first `Collect` of a new collector emits a non-empty set of events, all in the two families |
| `GoMetricsCollector.UpdateAfterOnePass` | procstats/go_test.go:35-60 | with `NumGC = 1` and one 1µs pause set by hand, the update emits events, among them a GC count of 1 and that pause with its end time, all in the two families |

## Left out

- The collector's implementation file is not part of this model. The stripping step follows the behaviour its test fixes. The metric names past the two prefixes (`cpu.num`, `gc.pause`, ...), the family each event is put in, and the set of events emitted stand in for the real ones. Only the two prefixes come from the source.
- Reading the real runtime (`debug.ReadGCStats`, `runtime.ReadMemStats`, goroutine and CPU counts) is a foreign call. Each snapshot is a parameter of `Collect` or `UpdateMemStats`. The memory-allocator counters are an input list that is copied through, one event each.
- The `stats` engine, handler registration and event delivery are not modelled. Emission is appending to the ghost log `events`.
- `time.Now()` and wall-clock arithmetic are left out. Timestamps are opaque integers. They are only copied, or built from a parameter in the test scenario.
- `debug.GCStats` is updated through a pointer in Go. Here it is a value: `StripOutdatedGCPauses` returns the updated record and the collector reassigns its `gc` field. No aliasing of the record is modelled.
- The HTTP transport decorator (httpstats) is not modelled. Its behaviour is only observable through live servers, network I/O, connection hijacking and timed waits.
- Wrap-around of the `NumGC` counter and concurrent polls of one collector are not modelled. Integers are unbounded, and polls are one at a time.
