# PC stats agent: sample store and sampling loop

This project models the core of a local monitoring agent written in Go. The agent samples CPU, RAM and
(optionally) GPU figures on a timer. It keeps the most recent samples in a fixed-capacity ring buffer.
An HTTP layer answers "latest sample" and "history of the last N seconds" queries from that buffer.

Four Dafny files, one module each:

- `wrappers.dfy` (`Wrappers`): `Option` (a nil pointer or a value) and `Result` (a value or a Go error).
- `collector.dfy` (`Collector`): `MetricSample` and its CPU/RAM/GPU parts. `Readings` is what one call of
  the system collector observes: the clock, then the answers of the CPU, RAM and GPU sub-collectors.
  `Collect` is `SystemCollector.Collect`, written as a function of those readings.
- `ringbuffer.dfy` (`Storage`): the class `RingBuffer` over an `array<Option<MetricSample>>` with `head`
  and `size`. The ghost sequence `Added` holds every sample ever added. The logical contents are
  `Contents() == Recent(Added, capacity)`, the last `capacity` of them. `Valid()` states
  `0 <= head < capacity` and `size == |Contents()|`. It also states, through `Laid`, that the `i`-th
  oldest sample sits, non-nil, at `(head - size + capacity + i) mod capacity`. History queries filter with
  `NewerThan(contents, cutoff)`. The cutoff is `now` plus `-time.Duration(seconds) * time.Second`. The
  negation comes first, and both it and the product wrap as int64 arithmetic does.
- `agent.dfy` (`Agent`): `collectMetrics`. The ticker and the context become a finite sequence of
  `Event`s: `Tick(readings)` or `Cancel`, in the order the loop's `select` takes them. `Stored(attempts)` is
  the sequence of samples that a sequence of collection attempts adds to the store.
  `TicksBeforeCancel(events)` is the list of ticks that arrive before the first cancellation.

Instants are integers: nanoseconds on one clock. `time.Now()` is a parameter. It is the `now` of
`Readings` for a collection and an argument of `GetHistory` for a query. Metric fields that are
`float64` are kept as opaque 64-bit patterns, because this code never inspects them.

`NewRingBuffer` does not check its capacity. `NewRingBuffer(0)` succeeds with an empty slice, and the
first `Add` then panics on the out-of-range write at ringbuffer.go:34. This model requires
`capacity > 0` of the constructor.

## Model

| member | source | states |
|---|---|---|
| `Collector.Collect` | internal/collector/collector.go:63-91 | Succeeds iff both the CPU and the RAM sub-collector succeed. A CPU error is returned as it is, whatever RAM and GPU would say. A RAM error after a CPU success is returned as it is. On success the timestamp is the time read before collecting, and CPU and RAM are the sub-collectors' values. With no GPU collector, or a GPU error, the sample has no GPU figures. Otherwise the GPU figures are exactly what the GPU collector returned, nil included |
| `Storage.Cutoff` | internal/storage/ringbuffer.go:65 | The cutoff is always within one int64 duration of `now`: at least `now - 2^63` ns and less than `now + 2^63` ns |
| `Storage.CutoffOfOrdinaryWindow` | internal/storage/ringbuffer.go:65 | For a window of at most 9 223 372 036 seconds either way, the cutoff is exactly `now - seconds * 10^9` ns |
| `Storage.OverlongWindowCutsOffInFuture` | internal/storage/ringbuffer.go:65 | A window one second longer overflows `time.Duration`, and the cutoff lands about 292 years after `now` |
| `Storage.OverlongNegativeWindowCutsOffInPast` | internal/storage/ringbuffer.go:65 | A window of −9 223 372 037 seconds overflows `time.Duration` the other way, and the cutoff lands about 292 years before `now` |
| `Storage.WrappedWindowCutsOffInPast` | internal/storage/ringbuffer.go:65 | A window of `2^54` or `-2^54` seconds wraps to the most negative duration, so the cutoff is `now - 2^63` ns |
| `Storage.WrappedWindowKeepsAll` | internal/storage/ringbuffer.go:65-77 | A window of `2^54` or `-2^54` seconds returns every stored sample taken less than `2^63` ns before `now`, in order |
| `Storage.WrapInt64Range` | internal/storage/ringbuffer.go:65 | The int64 conversion gives an int64 and leaves an int64 unchanged |
| `Storage.RingBuffer.constructor` | internal/storage/ringbuffer.go:20-27 | For `capacity > 0`: `capacity` slots, all nil, `head == 0`, `size == 0`, nothing added, and the invariant holds |
| `Storage.RingBuffer.Add` | internal/storage/ringbuffer.go:30-40 | Keeps the invariant. It writes the sample at the old `head` and no other slot, and advances `head` by one, back to `0` after the last slot. `size` grows by one until it reaches `capacity`, then stays. When full, the overwritten slot is the oldest. The contents become the old contents plus the sample, minus the oldest sample when full |
| `Storage.LaidAfterWrite` | internal/storage/ringbuffer.go:34-39 | Writing at the cursor and advancing it keeps every other stored sample in its slot and order. In a full ring the cursor is at the oldest sample, which is the only one dropped |
| `Storage.RecentAfterAppend` | internal/storage/ringbuffer.go:34-39 | The last `n` of the samples added, after one more: the new sample is appended, and the oldest is dropped once `n` are held |
| `Storage.RingBuffer.SlotHolds` | internal/storage/ringbuffer.go:69-75 | The slot the read loops compute for the `i`-th oldest sample, `(start + i) % capacity`, holds that sample and is never nil. So the nil checks drop nothing |
| `Storage.RingBuffer.GetLatest` | internal/storage/ringbuffer.go:43-54 | None exactly when nothing was ever added. Otherwise the most recently added sample |
| `Storage.RingBuffer.GetHistory` | internal/storage/ringbuffer.go:57-80 | Exactly those stored samples, oldest first, taken strictly after the single cutoff `Cutoff(now, seconds)`: `now` minus the wrapped duration of `seconds` seconds. Empty on an empty store |
| `Storage.RingBuffer.GetAll` | internal/storage/ringbuffer.go:83-102 | Exactly the logical contents, oldest first: the last `min(n, capacity)` of the `n` samples added |
| `Storage.RingBuffer.Size` | internal/storage/ringbuffer.go:105-109 | The number of stored samples, `min(n, capacity)` after `n` adds, equal to the length of `GetAll` |
| `Storage.RepeatedReadsAgree` | internal/storage/ringbuffer.go:43-109 | Reads change nothing. Two calls of each read, with no `Add` between them, give equal answers, and `Size` equals the length of `GetAll` |
| `Storage.NewerThanMembers` | internal/storage/ringbuffer.go:70-77 | A sample is in the history iff it is stored and its timestamp is after the cutoff |
| `Storage.NewerThanKeepsAll` | internal/storage/ringbuffer.go:70-77 | A window reaching back past every stored sample returns them all, in order |
| `Storage.NewerThanDropsAll` | internal/storage/ringbuffer.go:70-77 | A cutoff at or after every stored timestamp returns nothing |
| `Storage.NewerThanIsSuffix` | internal/storage/ringbuffer.go:70-77 | When the stored samples are in clock order, the history is a suffix of them: the newest ones. Clock order is a premise here. In Go it comes from the single writer reading a monotonic clock. The model leaves each `Readings.now` free and does not derive it for the store |
| `Storage.EmptyWindowKeepsNothing` | internal/storage/ringbuffer.go:65-77 | A window from −9 223 372 036 s up to 0 s returns nothing that was taken up to `now`. Longer negative windows wrap. Some, such as −9 223 372 037 s or −2^54 s, cut off about 292 years back and keep nearly everything (`OverlongNegativeWindowCutsOffInPast`, `WrappedWindowKeepsAll`) |
| `Storage.WindowExample` | internal/storage/ringbuffer.go:65-77 | Samples 10 s, 5 s and 1 s old: a 6-second window gives the last two, oldest first, and a 0-second window gives none |
| `Storage.NewerThanExtend` | internal/storage/ringbuffer.go:70-77 | Scanning one more stored sample appends it to the history iff it is newer than the cutoff |
| `Agent.StoredAppend` | cmd/agent/main.go:63-83 | The samples stored by two runs of attempts, one after the other, are those of the first followed by those of the second |
| `Agent.FailedAttemptIsSkipped` | cmd/agent/main.go:77-81 | A failed collection adds nothing and does not stop the loop. The attempts after it store exactly what they would otherwise store |
| `Agent.SuccessfulAttemptIsStored` | cmd/agent/main.go:77-83 | A successful collection adds exactly its sample, once, between what came before and what comes after |
| `Agent.StoredMembers` | cmd/agent/main.go:77-83 | Everything stored is the sample of a successful attempt. Every successful attempt's sample is stored. Failures leave no placeholders |
| `Agent.EveryTickAttempted` | cmd/agent/main.go:71-83 | Without a cancellation every tick leads to one attempt, in tick order |
| `Agent.TicksAppend` | cmd/agent/main.go:71-83 | Before any cancellation, the attempts of two runs of ticks are those of the first followed by those of the second |
| `Agent.CancelStops` | cmd/agent/main.go:72-75 | Nothing after a cancellation is attempted: the events after `Cancel` make no difference |
| `Agent.CancelEnds` | cmd/agent/main.go:72-75 | The attempts of a whole event sequence are those of the ticks before its first `Cancel` |
| `Agent.TickExtends` | cmd/agent/main.go:76-77 | A tick before any cancellation adds exactly its own readings to the attempts |
| `Agent.CollectOnce` | cmd/agent/main.go:63-83 | One collection attempt. The store gains the collected sample on success and is unchanged on error |
| `Agent.CollectMetrics` | cmd/agent/main.go:58-94 | Attempts one collection before any event, then one on each tick until the first `Cancel`, where it returns. The store gains exactly the successful samples, in order. Starting from an empty store, its contents are the last `capacity` successful samples, with no entries for failed ticks |

## Left out

- The `sync.RWMutex` of the ring buffer and all concurrency. Each buffer operation is taken to be atomic,
  and the sampling loop is the only writer.
- `time.Ticker`, `context.Context`, signal handling and the goroutines in `main`. The ticker and the
  cancellation are a finite input sequence of events. Its order is the order in which `select` takes
  them, including its random choice when both are ready. The real loop runs until cancelled; the model
  stops at the end of the sequence. A positive tick period only spaces the ticks, and its length plays
  no part.
- `Agent.CollectMetrics`: assumes a positive tick period. In Go, `time.NewTicker` at cmd/agent/main.go:59
  panics when `time.Duration(intervalSec) * time.Second`, wrapped to int64, is zero or negative: for
  example an `INTERVAL_SEC` of 0, any value from −1 down to −9 223 372 036, or 9 223 372 037. The process
  then dies before the initial collection. The model always makes that attempt.
- Logging (`log.Printf`): a failed collection is only skipped, never reported.
- Go's `time.Time` with wall and monotonic readings: instants are one integer clock in nanoseconds.
- `Storage.RingBuffer.constructor`: requires `capacity > 0`. The Go code accepts `0`: `make` gives an
  empty slice, and the first `Add` panics on the index-out-of-range write at ringbuffer.go:34. It panics
  in `make` on a negative capacity. Neither panic is modelled.
- `Storage.RingBuffer.Add`: takes a sample, not a possibly-nil pointer, so `Add(nil)` is not modelled.
  In Go it would fill a slot with nil and still count it in `size`. After that, `GetLatest` could return
  nil with `size > 0`, and the nil checks at ringbuffer.go:74 and 96 would make `GetAll` shorter than
  `Size`. The only caller (cmd/agent/main.go:64 and 83) adds only samples that `Collect` returned without
  error, and those are never nil (collector.go:64 and 90). So the `SlotHolds`, `GetLatest` and `Size`
  rows hold for the program as it is.
- `Readings.gpu` may differ from one collection to the next. In Go, `NewSystemCollector` fixes the GPU
  sub-collector once (collector.go:58). No contract depends on that choice staying fixed, so the
  model's extra freedom only adds runs that Go cannot produce.
- Empty results: `GetHistory` and `GetAll` return a nil slice on an empty store. The model returns `[]`,
  which has the same length and elements. The difference shows only in JSON encoding, which is not part
  of this model.
- The CPU, RAM and GPU sub-collectors (gopsutil, `nvidia-smi`, `rocm-smi`, PowerShell, CSV and regex
  parsing) and the `detectGPU` probe. Their answers are inputs (`Readings`).
- `float64` metric fields are opaque bit patterns and are never compared or computed with.
- `internal/api/server.go`, `internal/config/config.go`, `cmd/agent/embed.go`, `web/app.js` and the
  rest of `main` are wiring, I/O and presentation. They are not part of this model.
