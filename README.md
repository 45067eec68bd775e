# FTDC chunk model in Dafny

This project models the in-memory chunk model of `ftdc-utils`, a decoder for
MongoDB's FTDC diagnostic capture format, and proves properties about it. A
*chunk* is a batch of metrics that share one sample count. Each *metric* is a
named series stored as a base `Value` plus a run of `Deltas`. The chunk has two
operations:

- `Chunk.Map` builds a key-to-metric dictionary.
- `Chunk.Clip(start, end)` narrows the chunk to a time window. It looks only at
  the first metric keyed `"start"`, whose values are epoch milliseconds.

Everything is in `ftdc.dfy`, module `Ftdc`. `Chunk` is a class with the fields
`Metrics: seq<Metric>` and `NDeltas: int`. `Metric` is a datatype
`(Key, Value, Deltas)`.

`Clip` is modelled as the Go code is written, which in several places differs
from what its doc comment suggests:

- **Metrics never change.** The loop at `ftdc.go:64-67` assigns to
  `m`, which is a copy of each element. So `Clip` changes only `NDeltas`.
  The model keeps that loop, so the slice bounds it needs are checked, and
  then drops the copies. `Ftdc.ClipTrimBreaksAlignment` proves that every
  trim of an aligned chunk that has a start metric leaves the chunk
  misaligned: at least one metric's `Deltas` length no longer equals
  `NDeltas`.
- **The new `NDeltas` is `ei - si`**, even though the slice
  `Deltas[si:ei+1]` has `ei - si + 1` elements. It can be `-1`. With
  `NDeltas == 0` and a start metric, a Clip that passes both early exits
  sets `NDeltas` to -1, because `ei` is clamped to `NDeltas - 1`
  (`Ftdc.ClipZeroNDeltasGivesMinusOne`, `Ftdc.ExampleNoDeltasGivesMinusOne`).
  A negative result can also come from the mismatch between truncating each delta separately
  (`ftdc.go:46`) and truncating the total once (`ftdc.go:37`)
  (`Ftdc.ExampleStartPastEnd`, where `si = 2 > ei = 1`).
- **Clipping again to the same window is not a no-op.** The metrics stay
  as they were, so the early exits decide the same way again
  (`Ftdc.ClipExitIgnoresNDeltas`). After a trim of a chunk with a start
  metric, clipping to the same window trims again with a strictly smaller
  `NDeltas` (`Ftdc.ClipRepeatShrinks`). On the 1s-4s example below
  (`Ftdc.ExampleRepeatedClip`),
  `NDeltas` goes 3, 2, 1, 0, -1. The Clip that starts from -1 would re-slice
  out of bounds, which panics in Go at `ftdc.go:66`.
- The usual example, sample times 1s to 4s clipped to `[2s, 3s]`, gives
  `si = 0` and `ei = 2`, so `NDeltas` becomes 2 and the metrics keep their 3
  deltas (`Ftdc.ExampleClipTwoToThree`). No metric is re-based to
  `Value = 2000`.

How the Go code is expressed in Dafny:

- `start.Unix()` and `end.Unix()` become the integer seconds `st` and `et`.
- Go's `int64(x) / 1000` becomes `Trunc1000`, which truncates toward zero.
- Go's `sum` is defined outside ftdc.go; the model writes it as the
  recursive `Sum`.
- `Clip`'s behaviour is specified by the function `ClipPlan`, which returns
  `Outside`, `Inside` or `Trim(si, ei)`. The walk inside it is defined by
  reference functions:
  - `SampleTimes` gives the visited times.
  - `FirstAtOrAbove` gives the step where the walk stops.
  - `CountBelow` counts the times below `st`.
- `WalkCounters` is the inner loop of `ftdc.go:44-55`. It is proved against
  those reference functions.

## Model

| member | source | states |
|---|---|---|
| `Ftdc.Chunk.constructor` | ftdc.go:11-14 | a chunk holds exactly the given metrics and delta count |
| `Ftdc.Chunk.Map` | ftdc.go:17-22 | the result's keys are exactly the keys of `Metrics`; each key maps to the last metric in slice order that has it; the chunk is not modified (no modifies clause) |
| `Ftdc.MapOfKeys` | ftdc.go:18-21 | writing each metric under its key gives a dictionary whose key set is the set of keys occurring in the metrics |
| `Ftdc.MapOfLast` | ftdc.go:19-21 | a metric that no later metric shares its key with is the value stored under that key: the last write wins |
| `Ftdc.Chunk.Clip` | ftdc.go:28-69 | `Metrics` is unchanged; the result is false exactly when the plan is `Outside`; `NDeltas` becomes `ei - si` after a trim and is unchanged on both early exits; it requires that the start metric holds `NDeltas` deltas and that every re-slice `[:si]`, `[si:ei+1]` stays in bounds |
| `Ftdc.Trunc1000` | ftdc.go:36-37 | the quotient by 1000 truncated toward zero: the remainder takes the sign of the dividend and is smaller than 1000 in magnitude |
| `Ftdc.StartIndex` | ftdc.go:32-35 | the index of the first metric keyed `"start"`: that metric has the key and no earlier one does; `None` exactly when no metric has the key |
| `Ftdc.WalkCounters` | ftdc.go:44-55 | the loop's counters equal the reference walk over the times visited in the first `NDeltas` steps |
| `Ftdc.SampleTimesStep` | ftdc.go:44-46 | the walk's time starts at `mst`, and each step adds that delta's truncated seconds to the previous time |
| `Ftdc.FirstAtOrAbove` | ftdc.go:50-54 | the walk's end counter: every earlier time is below `et`, and the time at that position, if there is one, is at or after `et` |
| `Ftdc.CountBelow` | ftdc.go:47-49 | the walk's start counter never exceeds the number of steps it counts |
| `Ftdc.CountBelowExtremes` | ftdc.go:47-49 | the start counter counts every step when every time is below `st`, and none when no time is |
| `Ftdc.WalkAdvance` | ftdc.go:44-46 | adding the current delta's truncated seconds to `t` gives the next visited time |
| `Ftdc.WalkContinues` | ftdc.go:47-52 | a step to a time below `et` raises `ei` by one, and raises `si` by one exactly when that time is below `st`; the walk goes on |
| `Ftdc.WalkStops` | ftdc.go:47-54 | the first time at or after `et` ends the walk, and that step's time still contributes to `si` |
| `Ftdc.WalkRunsOut` | ftdc.go:45-55 | when every time is below `et`, the walk takes all steps and its counters are the reference ones |
| `Ftdc.WalkStartAtMostEnd` | ftdc.go:45-55 | for `st <= et` the walk's start counter never exceeds its end counter |
| `Ftdc.ClipOutsideIff` | ftdc.go:36-39 | `Clip` reports no overlap exactly when a start metric exists with `(Value+sum(Deltas))/1000 < st` or `Value/1000 > et` |
| `Ftdc.ClipInsideIff` | ftdc.go:41-42 | the fast path "entirely inside" is taken exactly when the span overlaps and `Value/1000 > st` and `(Value+sum(Deltas))/1000 < et`, both strict |
| `Ftdc.ClipBoundaryIsWalked` | ftdc.go:41-44 | an overlapping span that starts exactly at `st` or ends exactly at `et` is walked, not fast-pathed |
| `Ftdc.ClipWithoutStart` | ftdc.go:31-35 | without a `"start"` metric the plan is `Trim(0, 0)`, the new `NDeltas` is 0, and the re-slicing stays in bounds exactly when every metric has at least one delta |
| `Ftdc.ClipTrimIndices` | ftdc.go:56-60 | after a walk the final `ei` is the walk's `ei + 1` when that is below `NDeltas`, otherwise `NDeltas - 1`; so it is at most `NDeltas - 1`; `si` is the walk's start counter |
| `Ftdc.ClipNDeltasAtLeastMinusOne` | ftdc.go:45-63 | for `st <= et` and a non-negative delta count, the new `NDeltas` is at least -1 |
| `Ftdc.AlignedClipReslicesInBounds` | ftdc.go:56-66 | a chunk whose metrics all have `NDeltas` deltas, clipped to a window with `st <= et`, satisfies both preconditions of `Clip` when it has a start metric |
| `Ftdc.ClipTrimBreaksAlignment` | ftdc.go:63-67 | after a trim of an aligned chunk with a start metric, the unchanged metrics no longer have `NDeltas` deltas each |
| `Ftdc.ClipExitIgnoresNDeltas` | ftdc.go:36-42 | on unchanged metrics, whether `Clip` takes either early exit does not depend on `NDeltas`, so repeating such a `Clip` takes the same exit |
| `Ftdc.ClipRepeatShrinks` | ftdc.go:36-63 | after a trim with a start metric, clipping the unchanged metrics to the same window trims again (no early exit) with a strictly smaller `NDeltas`, and the walk stays readable |
| `Ftdc.ClipZeroNDeltasGivesMinusOne` | ftdc.go:56-63 | with a start metric and `NDeltas == 0`, a Clip that passes both early exits sets `NDeltas` to -1 |
| `Ftdc.ExampleClipTwoToThree` | ftdc.go:44-63 | start `Value=1000`, `Deltas=[1000,1000,1000]`, three deltas, window `[2, 3]`: `si = 0`, `ei = 2` |
| `Ftdc.ExampleRepeatedClip` | ftdc.go:44-66 | the same chunk clipped to `[2, 3]` again with `NDeltas` 2, 1, 0 gives `Trim(0, 1)`, `Trim(0, 0)`, `Trim(0, -1)`; from `NDeltas == -1` the re-slice is out of bounds |
| `Ftdc.ExampleClipAfter` | ftdc.go:38-39 | the same chunk and window `[10, 20]`: no overlap |
| `Ftdc.ExampleClipAround` | ftdc.go:41-42 | the same chunk and window `[0, 10]`: entirely inside |
| `Ftdc.ExampleNoDeltasGivesMinusOne` | ftdc.go:56-63 | a start metric at 5s with `NDeltas == 0`, clipped to `[5, 5]`, passes both early exits and gives `ei = -1`, so the new `NDeltas` is -1 |
| `Ftdc.ExampleStartPastEnd` | ftdc.go:37-63 | `Value=0`, `Deltas=[999,999]`, window `[1, 1]`: the span check passes, but the truncated walk stays at 0s, so `si = 2 > ei = 1` |

## Left out

- `Chunks` (ftdc.go:74-90): two goroutines, unbuffered channels and an error-channel join. That is concurrency, which this model does not cover.
- `readDiagnostic` and `readChunks`, called at ftdc.go:78 and ftdc.go:81, are not part of this model. They decode BSON from an `io.Reader` through a foreign library.
- `time.Time` and `Unix()`: the window is given directly as integer seconds `st` and `et`.
- Go `int` and `int64` overflow in `sum`, in the additions and in the casts: the model uses unbounded integers.
- Go slice capacity: the model takes a slice's capacity to equal its length. `ReslicesInBounds` therefore bounds `ei + 1` by `len(Deltas)`, where Go would allow up to `cap(Deltas)`.
- `Ftdc.Chunk.Clip` and `Ftdc.WalkCounters`: these require the start metric to have at least `NDeltas` deltas. The Go loop fails only if it actually reaches a missing delta before it breaks, so this precondition is slightly stronger than what the Go code needs.
- The metric prefix-sum law (sample `i+1` is `Value + sum(Deltas[0..=i])`) and its round trip are in the comment at ftdc.go:101-102 only. No code implements them, and the model leaves them out.
