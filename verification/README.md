# Latency histograms of rt-tests, modelled in Dafny

This project models the latency-histogram engine of rt-tests
(`src/lib/histogram.c` with its layout and flags in `src/include/histogram.h`).

- A **histogram** has a fixed table of `num` buckets, each `width` wide. A
  sample goes into bucket `sample / width`.
- A sample past the table is an **overflow**. It updates four things:
  - an overflow counter;
  - a 64-bit magnitude accumulator that saturates instead of wrapping;
  - an optional overflow log of event indices, capped at its capacity;
  - a result bitmask (`HIST_OVERFLOW`, `HIST_OVERFLOW_MAG`, `HIST_OVERFLOW_LOG`).
- A **histoset** is an array of member histograms. Its init function
  validates its argument and tears everything down if a member fails to
  initialise.
- Three **printers** render the tables sparsely as text: one tab-separated
  line per bucket, a JSON fragment, and the overflow log.

The model is functional. Histograms and histosets are immutable datatypes.
`hist_*` and `hset_destroy` are pure functions returning the new state.
`hset_init` and the printers are methods whose loops follow the C loops.

Each printer returns the text the C code would write to its `FILE *`. A
declarative function states that text (`BucketLine`, `JsonText`,
`OflowsText`), and lemmas parse it back.

Allocation is an input:
- `hist_init` and `hist_init_oflow` take an `allocOk` flag.
- `hset_init` takes `fails`, the set of ordinals of `calloc` calls that
  return NULL. The calls are numbered in order: 0 is the member array, then
  each member's bucket table and, if requested, its log.

Heap use is counted explicitly. `Footprint` counts the live blocks. The
destroy functions report how many blocks they free. `hset_init` reports
`allocs` and `freed`. On `-ENOMEM`, `allocs` is the ordinal of the first
failing `calloc`, so it is the number of calls that succeeded. "No leak on
partial failure" then reads `freed == allocs`.

Files:
- `base.dfy`: nullable pointers, `u64`, status codes, sums.
- `histogram.dfy`: `struct histogram` and `hist_*`.
- `histoset.dfy`: `struct histoset`, `hset_init`, `hset_destroy`.
- `text.dfy`: `%lu` / `%0Nlu` formatting, join, split, parsing back.
- `printers.dfy`: `hset_print_bucket`, `hist_print_json`, `hist_print_oflows`.

The model keeps these behaviours of the C code:
- A sample exactly one bucket past the table has `extra == 0`. The test
  `mag + extra > mag` is then false, so `HIST_OVERFLOW_MAG` is raised
  although nothing saturated. See `Histograms.BoundarySampleFlagsMagnitude`.
- `hist_print_oflows` prints the `# N others` suffix whenever
  `oflow_count >= oflow_bufsize`, including equality. It also prints the
  suffix when no log was requested (`oflow_bufsize == 0`), even with no
  overflows.
- `hset_init` never allocates the aggregate `sum` histogram.
- `hist_init` stores `width` and `num` even when its allocation fails.
- On a member failure, `hset_init` destroys the set it built. No aggregate
  histogram is torn down.
- `hset_destroy` visits only the first `num_histos` members. Blocks owned
  by any further element of the member array leak.

## Model

| member | source | states |
|---|---|---|
| Histograms.FlagsRoundTrip | src/include/histogram.h:24-26 | The three flags are the bits 1, 2, 4. Every flag set encodes to a value below 8 that decodes back to that set. Only the empty set encodes to 0. |
| Histograms.FlagsInjective | src/include/histogram.h:24-26 | Two flag sets have the same return value exactly when they are equal. |
| Histograms.Init | src/lib/histogram.c:14-25 | Returns 0 exactly when the allocation succeeds, else -ENOMEM. `width` and `num` are stored in both cases. All counters start at zero and there is no log. On success the table has `num` zero buckets and the counting invariant holds. One block is owned on success, none on failure. |
| Histograms.InitOflow | src/lib/histogram.c:27-35 | The capacity is recorded even when the allocation fails. On success the log is `num` zeros; on failure it is NULL. Every other field is unchanged, and validity and the counting invariant are kept. |
| Histograms.Destroy | src/lib/histogram.c:37-43 | Both pointers become NULL and every other field is kept. Exactly the blocks the histogram owned are freed. |
| Histograms.DestroyIdempotent | src/lib/histogram.c:37-43 | A second destroy changes nothing and frees nothing. |
| Histograms.BucketInterval | src/include/histogram.h:7-8 | A sample falls into bucket `i` exactly when `i*width <= sample < (i+1)*width`. |
| Histograms.InRangeIff | src/lib/histogram.c:47-52 | A sample is in range exactly when it is below `width*num`. |
| Histograms.Sample | src/lib/histogram.c:45-73 | `events` grows by one and the shape is kept. An in-range sample adds one to its own bucket only, leaves the overflow state alone and returns 0. An out-of-range sample leaves the buckets alone, adds one to `oflow_count` and sets `HIST_OVERFLOW`. The magnitude grows by `extra` unless `extra` is 0 or the sum would reach 2^64; then it is unchanged and `HIST_OVERFLOW_MAG` is set. So the magnitude never decreases. If a log exists and has room, the pre-increment event index is written at slot `oflow_count`. `HIST_OVERFLOW_LOG` is set exactly when a log exists and is full. |
| Histograms.SamplePreservesCounting | src/lib/histogram.c:49-71 | Sampling keeps `sum(buckets) + oflow_count == events`, so `oflow_count <= events`. |
| Histograms.SamplePreservesLog | src/lib/histogram.c:64-69 | Sampling keeps the logged prefix strictly increasing, with every entry below `events`. |
| Histograms.SampleAll | src/lib/histogram.c:45-73 | Feeding a run of samples keeps the shape, adds the run's length to `events`, and never lowers the magnitude. |
| Histograms.SampleAllCounting | src/include/histogram.h:9-13 | After any run of samples, the buckets plus the overflows add up to the events. |
| Histograms.SampleAllInRange | src/lib/histogram.c:52-55 | A run of samples below `width*num` leaves the overflow count, magnitude and log unchanged. |
| Histograms.BoundarySampleFlagsMagnitude | src/lib/histogram.c:58-62 | A sample landing exactly at bucket `num` sets both `HIST_OVERFLOW` and `HIST_OVERFLOW_MAG`. It counts an overflow and leaves the magnitude unchanged. |
| Histograms.NoLogNoLogFlag | src/lib/histogram.c:64-69 | With no log, nothing is written and `HIST_OVERFLOW_LOG` is never set. |
| Histograms.ExampleStart | src/lib/histogram.c:14-35 | Init with width 100 and 5 buckets, then a one-entry log, gives five zero buckets and the log `[0]`. |
| Histograms.WorkedExample | src/lib/histogram.c:45-73 | From that state, samples 0, 99, 100, 499, 500, 1000 give buckets [2,1,0,0,1], 6 events, 2 overflows, magnitude 5 and the log [4]. Sample 500 returns 1|2 and sample 1000 returns 1|4. |
| Histosets.FreeMembers | src/lib/histogram.c:108-111 | Destroying every member frees exactly the blocks the members own. |
| Histosets.Destroy | src/lib/histogram.c:104-115 | The member array becomes NULL and the counts are kept. When the array exists, the array and exactly the blocks of its first `num_histos` members are freed. The blocks of any members past `num_histos` are the only ones not freed. When the array holds exactly `num_histos` members, every live block is freed. A NULL array frees nothing. |
| Histosets.DestroyLeaksTail | src/lib/histogram.c:108-114 | With a two-member array, `num_histos == 1` and one block per member, three blocks are live and `hset_destroy` frees only two: the second member's table leaks. |
| Histosets.DestroyIdempotent | src/lib/histogram.c:104-115 | A second `hset_destroy` changes nothing and frees nothing. |
| Histosets.InitMember | src/lib/histogram.c:90-95 | One loop iteration attempts one allocation, or two when a log is requested. It succeeds exactly when none of them fails, and then the member is fresh, with a log iff `overflow != 0`. On failure, the last attempted allocation is the failing one and every earlier attempt succeeded, so a failed `hist_init` never goes on to `hist_init_oflow`. The member owns exactly the allocations that succeeded. |
| Histosets.InitMembers | src/lib/histogram.c:90-95 | The member loop stops at the first failing member. It completes exactly when none of the member allocations fails; every member is then fresh and `allocs` is the full count. On failure, `allocs` is the ordinal of the failing call and every earlier call succeeded. The array and members own exactly `allocs` blocks. |
| Histosets.Init | src/lib/histogram.c:75-102 | With `num_histos == 0` it returns -EINVAL, changes nothing and allocates nothing. Otherwise it stores both counts. It succeeds exactly when none of the `1 + num_histos*(1 or 2)` allocations fails. Then every member is fresh, and `allocs` is that full count, all owned by the set. On -ENOMEM, `allocs` is the ordinal of the first failing `calloc`, which is the number of calls that succeeded. The member array is NULL, and the cleanup has freed exactly `allocs` blocks. |
| Text.ParseZeroPad | src/lib/histogram.c:139 | A zero-padded decimal field reads back as the value printed. |
| Text.RowRoundTrip | src/lib/histogram.c:134-140 | Fields printed with a separator before all but the first cut back, at that separator, into the printed values. |
| Printers.SumBucket | src/lib/histogram.c:120-127 | The first loop computes the bucket's total across members, modulo 2^64 as the `unsigned long long` accumulator holds it. |
| Printers.PrintFields | src/lib/histogram.c:134-140 | The second loop prints the values as zero-padded fields joined by the separator. |
| Printers.PrintBucket | src/lib/histogram.c:117-146 | Nothing is printed for a bucket at or past `num_buckets`, nor when the total is 0. Otherwise the output is the prefix, one six-digit field per member joined by tabs, a trailing total iff the `HSET_PRINT_SUM` bit is set, and a newline. |
| Printers.BucketLineSparse | src/lib/histogram.c:123-130 | When the true total fits in 64 bits, a bucket inside the table prints nothing exactly when every member's count is zero. |
| Printers.BucketLineRoundTrip | src/lib/histogram.c:131-145 | A printed line ends in a newline and needs at least one member. Its body cuts at the tabs into the members' counts, followed by the total when it was asked for. |
| Printers.NonZeroSpec | src/lib/histogram.c:153-162 | The listed indices are exactly the non-zero buckets, each once, in strictly ascending order. |
| Printers.JsonStep | src/lib/histogram.c:156-161 | A zero bucket adds nothing. A non-zero bucket adds its member, preceded by a comma unless it is the first. |
| Printers.PrintMembers | src/lib/histogram.c:153-162 | The comma-flag loop prints one member per non-zero bucket among the first `num`, in ascending order, joined by commas. |
| Printers.PrintJson | src/lib/histogram.c:148-165 | The output is one `"index": count` member per non-zero bucket, in ascending order, joined by commas, then a newline. |
| Printers.JsonTextMembers | src/lib/histogram.c:153-164 | When some bucket is non-zero, the JSON text without its newline cuts at the commas into exactly those members. |
| Printers.PrintLogged | src/lib/histogram.c:171-177 | The loop stops at `min(oflow_count, oflow_bufsize)` and has printed exactly those logged indices as five-digit fields joined by spaces. |
| Printers.PrintOflows | src/lib/histogram.c:167-181 | The output is the first `min(oflow_count, oflow_bufsize)` logged indices as five-digit fields joined by spaces. It ends with ` # N others`, where N is `oflow_count - oflow_bufsize`, iff `oflow_count >= oflow_bufsize`. |
| Printers.OflowsTextTokens | src/lib/histogram.c:171-180 | Cut at the spaces, the report is the logged fields (one empty field when none is logged). It is followed by `#`, N and `others` exactly when `oflow_count >= oflow_bufsize`. |
| Printers.OflowsTextLogged | src/lib/histogram.c:171-177 | The leading fields of the report read back as the logged event indices. |

## Left out

- src/include/pi_stress.h is not part of this model. It declares the threaded priority-inversion test: barriers, PI mutexes, watchdog and reporter threads, signals and scheduling. Its function bodies are not in the histogram engine.
- get_pylib.py is not part of this model. It is a build-time Python path lookup.
- `calloc` and `free` are not modelled as memory. Success is an input, and the heap is tracked only as block counts.
- `FILE *` output is not modelled. Printers return the text instead of writing it.
- The `pre` prefix is written with `%s`; the model appends the string as given.
- The aggregate `sum` histogram is not modelled. The header declares it, but this code never allocates or updates it.
- `events`, `oflow_count` and bucket counts are `unsigned long` in C. The model uses unbounded naturals, so their wrap-around is not modelled. Two sums are computed modulo 2^64, as in the source: the test sum `mag + extra`, and the print-time total. The stored magnitude never wraps: it only grows when that test passes, and otherwise it stays unchanged.
- The model assumes the LP64 data model, where `unsigned long` is 64 bits wide. On an ILP32 target, `bucket = sample / width` and `extra` are truncated modulo 2^32. A huge sample could then be counted in range or add a truncated amount to the magnitude. Those targets are not modelled.
- `width` and `num` are unbounded naturals. The sample is a 64-bit value (`u64`). `hist_sample` needs `width > 0`, a precondition the C code never checks.
- `calloc(0, …)` may return NULL or a unique pointer, depending on the implementation. The model takes the caller's `allocOk` / `fails` as the answer.
- `hist_init` clears a structure that may still hold live pointers, and `hist_init_oflow` overwrites an existing log pointer. Both leaks are outside the model: `Histograms.Init` takes no prior state, and `Histograms.InitOflow` drops the old log without counting it.
- `HSET_PRINT_JSON` is declared in the header, but none of the modelled functions reads it.
- Histosets.Destroy: requires the member array to hold at least `num_histos` members. With a shorter array the C loop reads past the allocation, which is undefined behaviour and has no meaning to model.
