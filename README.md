# thought-cli listing core, modelled in Dafny

`thought-cli ls` fetches the CPU and memory readings of every server from an inventory API. It
folds them into a table keyed by service name. The table holds one row per instance in
default mode, or one merged row per service, with running averages, in merged mode. It is
printed once as a static table. With `--follow` it becomes a live view that re-fetches the
service's IPs every second. This project models the sequential logic of that pipeline:

- `ls.dfy` (module `Ls`) holds the health classifier `isUnhealthy`, the `"NN%"` parse, the row
  types and the body of the receive loop of `RunLs`. That body is a pure step function `Step`,
  folded by `Fold`, and an imperative `Collector` class with the `rows` map and the `numDone`
  counter. The merged update is a method that performs the source's in-place field updates
  one by one, in Go's `int32` arithmetic.
- `render.dfy` (module `Render`) holds the static table of `RenderOutput`: the service filter,
  the header picked once by the first shown entry, the separate-rows option and the cell text
  of each row.
- `follow.dfy` (module `Follow`) holds the live view of `RenderOutputFollow`. The default case
  is a `DefaultView` class: the set-up loop building `ips` and `index`, and `updateDefault`.
  The merged case is a `MergedView` class: the set-up, `updateMerged`, and the two 80-slot
  chart buffers written at `lineIndex % dataPoints`.
- `goint.dfy` and `gostrings.dfy` spell out the Go semantics the code relies on:
  - `int32`/`int` wrap-around and division truncating toward zero;
  - `strconv.Atoi` (64-bit range, optional sign) and `strconv.FormatInt`;
  - `strings.Split` and `strings.Join`.
- `ls_facts.dfy`, `render_facts.dfy` and `follow_facts.dfy` prove what the code promises.
  `ls_examples.dfy` and `follow_examples.dfy` work through the documented examples.

Conventions:
- Every `log.Fatalf` and the runtime panic of an `int32` division by zero become a `Fatal`
  outcome. The fold stops at the first one.
- Every fetch `GetService(ip)` is a supplied value: the arrival sequence `outputs` of one
  pass, or the `samples` of one tick, aligned with the IPs.
- Go's map iteration order in `RenderOutput` is a parameter `order`.
- Go's comma-ok type assertions yield the zero value of the other shape, as in the source
  (`AsMerged`, `AsDefault`).

## Model

| member | source | states |
|---|---|---|
| Ls.IsUnhealthy | pkg/ls.go:57-74 | succeeds iff both texts parse; fails with the cpu error iff the cpu text does not parse; fails with the memory error iff the cpu text parses and the memory text does not; the status is Unhealthy iff parsed cpu > 90 or parsed mem > 80 |
| LsFacts.ClassifyIff | pkg/ls.go:68-73 | Unhealthy exactly when cpu > 90 or mem > 80 |
| LsFacts.ClassifyBoundaries | pkg/ls.go:68-73 | (90,50) and (50,80) are Healthy; (91,50) and (50,81) are Unhealthy: the thresholds are strict |
| GoStrings.Atoi | pkg/ls.go:58 | `strconv.Atoi`: accepts exactly an optional sign followed by one or more digits whose signed decimal value is in the 64-bit `int` range, and then yields that value |
| GoStrings.SignedDigits | pkg/ls.go:58 | the digits after the sign are accepted iff there is at least one, all are decimal digits and the value, negated after `-`, is in the 64-bit range; the result is that value |
| GoStrings.AtoiAccepts | pkg/ls.go:58-61 | Atoi accepts only integer texts (a digit, or a sign followed by at least one digit, then only digits); on every integer text it yields the signed value when that fits in 64 bits and fails otherwise |
| GoStrings.ScanDigitsSucceeds | pkg/ls.go:58 | the digit scan succeeds exactly on all-digit texts |
| GoStrings.AtoiFormatInt | pkg/render.go:63 | Atoi reads back what `FormatInt(n, 10)` writes, for every 64-bit n |
| GoStrings.FormatNat | pkg/render.go:63-65 | decimal text of a natural number: non-empty, digits only, no leading zero (zero is exactly "0"), and it scans back to the number |
| GoStrings.DecimalValueSnoc | pkg/ls.go:58 | appending a digit to a decimal text multiplies its value by ten and adds the digit |
| GoStrings.ScanDigitsValue | pkg/ls.go:58 | the left-to-right digit scan yields the positional decimal value of an all-digit text |
| GoStrings.FormatInt | pkg/render.go:63-65 | `strconv.FormatInt(n, 10)`: a leading `-` exactly for negative n, a leading digit exactly for non-negative n, digits after the first character, and no leading zero except for "0" itself |
| GoStrings.DigitChar | pkg/render.go:63 | the digit character of a value 0..9 is a digit with that value |
| GoStrings.Split | pkg/ls.go:58 | `strings.Split` on one character: at least one piece, and no piece contains the separator |
| GoStrings.JoinSplit | pkg/ls.go:58 | joining the pieces of a split with the separator restores the text |
| GoStrings.SplitJoin | pkg/render.go:62 | splitting a join recovers the parts when no part contains the separator |
| GoStrings.BeforePercent | pkg/ls.go:58 | the text before the first `%` is no longer than the text |
| GoStrings.BeforePercentIsFirstPiece | pkg/ls.go:58 | it is `strings.Split(s, "%")[0]`: the longest `%`-free prefix of s, followed in s by `%` when shorter than s |
| LsFacts.BeforePercentOf | pkg/ls.go:58 | a `%`-free text is kept whole, and `t + "%" + rest` is cut back to t |
| LsFacts.ParsePercentOfText | pkg/ls.go:58-66 | the text `FormatInt(n) + "%"` parses back to n |
| LsFacts.IsUnhealthyOfText | pkg/ls.go:57-74 | on `"NN%"` texts for numbers cpu and mem, isUnhealthy classifies those numbers |
| LsExamples.ParseOverHundred | pkg/ls.go:58-61 | "150%" parses to 150: there is no clamping |
| LsExamples.ParseWithoutPercent | pkg/ls.go:58 | "7", with no `%`, parses to 7 |
| LsExamples.ParseEmpty | pkg/ls.go:58-61 | "%" and "" are parse errors |
| LsExamples.ParseFraction | pkg/ls.go:58-61 | "5.5%" is a parse error |
| LsExamples.ParseSignsAndZeros | pkg/ls.go:58-61 | "05%" and "+5%" parse to 5, "-0%" to 0 |
| LsExamples.ParseBareSign | pkg/ls.go:58-61 | "-%" and "+%" are parse errors |
| GoInt.Wrap32 | pkg/ls.go:150-157 | an `int32` result lies in the int32 range, is congruent to the exact value modulo 2^32, and equals it when that value fits |
| GoInt.Wrap64 | pkg/render.go:202-203 | a 64-bit `int` result lies in the int64 range, is congruent modulo 2^64, and equals the exact value when that fits |
| GoInt.Quot | pkg/render.go:206-207 | Go's integer `/`: for a non-negative dividend and a positive divisor it is the floor quotient |
| GoInt.QuotRemainder | pkg/render.go:206-207 | the remainder of Go's division is smaller than the divisor in magnitude and has the sign of the dividend (truncation toward zero) |
| GoInt.QuotTimesDivisor | pkg/render.go:206-207 | the truncated quotient times the divisor is the magnitudes' product with the dividend's sign |
| GoInt.Quot32 | pkg/ls.go:156-157 | `int32` division stays in the int32 range and, for a non-negative int32 dividend and a positive divisor, is the floor quotient |
| GoInt.Wrap64Add | pkg/render.go:202-203 | adding to a wrapped running sum equals wrapping the exact sum |
| Ls.Step | pkg/ls.go:130-202 | one received output: the keys become the old keys plus the sample's service; every other entry is unchanged; a parse failure is that fatal error; any other failure is a division by zero, which happens only in merged mode on an existing key |
| Ls.UpdateMergedRow | pkg/ls.go:147-157 | the in-place field updates of the merged branch panic exactly when `int32(len(Ips))` wraps to 0, and otherwise give `Merge` (the running-average update) |
| Ls.Collector.constructor | pkg/ls.go:97-98 | an empty table and `numDone == 0`, for the given servers and mode |
| Ls.Collector.Receive | pkg/ls.go:130-202 | `numDone` grows by one before anything can fail; on success the table becomes `Step`'s result, on a fatal outcome the error is returned and the table is unchanged |
| Ls.Collector.Collect | pkg/ls.go:128-134 | with arrivals a permutation of the servers, the loop succeeds iff the fold does; then the table is the fold of every output and `numDone == len(servers)`; otherwise it returns the fold's error after 1..len(servers) receipts |
| Ls.FoldStopsAtFailure | pkg/ls.go:138-145 | once a prefix of the arrivals is fatal, the whole pass ends with that outcome |
| LsFacts.StepNew | pkg/ls.go:172-190 | the first merged sample of a service, whatever other services the table holds, stores `Ips=[ip]`, CpuAvg=cpu, MemAvg=mem, `Replicas=1` under its name and leaves the other entries |
| LsFacts.StepFresh | pkg/ls.go:172-190 | a merged-mode step on a new service stores the new row built from the parsed sample |
| LsFacts.StepExisting | pkg/ls.go:136-158 | a merged-mode step on a stored service stores `Merge` of its row with the parsed sample |
| LsFacts.StepMerged | pkg/ls.go:136-158 | without int32 overflow, a sample for a stored service appends its IP, sets each average to `(avg * n + v) / (n + 1)` with n the old IP count, and increments Replicas |
| LsFacts.RunningAvgExact | pkg/ls.go:148-157 | without overflow, the int32 update is `((avg * n) + v) / (n + 1)` with n the old number of IPs |
| LsFacts.MergeExact | pkg/ls.go:150-157 | without overflow, Merge appends the IP, applies the formula to both metrics and increments Replicas |
| LsFacts.MergeAverage | pkg/ls.go:150-157 | each metric of a merged row follows the running-average rule with the old IP count |
| LsFacts.RunningAvgWithin | pkg/ls.go:150-157 | without int32 overflow (`hi * (n + 1)` fits, with n the old IP count), an update keeps the average in any non-negative range holding the old average and the new value |
| LsFacts.DivBounds | pkg/ls.go:156-157 | a quotient of a value between `lo*d` and `hi*d` lies between lo and hi |
| LsFacts.MergeWithin | pkg/ls.go:150-157 | without int32 overflow (`hi * (bound + 1)` fits, with the IP count at most `bound`), merging a reading within [lo, hi] into an average within [lo, hi] stays within it |
| LsFacts.IpsFor | pkg/ls.go:152 | a service's IPs from the outputs are at most as many as the outputs |
| LsFacts.ServicesOfSnoc | pkg/ls.go:134 | the services of the outputs grow by the last output's service |
| LsFacts.StepDefault | pkg/ls.go:160-170 | a successful default-mode step appends the sample's classified row to its service's list (empty when absent) |
| LsFacts.DefaultStepRows | pkg/ls.go:160-170 | a default step keeps every entry equal to the rows of its service's outputs |
| LsFacts.DefaultFold | pkg/ls.go:160-170 | default mode: the keys are exactly the services seen; each holds exactly the rows (ip, service, status, raw texts) of its own outputs, in arrival order |
| LsFacts.NoRowsForAbsent | pkg/ls.go:193-201 | a service with no output has no rows |
| LsFacts.TotalRowsRemove | pkg/ls.go:160-170 | the total number of rows is one entry's count plus that of the rest |
| LsFacts.DefaultStepTotal | pkg/ls.go:160-170 | a default step adds exactly one row to the table |
| LsFacts.DefaultFoldTotal | pkg/ls.go:160-170 | default mode: the table holds exactly one row per sample processed |
| LsFacts.MergedStepEntry | pkg/ls.go:147-158 | a merged step keeps every entry named after its service, with its IPs in arrival order and `Replicas == len(Ips)` |
| LsFacts.MergedStepShape | pkg/ls.go:136-190 | a merged step keeps that shape and, below 2^31 samples, never divides by zero |
| LsFacts.MergedFold | pkg/ls.go:136-190 | merged mode: one merged row per service seen, with IPs in arrival order, the new IP last, and `Replicas == len(Ips)`; no division by zero for fewer than 2^31 samples |
| LsFacts.NoIpsForAbsent | pkg/ls.go:172-190 | a service with no output has no IPs |
| LsFacts.WithinExisting | pkg/ls.go:147-158 | without int32 overflow (`hi * (bound + 1)` fits, with the IP count at most `bound`), a step on a stored service keeps its average within [lo, hi] |
| LsFacts.WithinFresh | pkg/ls.go:183-190 | a new row's average is its reading, so it is within [lo, hi] |
| LsFacts.WithinStep | pkg/ls.go:136-190 | without int32 overflow (`hi * (len(front) + 1)` fits, with `front` the samples already folded), one merged step keeps service k's average within [lo, hi] when the old average and the new reading lie there |
| LsFacts.ReadingsWithinSnoc | pkg/ls.go:130 | the reading bounds hold for every prefix of the arrivals and for the last output |
| LsFacts.MergedFoldWithin | pkg/ls.go:150-157 | with non-negative readings in [lo, hi], every merged average the pass produces lies in [lo, hi] |
| LsExamples.GeoReadings1 | pkg/ls.go:137-145 | "51%" and "76%" parse to 51 and 76 |
| LsExamples.GeoReadings2 | pkg/ls.go:137-145 | "81%" and "8%" parse to 81 and 8 |
| LsExamples.GeoReadings3 | pkg/ls.go:137-145 | "43%" and "9%" parse to 43 and 9 |
| LsExamples.MergedExample1 | pkg/ls.go:172-190 | the first GeoService sample gives the row (51%, 76%, 1 replica) |
| LsExamples.StepGeo2 | pkg/ls.go:147-158 | the second sample gives averages 66 and 42 over 2 replicas |
| LsExamples.StepGeo3 | pkg/ls.go:147-158 | the third sample gives averages 58 and 31 over 3 replicas |
| LsExamples.MergedExample2 | pkg/ls.go:130-190 | folding the first two samples yields cpu 66, mem 42 |
| LsExamples.MergedExample3 | pkg/ls.go:130-190 | folding cpu 51, 81, 43 and mem 76, 8, 9 yields 58 and 31 with 3 replicas and the IPs in arrival order |
| LsExamples.DefaultStepGeo1 | pkg/ls.go:193-201 | the first sample in default mode creates a one-row list |
| LsExamples.DefaultStepGeo2 | pkg/ls.go:160-170 | the second appends a second row |
| LsExamples.DefaultStepGeo3 | pkg/ls.go:160-170 | the third appends a third row |
| LsExamples.DefaultExample1 | pkg/ls.go:193-201 | default-mode fold of one sample |
| LsExamples.DefaultExample2 | pkg/ls.go:160-201 | default-mode fold of two samples |
| LsExamples.DefaultExample | pkg/ls.go:160-201 | the same three samples in default mode stay three Healthy rows with their raw texts |
| Render.Selected | pkg/render.go:38-43 | the keys the filter lets through are among the iterated keys, and at most as many |
| Render.SelectedSnoc | pkg/render.go:38-67 | one more iterated key is either skipped by the filter or shown |
| Render.AppendDefaultRows | pkg/render.go:52-54 | the inner loop appends the cells of every default row, in order |
| Render.ShowEntry | pkg/render.go:45-66 | for a shown entry: the first one appends its header (and, if merged, turns on separate rows); every entry appends its rows |
| Render.RenderOutput | pkg/render.go:36-68 | the loop with the `init` flag produces the table of the keys the filter lets through, in iteration order |
| RenderFacts.RenderedShape | pkg/render.go:36-67 | the header is appended exactly once when anything is shown and never otherwise; header and separate-rows come from the first shown entry; the body is the shown entries' rows in order |
| RenderFacts.SelectedAll | pkg/render.go:41 | an empty filter shows every key |
| RenderFacts.SelectedOne | pkg/render.go:41-43 | a non-empty filter shows only the key equal to it, if present |
| RenderFacts.FilteredTable | pkg/render.go:41-66 | with a filter, the table is that service's entry under its own header, or empty when the service is absent |
| RenderFacts.ShowsAll | pkg/render.go:38-67 | without a filter, the body holds every entry's rows, with one header if the map is non-empty and none otherwise |
| RenderFacts.StatusTextInjective | pkg/render.go:18-21 | `statusMap` gives different texts to the two statuses |
| RenderFacts.DefaultHighlighted | pkg/render.go:29-34 | a default row is painted red iff its status is Unhealthy |
| RenderFacts.MergedNeverHighlighted | pkg/render.go:29-34 | a merged row is never painted: its fifth cell is the replica count, a number |
| RenderFacts.DefaultCellsDecode | pkg/render.go:53 | the cells of a default row are ip, service and the raw texts, and the fifth names its status |
| RenderFacts.MergedCellsDecode | pkg/render.go:62-65 | the cells of a merged row read back: splitting the first at the separator gives the IPs, and the numeric cells parse to the averages and the replica count |
| Follow.WriteCell | pkg/render.go:180-182 | `rows[i][j] = v` keeps the table's and the row's lengths |
| Follow.BuildDefaultTable | pkg/render.go:86-102 | the set-up loop yields the header plus one row per default row, `ips`, and `index` as `IndexOf` describes |
| Follow.IndexOfFits | pkg/render.go:96-101 | the index records positions 1..n and covers every row's IP |
| Follow.WriteSample | pkg/render.go:178-182 | one iteration of `updateDefault` keeps the row count and five columns |
| Follow.DefaultTick | pkg/render.go:176-184 | a whole tick keeps the row count and five columns |
| Follow.DefaultView.constructor | pkg/render.go:86-102 | the view is in its valid state, with the set-up's rows, ips and index |
| Follow.DefaultView.UpdateDefault | pkg/render.go:176-184 | the loop's new table and fatal outcome are those of `DefaultTick`, and the view stays valid |
| Follow.DefaultTickSnoc | pkg/render.go:177 | one more loop iteration: unchanged after a fatal outcome, otherwise one more sample written |
| Follow.DefaultTickStops | pkg/render.go:182 | once an iteration is fatal, the tick's outcome is that iteration's |
| FollowFacts.IndexOfLast | pkg/render.go:96-101 | every IP is indexed at the table position of its last row, which holds that IP |
| FollowFacts.IndexOfDistinct | pkg/render.go:96-101 | with distinct IPs, row i sits at table position i + 1, so different IPs have different positions |
| FollowFacts.RowIpsPositions | pkg/render.go:94-101 | with distinct IPs, `ips[k]` is indexed at table row k + 1 |
| FollowFacts.IndexOfAt | pkg/render.go:99 | the position an IP is indexed at holds a row with that IP |
| FollowFacts.SetupRowOfIp | pkg/render.go:99-100 | the indexed table row shows that IP in column 0 |
| FollowFacts.IndexOfFitsAlways | pkg/render.go:88-101 | the set-up table meets the tick's requirements on the index and the columns |
| FollowFacts.WriteSampleFrame | pkg/render.go:178-182 | an iteration writes only row `index[ip]` and never its columns 0-1; it is fatal iff isUnhealthy fails, with that error; otherwise columns 2-4 get the texts and the status |
| FollowFacts.DefaultTickFrame | pkg/render.go:176-184 | a tick never changes columns 0-1, nor any row no IP of the tick is indexed at (such as the header) |
| FollowFacts.DefaultTickCompletes | pkg/render.go:176-184 | a tick completes iff every sample's texts parse |
| FollowFacts.AllClassifySnoc | pkg/render.go:182 | all samples parse iff all but the last do and the last does |
| FollowFacts.DefaultTickFirstError | pkg/render.go:176-184 | a tick that stops does so at the first sample whose texts do not parse, with its error |
| FollowFacts.DefaultTickWrites | pkg/render.go:176-184 | a completed tick whose IPs sit on distinct rows sets columns 2-4 of each IP's row to its sample's cpu, memory and status |
| FollowFacts.TickAtPositions | pkg/render.go:176-184 | with IPs indexed at rows 1, 2, ..., row 0 stays and row k + 1 is refreshed with sample k |
| FollowFacts.RefreshedCells | pkg/render.go:180-182 | a refreshed set-up row keeps its IP and service and takes the sample's texts and status |
| FollowFacts.RefreshedTable | pkg/render.go:180-182 | the table of refreshed set-up rows shows each row's IP and service with its sample's texts and status |
| FollowFacts.DefaultRefresh | pkg/render.go:86-110 | for rows with distinct IPs, the set-up then a completed tick: the header stays, and row i + 1 shows row i's IP and service with sample i's texts and status |
| Follow.MergedView.constructor | pkg/render.go:112-150 | the header, the merged row with IPs joined by ", ", the IPs, and two zeroed 80-slot buffers at `lineIndex == 0` |
| Follow.MergedView.UpdateMerged | pkg/render.go:186-213 | on a parse failure nothing is written and the error is returned; otherwise only `rows[1][2]`, `rows[1][3]`, `cpu[li]` and `mem[li]` change, to the averages |
| Follow.MergedView.Tick | pkg/render.go:154-160 | one tick writes at `lineIndex % 80`, then increments `lineIndex`, recording the averages in the history; the buffers stay the ring of the history |
| Follow.SumSamples | pkg/render.go:187-204 | the loop's sums, or its fatal outcome, are those of `MergedSums` |
| Follow.AddSampleCases | pkg/render.go:192-203 | an iteration fails on the cpu text first, then the memory text, and otherwise adds both readings with 64-bit wrap |
| Follow.MergedSumsStops | pkg/render.go:193-200 | once a sample fails to parse, the sums fail the same way |
| Follow.MergedSumsSnoc | pkg/render.go:190-204 | one more sample of the loop |
| FollowFacts.AddSampleParsed | pkg/render.go:192-203 | an iteration succeeds iff the sums so far did and the sample parses, and then adds its readings with 64-bit wrap |
| FollowFacts.AllParseSnoc | pkg/render.go:192-200 | all samples parse iff all but the last do and the last does |
| FollowFacts.MergedSumsParse | pkg/render.go:190-204 | the sums succeed iff every sample parses |
| FollowFacts.MergedSumsTotals | pkg/render.go:187-204 | the sums are the exact totals of the whole IP set, wrapped to 64 bits, independent of earlier ticks |
| FollowFacts.TotalsSnoc | pkg/render.go:202-203 | the totals are those of all but the last sample plus its readings |
| FollowFacts.TotalsWithin | pkg/render.go:202-203 | readings within [lo, hi] give totals within `lo*n` and `hi*n` |
| FollowFacts.MergedAverageWithin | pkg/render.go:206-207 | `sum / len(ips)` lies between the smallest and the largest reading of the tick |
| FollowFacts.TwoSampleAverages | pkg/render.go:186-207 | for two IPs, the averages are the truncated means of the tick's own two readings |
| FollowExamples.Tick1Readings | pkg/render.go:192-200 | "40%" and "60%" parse to 40 and 60 |
| FollowExamples.Tick2Readings | pkg/render.go:192-200 | "80%" and "20%" parse to 80 and 20 |
| FollowExamples.FirstTick | pkg/render.go:186-207 | samples 40% and 60% show 50 |
| FollowExamples.SecondTick | pkg/render.go:186-207 | the next tick with 80% and 20% shows 50 again: a full recomputation, not a fold onto the previous tick |
| Follow.Slot | pkg/render.go:157 | the write index `lineIndex % dataPoints` is below 80 |
| Follow.RingBuffer | pkg/render.go:132-142 | a history buffer has 80 slots |
| Follow.RingBufferSnoc | pkg/render.go:157-160 | a write at the next tick's slot gives the ring of the longer history |
| FollowFacts.SlotPeriodic | pkg/render.go:157-160 | every write is in bounds, and tick t + 80 writes the slot of tick t |
| FollowFacts.SlotsDiffer | pkg/render.go:157-160 | ticks less than 80 apart write different slots |
| FollowFacts.RingBufferHolds | pkg/render.go:154-160 | the buffer holds the last 80 averages, each at its tick's slot, and 0 in slots no tick has reached |

## Left out

- The worker pool: goroutines, the `work` and `doneCh` channels and `runtime.NumCPU()` (pkg/ls.go:97-120). This is concurrency. A pass is modelled as a sequence `outputs` of arrivals.
- Ls.Collector.Collect: requires that the arrivals' IPs are a permutation of the servers. This stands for the worker pool's guarantee that each server is fetched exactly once.
- The polling `default` branch with its `time.Sleep`, `fmt.Println` and `os.Exit`, and the progress bar (pkg/ls.go:82-93, 132, 204-220). These are timing and I/O. Completion is the loop condition `numDone != len(servers)`.
- pkg/cpx.go, which is HTTP and JSON decoding. `GetService` is modelled as supplied samples. cmd/ls.go, the command-line flag plumbing, is not part of this model.
- The terminal widgets: go-pretty's text rendering and styles, termui's `Init`/`Render`/`PollEvents`, the quit loop and the ticker goroutines (pkg/render.go:26-28, 70, 74-83, 104-110, 123-173). A tick is a sequential method call. The static table is modelled by the header rows, the separate-rows option and the body rows it is given.
- The chart buffers are `[]float64` in the source. The averages written there are whole numbers, so the model uses `int` arrays.
- `RenderOutputFollow` for a service with no entry: the nil interface matches neither case, and only the empty widget is shown. That case is not modelled.
- Go strings are byte sequences. The model uses `string` as a sequence of characters. Parsing and formatting only look at ASCII digits and signs, so the two agree on these texts.
- Go's map iteration order in `RenderOutput` is non-deterministic. It is the `order` parameter, and no property relates different orders.
- Follow.MergedView.Tick: `lineIndex` is an unbounded natural number. Go's `int` would wrap after 2^63 ticks.
- LsFacts.RunningAvgExact: requires non-negative readings and no int32 overflow of `avg * n + v`. Beyond that bound the model still computes the wrapped int32 result that `RunningAvg` defines.
- LsFacts.MergedFoldWithin: proved only for non-negative bounds with `hi * len(outputs)` in the int32 range. Larger products can overflow `CpuAvg * len(Ips)` in the source.
- LsFacts.MergedFold: the no-division-by-zero guarantee needs fewer than 2^31 samples. At 2^32 IPs `int32(len(Ips))` wraps to 0, which the model keeps as the `DivideByZero` outcome.
- FollowFacts.MergedAverageWithin: requires `hi * len(ips)` to fit in 64 bits. Otherwise the 64-bit sums wrap.
- FollowFacts.TwoSampleAverages: stated for readings between 0 and 100 only.
- FollowFacts.DefaultTickWrites and FollowFacts.DefaultRefresh: stated only for IPs on distinct rows. With a repeated IP, the row shows the last sample. The model computes that case but no lemma states it.
- The order dependence of the merged running average (its truncation drift across arrival orders) is computed by the model, but no lemma states it.
- After a fatal outcome the process exits. The model returns the state at that point, with a default tick's cells 2-3 already written, and states nothing about later ticks.
