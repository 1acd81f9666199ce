/** What the `ls` fold guarantees: the classifier's thresholds, the per-service contents of
    the table in both modes, the replica-count invariant and the arithmetic of the running
    average. */
module LsFacts {
  import opened Wrappers
  import opened GoInt
  import opened GoStrings
  import opened Ls

  // ---------------------------------------------------------------- classifier

  /** The thresholds are strict: exactly 90% cpu and 80% memory are still healthy. */
  lemma ClassifyBoundaries()
    ensures Classify(90, 50) == Healthy && Classify(91, 50) == Unhealthy
    ensures Classify(50, 80) == Healthy && Classify(50, 81) == Unhealthy
  {
  }

  /** Unhealthy exactly when either threshold is exceeded. */
  lemma ClassifyIff(cpu: int, mem: int)
    ensures Classify(cpu, mem) == Unhealthy <==> cpu > 90 || mem > 80
  {
  }

  /** BeforePercent keeps a text that has no `%` whole, and cuts `t + "%" + rest` back to `t`. */
  lemma {:induction false} BeforePercentOf(t: string, rest: string)
    requires '%' !in t
    ensures BeforePercent(t) == t
    ensures BeforePercent(t + "%" + rest) == t
    decreases |t|
  {
    if t == [] {
      assert ("" + "%" + rest)[0] == '%';
    } else {
      assert '%' !in t[1..] by { assert forall x :: x in t[1..] ==> x in t; }
      BeforePercentOf(t[1..], rest);
      assert (t + "%" + rest)[1..] == t[1..] + "%" + rest;
      assert [t[0]] + t[1..] == t;
    }
  }

  /** The percentage text the tables show, `FormatInt(n) + "%"`, parses back to `n`. */
  lemma ParsePercentOfText(s: string, n: int)
    requires IsInt64(n) && s == FormatInt(n) + "%"
    ensures ParsePercent(s) == Some(n)
  {
    var t := FormatInt(n);
    forall i | 0 <= i < |t| ensures t[i] != '%' {
      if i > 0 { assert t[i] == t[1..][i - 1]; }
    }
    BeforePercentOf(t, "");
    assert t + "%" + "" == t + "%";
    AtoiFormatInt(n);
  }

  /** `isUnhealthy` on the texts the API sends classifies the numbers they denote. */
  lemma IsUnhealthyOfText(cpu: int, mem: int)
    requires IsInt64(cpu) && IsInt64(mem)
    ensures IsUnhealthy(FormatInt(cpu) + "%", FormatInt(mem) + "%") == Success(Classify(cpu, mem))
  {
    ParsePercentOfText(FormatInt(cpu) + "%", cpu);
    ParsePercentOfText(FormatInt(mem) + "%", mem);
  }

  // ---------------------------------------------------------------- running average

  /** Without overflow the int32 update is the documented formula `((avg * n) + v) / (n + 1)`. */
  lemma RunningAvgExact(avg: int, n: nat, v: int)
    requires 0 <= avg && 0 <= v && n + 1 <= MaxInt32
    requires avg * n + v <= MaxInt32
    ensures RunningAvg(avg, n, v) == (avg * n + v) / (n + 1)
  {
    var p := avg * n;
    MulMono(0, avg, n);
    assert Wrap32(n) == n && Wrap32(p) == p && Wrap32(v) == v;
    assert Wrap32(p + v) == p + v && Wrap32(n + 1) == n + 1;
  }

  lemma MulMono(a: int, b: int, n: nat)
    requires a <= b
    ensures a * n <= b * n
  {
  }

  lemma MulCancel(a: int, b: int, d: int)
    requires d > 0 && a * d < b * d
    ensures a < b
  {
    if a >= b { MulMono(b, a, d); }
  }

  lemma DivBounds(x: int, lo: int, hi: int, d: int)
    requires d > 0 && 0 <= lo <= hi && lo * d <= x <= hi * d
    ensures lo <= x / d <= hi
  {
    var q := x / d;
    assert q * d <= x < (q + 1) * d;
    MulCancel(lo, q + 1, d);
    MulCancel(q, hi + 1, d);
  }

  /** One update keeps the average inside any non-negative range holding the old average
      and the new value, as long as `hi * (n + 1)` fits in an int32. */
  lemma RunningAvgWithin(avg: int, n: nat, v: int, lo: int, hi: int)
    requires 0 <= lo <= avg <= hi && lo <= v <= hi
    requires hi * (n + 1) <= MaxInt32 && n + 1 <= MaxInt32
    ensures lo <= RunningAvg(avg, n, v) <= hi
  {
    MulMono(avg, hi, n);
    MulMono(lo, avg, n);
    MulMono(0, lo, n);
    MulSucc(hi, n);
    MulSucc(lo, n);
    var x := avg * n + v;
    assert lo * (n + 1) <= x <= hi * (n + 1);
    RunningAvgExact(avg, n, v);
    DivBounds(x, lo, hi, n + 1);
  }

  lemma MulSucc(a: int, n: int)
    ensures a * (n + 1) == a * n + a
  {
  }

  /** Merge without overflow: the documented running-average formula on both metrics. */
  lemma MergeExact(row: MergedRow, ip: string, c: int, m: int)
    requires 0 <= row.cpuAvg && 0 <= row.memAvg && 0 <= c && 0 <= m && 0 <= row.replicas
    requires |row.ips| + 1 <= MaxInt32 && row.cpuAvg * |row.ips| + c <= MaxInt32 &&
             row.memAvg * |row.ips| + m <= MaxInt32 && row.replicas < MaxInt32
    ensures Wrap32(|row.ips| + 1) == |row.ips| + 1
    ensures Merge(row, ip, c, m) == MergedRow(row.ips + [ip], row.name,
      (row.cpuAvg * |row.ips| + c) / (|row.ips| + 1),
      (row.memAvg * |row.ips| + m) / (|row.ips| + 1), row.replicas + 1)
  {
    RunningAvgExact(row.cpuAvg, |row.ips|, c);
    RunningAvgExact(row.memAvg, |row.ips|, m);
  }

  /** A merged-mode step on a service not yet in the table creates its row from the sample's
      readings; every other service's entry stays. */
  lemma StepNew(rows: map<string, RowSet>, o: RunOutput, c: int, m: int)
    requires o.response.service !in rows
    requires ParsePair(o.response.cpu, o.response.memory) == Success((c, m))
    requires IsInt32(c) && IsInt32(m)
    ensures Step(true, rows, o) ==
      Success(rows[o.response.service := Merged(MergedRow([o.ip], o.response.service, c, m, 1))])
  {
    StepFresh(rows, o);
  }

  /** A merged-mode step on a service already in the table, without int32 overflow: the IP is
      appended, both averages follow `((avg * n) + v) / (n + 1)` and Replicas grows by one. */
  lemma StepMerged(rows: map<string, RowSet>, o: RunOutput, c: int, m: int)
    requires o.response.service in rows && rows[o.response.service].Merged?
    requires ParsePair(o.response.cpu, o.response.memory) == Success((c, m))
    requires var row := rows[o.response.service].row;
      0 <= row.cpuAvg && 0 <= row.memAvg && 0 <= c && 0 <= m && 0 <= row.replicas &&
      |row.ips| + 1 <= MaxInt32 && row.cpuAvg * |row.ips| + c <= MaxInt32 &&
      row.memAvg * |row.ips| + m <= MaxInt32 && row.replicas < MaxInt32
    ensures var row := rows[o.response.service].row;
      Step(true, rows, o) == Success(rows[o.response.service :=
        Merged(MergedRow(row.ips + [o.ip], row.name,
          (row.cpuAvg * |row.ips| + c) / (|row.ips| + 1),
          (row.memAvg * |row.ips| + m) / (|row.ips| + 1), row.replicas + 1))])
  {
    MergeExact(rows[o.response.service].row, o.ip, c, m);
    StepExisting(rows, o);
  }

  // ---------------------------------------------------------------- per-service views of a sample sequence

  /** The distinct service names among the outputs. */
  function ServicesOf(outs: seq<RunOutput>): set<string>
  {
    set i | 0 <= i < |outs| :: outs[i].response.service
  }

  /** The IPs of the outputs for service `k`, in arrival order. */
  function IpsFor(outs: seq<RunOutput>, k: string): (ips: seq<string>)
    ensures |ips| <= |outs|
    decreases |outs|
  {
    if outs == [] then []
    else
      var o := outs[|outs| - 1];
      IpsFor(outs[..|outs| - 1], k) + (if o.response.service == k then [o.ip] else [])
  }

  /** The default rows the outputs for service `k` produce, in arrival order. */
  function RowsFor(outs: seq<RunOutput>, k: string): seq<DefaultRow>
    decreases |outs|
  {
    if outs == [] then []
    else
      var o := outs[|outs| - 1];
      var status := IsUnhealthy(o.response.cpu, o.response.memory);
      RowsFor(outs[..|outs| - 1], k) +
        (if o.response.service == k && status.Success? then [NewDefaultRow(o, status.value)] else [])
  }

  lemma ServicesOfSnoc(outs: seq<RunOutput>)
    requires outs != []
    ensures ServicesOf(outs) == ServicesOf(outs[..|outs| - 1]) + {outs[|outs| - 1].response.service}
  {
    var front := outs[..|outs| - 1];
    forall k | k in ServicesOf(outs) ensures k in ServicesOf(front) + {outs[|outs| - 1].response.service} {
      var i :| 0 <= i < |outs| && outs[i].response.service == k;
      if i < |outs| - 1 { assert front[i] == outs[i]; }
    }
    forall k | k in ServicesOf(front) ensures k in ServicesOf(outs) {
      var i :| 0 <= i < |front| && front[i].response.service == k;
      assert outs[i] == front[i];
    }
  }

  // ---------------------------------------------------------------- default mode

  /** Default mode never merges: each service maps to exactly the rows of its own outputs,
      in arrival order, each classified individually. */
  lemma {:induction false} DefaultFold(outs: seq<RunOutput>)
    requires Fold(false, map[], outs).Success?
    ensures Fold(false, map[], outs).value.Keys == ServicesOf(outs)
    ensures forall k :: k in Fold(false, map[], outs).value ==>
      Fold(false, map[], outs).value[k] == DefaultRows(RowsFor(outs, k))
    decreases |outs|
  {
    if outs != [] {
      var front := outs[..|outs| - 1];
      var o := outs[|outs| - 1];
      assert front + [o] == outs;
      DefaultFold(front);
      ServicesOfSnoc(outs);
      var m := Fold(false, map[], front).value;
      forall k | k in Step(false, m, o).value
        ensures Step(false, m, o).value[k] == DefaultRows(RowsFor(outs, k))
      {
        DefaultStepRows(m, front, o, k);
      }
    }
  }

  /** One default-mode step keeps every entry equal to the rows of its service's outputs. */
  lemma DefaultStepRows(m: map<string, RowSet>, front: seq<RunOutput>, o: RunOutput, k: string)
    requires m.Keys == ServicesOf(front)
    requires forall j :: j in m ==> m[j] == DefaultRows(RowsFor(front, j))
    requires Step(false, m, o).Success? && k in Step(false, m, o).value
    ensures Step(false, m, o).value[k] == DefaultRows(RowsFor(front + [o], k))
  {
    var outs := front + [o];
    assert outs[..|outs| - 1] == front && outs[|outs| - 1] == o;
    StepDefault(m, o);
    if k == o.response.service && k !in m {
      NoRowsForAbsent(front, k);
    }
  }

  /** A default-mode step that parses appends the sample's classified row to its service's list. */
  lemma StepDefault(rows: map<string, RowSet>, o: RunOutput)
    requires Step(false, rows, o).Success?
    ensures IsUnhealthy(o.response.cpu, o.response.memory).Success?
    ensures var k := o.response.service;
      Step(false, rows, o) == Success(rows[k := DefaultRows((if k in rows then AsDefault(rows[k]) else []) +
        [NewDefaultRow(o, IsUnhealthy(o.response.cpu, o.response.memory).value)])])
  {
  }

  lemma {:induction false} NoRowsForAbsent(outs: seq<RunOutput>, k: string)
    requires k !in ServicesOf(outs)
    ensures RowsFor(outs, k) == []
    decreases |outs|
  {
    if outs != [] {
      ServicesOfSnoc(outs);
      NoRowsForAbsent(outs[..|outs| - 1], k);
    }
  }

  /** The number of default rows in a table, over all services. */
  ghost function TotalRows(m: map<string, RowSet>): nat
    decreases |m|
  {
    if m == map[] then 0
    else
      var k :| k in m;
      |AsDefault(m[k])| + TotalRows(m - {k})
  }

  lemma {:induction false} TotalRowsRemove(m: map<string, RowSet>, k: string)
    requires k in m
    ensures TotalRows(m) == |AsDefault(m[k])| + TotalRows(m - {k})
    decreases |m|
  {
    var j :| j in m && TotalRows(m) == |AsDefault(m[j])| + TotalRows(m - {j});
    if j != k {
      assert |m - {j}| < |m| by { assert m - {j} != m && (m - {j}).Keys <= m.Keys; CardLess(m, j); }
      assert |m - {k}| < |m| by { CardLess(m, k); }
      TotalRowsRemove(m - {j}, k);
      TotalRowsRemove(m - {k}, j);
      assert m - {j} - {k} == m - {k} - {j};
    }
  }

  lemma CardLess(m: map<string, RowSet>, k: string)
    requires k in m
    ensures |m - {k}| == |m| - 1
  {
    assert (m - {k}).Keys == m.Keys - {k};
  }

  /** Default mode: the table holds exactly one row per sample processed. */
  lemma {:induction false} DefaultFoldTotal(outs: seq<RunOutput>)
    requires Fold(false, map[], outs).Success?
    ensures TotalRows(Fold(false, map[], outs).value) == |outs|
    decreases |outs|
  {
    if outs != [] {
      var front := outs[..|outs| - 1];
      DefaultFoldTotal(front);
      DefaultStepTotal(Fold(false, map[], front).value, outs[|outs| - 1]);
    }
  }

  /** A default-mode step adds exactly one row to the table. */
  lemma DefaultStepTotal(m: map<string, RowSet>, o: RunOutput)
    requires Step(false, m, o).Success?
    ensures TotalRows(Step(false, m, o).value) == TotalRows(m) + 1
  {
    var k := o.response.service;
    StepDefault(m, o);
    var m' := Step(false, m, o).value;
    assert m' - {k} == m - {k};
    TotalRowsRemove(m', k);
    if k in m {
      TotalRowsRemove(m, k);
    } else {
      assert m - {k} == m;
    }
  }

  // ---------------------------------------------------------------- merged mode

  /** The shape of a merged-mode table built from `outs`: one merged row per service, named
      after it, holding that service's IPs in arrival order, with `Replicas == len(Ips)`. */
  ghost predicate MergedShape(m: map<string, RowSet>, outs: seq<RunOutput>)
  {
    m.Keys == ServicesOf(outs) && forall k :: k in m ==> MergedEntry(m, outs, k)
  }

  ghost predicate MergedEntry(m: map<string, RowSet>, outs: seq<RunOutput>, k: string)
    requires k in m
  {
    m[k].Merged? && m[k].row.name == k && m[k].row.ips == IpsFor(outs, k) &&
    m[k].row.replicas == |m[k].row.ips| && |m[k].row.ips| >= 1
  }

  /** One merged-mode step keeps the shape and, below 2^31 samples, never divides by zero. */
  lemma MergedStepShape(m: map<string, RowSet>, front: seq<RunOutput>, o: RunOutput)
    requires MergedShape(m, front) && |front| < MaxInt32
    ensures Step(true, m, o) != Failure(DivideByZero)
    ensures Step(true, m, o).Success? ==> MergedShape(Step(true, m, o).value, front + [o])
  {
    var outs := front + [o];
    assert outs[..|outs| - 1] == front;
    ServicesOfSnoc(outs);
    var k := o.response.service;
    if k in m {
      assert MergedEntry(m, front, k);
      assert Wrap32(|m[k].row.ips| + 1) != 0;
    }
    if Step(true, m, o).Success? {
      var m' := Step(true, m, o).value;
      forall j | j in m' ensures MergedEntry(m', outs, j) {
        MergedStepEntry(m, front, o, j);
      }
    }
  }

  /** One merged-mode step keeps the entry of every service in shape. */
  lemma MergedStepEntry(m: map<string, RowSet>, front: seq<RunOutput>, o: RunOutput, k: string)
    requires MergedShape(m, front) && |front| < MaxInt32
    requires Step(true, m, o).Success? && k in Step(true, m, o).value
    ensures MergedEntry(Step(true, m, o).value, front + [o], k)
  {
    var outs := front + [o];
    assert outs[..|outs| - 1] == front && outs[|outs| - 1] == o;
    var key := o.response.service;
    if k in m {
      assert MergedEntry(m, front, k);
    }
    if k == key {
      if k in m {
        assert |m[k].row.ips| <= |front|;
        assert Wrap32(|m[k].row.ips| + 1) == |m[k].row.ips| + 1;
        StepExisting(m, o);
      } else {
        ServicesOfSnoc(outs);
        NoIpsForAbsent(front, k);
        StepFresh(m, o);
      }
    }
  }

  /** Merged mode: every service holds one merged row named after it whose IPs are those of
      its outputs in arrival order, with `Replicas == len(Ips)`; with fewer than 2^31 samples
      the int32 divisor is never zero. */
  lemma {:induction false} MergedFold(outs: seq<RunOutput>)
    requires |outs| <= MaxInt32
    ensures Fold(true, map[], outs) != Failure(DivideByZero)
    ensures Fold(true, map[], outs).Success? ==> MergedShape(Fold(true, map[], outs).value, outs)
    decreases |outs|
  {
    if outs != [] {
      var front := outs[..|outs| - 1];
      var o := outs[|outs| - 1];
      assert front + [o] == outs;
      MergedFold(front);
      if Fold(true, map[], front).Success? {
        MergedStepShape(Fold(true, map[], front).value, front, o);
      }
    }
  }

  lemma {:induction false} NoIpsForAbsent(outs: seq<RunOutput>, k: string)
    requires k !in ServicesOf(outs)
    ensures IpsFor(outs, k) == []
    decreases |outs|
  {
    if outs != [] {
      ServicesOfSnoc(outs);
      NoIpsForAbsent(outs[..|outs| - 1], k);
    }
  }

  datatype Metric = CpuMetric | MemMetric

  function Reading(o: RunOutput, metric: Metric): string
  {
    if metric == CpuMetric then o.response.cpu else o.response.memory
  }

  function Average(row: MergedRow, metric: Metric): int
  {
    if metric == CpuMetric then row.cpuAvg else row.memAvg
  }

  /** The reading of `o` for `metric`, within `[lo, hi]`, is what ParsePair yields. */
  predicate ReadingWithin(o: RunOutput, metric: Metric, lo: int, hi: int)
  {
    ParsePercent(Reading(o, metric)).Some? && lo <= ParsePercent(Reading(o, metric)).value <= hi
  }

  /** Every reading of service `k` parses to a value in `[lo, hi]`. */
  predicate ReadingsWithin(outs: seq<RunOutput>, k: string, metric: Metric, lo: int, hi: int)
  {
    forall i :: 0 <= i < |outs| && outs[i].response.service == k ==> ReadingWithin(outs[i], metric, lo, hi)
  }

  /** One merged-mode step keeps service `k`'s average inside `[lo, hi]` when the old average
      and the new reading lie there. */
  lemma WithinStep(m: map<string, RowSet>, front: seq<RunOutput>, o: RunOutput,
                   k: string, metric: Metric, lo: int, hi: int)
    requires 0 <= lo <= hi
    requires MergedShape(m, front) && |front| < MaxInt32
    requires hi * (|front| + 1) <= MaxInt32
    requires k in m ==> lo <= Average(AsMerged(m[k]), metric) <= hi
    requires o.response.service == k ==> ReadingsWithin([o], k, metric, lo, hi)
    requires Step(true, m, o).Success? && k in Step(true, m, o).value
    ensures lo <= Average(AsMerged(Step(true, m, o).value[k]), metric) <= hi
  {
    if o.response.service == k {
      assert [o][0] == o;
      if k in m {
        assert MergedEntry(m, front, k);
        WithinExisting(m, o, metric, lo, hi, |front|);
      } else {
        WithinFresh(m, o, metric, lo, hi, |front|);
      }
    }
  }

  lemma WithinExisting(m: map<string, RowSet>, o: RunOutput, metric: Metric, lo: int, hi: int, bound: nat)
    requires 0 <= lo <= hi && bound < MaxInt32 && hi * (bound + 1) <= MaxInt32
    requires o.response.service in m && |AsMerged(m[o.response.service]).ips| <= bound
    requires lo <= Average(AsMerged(m[o.response.service]), metric) <= hi
    requires ReadingWithin(o, metric, lo, hi)
    requires Step(true, m, o).Success?
    ensures lo <= Average(AsMerged(Step(true, m, o).value[o.response.service]), metric) <= hi
  {
    var p := ParsePair(o.response.cpu, o.response.memory).value;
    assert ParsePercent(Reading(o, metric)).value == if metric == CpuMetric then p.0 else p.1;
    var row := AsMerged(m[o.response.service]);
    MergeWithin(row, o.ip, p.0, p.1, metric, lo, hi, bound);
    StepExisting(m, o);
  }

  lemma WithinFresh(m: map<string, RowSet>, o: RunOutput, metric: Metric, lo: int, hi: int, bound: nat)
    requires 0 <= lo <= hi && hi * (bound + 1) <= MaxInt32
    requires o.response.service !in m
    requires ReadingWithin(o, metric, lo, hi)
    requires Step(true, m, o).Success?
    ensures lo <= Average(AsMerged(Step(true, m, o).value[o.response.service]), metric) <= hi
  {
    var p := ParsePair(o.response.cpu, o.response.memory).value;
    assert ParsePercent(Reading(o, metric)).value == if metric == CpuMetric then p.0 else p.1;
    assert hi <= MaxInt32 by { MulMono(1, bound + 1, hi); }
    StepFresh(m, o);
  }

  /** Merging a reading within `[lo, hi]` into an average within `[lo, hi]` stays within it,
      for a row of at most `bound` IPs with `hi * (bound + 1)` in the int32 range. */
  lemma MergeWithin(row: MergedRow, ip: string, c: int, m: int, metric: Metric, lo: int, hi: int, bound: nat)
    requires 0 <= lo <= hi && lo <= Average(row, metric) <= hi
    requires lo <= (if metric == CpuMetric then c else m) <= hi
    requires |row.ips| <= bound < MaxInt32 && hi * (bound + 1) <= MaxInt32
    ensures Wrap32(|row.ips| + 1) == |row.ips| + 1
    ensures lo <= Average(Merge(row, ip, c, m), metric) <= hi
  {
    var n := |row.ips|;
    assert Wrap32(n + 1) == n + 1;
    MergeAverage(row, ip, c, m, metric);
    assert hi * (n + 1) <= MaxInt32 by {
      MulMono(n + 1, bound + 1, hi);
      assert (n + 1) * hi == hi * (n + 1) && (bound + 1) * hi == hi * (bound + 1);
    }
    RunningAvgWithin(Average(row, metric), n, if metric == CpuMetric then c else m, lo, hi);
  }

  /** A merged-mode step on a service already in the table merges the parsed sample into its
      row (when the int32 divisor is not zero). */
  lemma StepExisting(rows: map<string, RowSet>, o: RunOutput)
    requires o.response.service in rows && ParsePair(o.response.cpu, o.response.memory).Success?
    requires Wrap32(|AsMerged(rows[o.response.service]).ips| + 1) != 0
    ensures var p := ParsePair(o.response.cpu, o.response.memory).value;
      Step(true, rows, o) == Success(rows[o.response.service :=
        Merged(Merge(AsMerged(rows[o.response.service]), o.ip, p.0, p.1))])
  {
  }

  /** A merged-mode step on a service not yet in the table creates its row. */
  lemma StepFresh(rows: map<string, RowSet>, o: RunOutput)
    requires o.response.service !in rows && ParsePair(o.response.cpu, o.response.memory).Success?
    ensures var p := ParsePair(o.response.cpu, o.response.memory).value;
      Step(true, rows, o) == Success(rows[o.response.service := Merged(NewMergedRow(o, p.0, p.1))])
  {
  }

  /** Merging updates each metric's average by the running-average rule. */
  lemma MergeAverage(row: MergedRow, ip: string, c: int, m: int, metric: Metric)
    requires Wrap32(|row.ips| + 1) != 0
    ensures Average(Merge(row, ip, c, m), metric) ==
      RunningAvg(Average(row, metric), |row.ips|, if metric == CpuMetric then c else m)
  {
  }

  /** ReadingsWithin holds for every prefix and for the last output alone. */
  lemma ReadingsWithinSnoc(outs: seq<RunOutput>, k: string, metric: Metric, lo: int, hi: int)
    requires outs != [] && ReadingsWithin(outs, k, metric, lo, hi)
    ensures ReadingsWithin(outs[..|outs| - 1], k, metric, lo, hi)
    ensures ReadingsWithin([outs[|outs| - 1]], k, metric, lo, hi)
  {
    var front := outs[..|outs| - 1];
    forall i | 0 <= i < |front| ensures front[i] == outs[i] { }
    assert [outs[|outs| - 1]][0] == outs[|outs| - 1];
  }

  /** With non-negative readings, a merged average stays between the smallest and the largest
      value folded into it (take `lo` and `hi` to be those), provided `hi` times the number of
      samples fits in an int32. */
  lemma {:induction false} MergedFoldWithin(outs: seq<RunOutput>, k: string, metric: Metric, lo: int, hi: int)
    requires 0 <= lo <= hi && |outs| <= MaxInt32
    requires hi * |outs| <= MaxInt32
    requires ReadingsWithin(outs, k, metric, lo, hi)
    ensures Fold(true, map[], outs).Success? && k in Fold(true, map[], outs).value ==>
      lo <= Average(AsMerged(Fold(true, map[], outs).value[k]), metric) <= hi
    decreases |outs|
  {
    if outs != [] {
      var front := outs[..|outs| - 1];
      var o := outs[|outs| - 1];
      assert front + [o] == outs;
      ReadingsWithinSnoc(outs, k, metric, lo, hi);
      MulMono(|front|, |outs|, hi);
      MergedFold(front);
      MergedFoldWithin(front, k, metric, lo, hi);
      if Fold(true, map[], front).Success? {
        var m := Fold(true, map[], front).value;
        if Step(true, m, o).Success? && k in Step(true, m, o).value {
          WithinStep(m, front, o, k, metric, lo, hi);
        }
      }
    }
  }
}
