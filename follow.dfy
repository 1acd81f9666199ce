/** The live view of `RenderOutputFollow` (pkg/render.go) for one service: the table set up
    from the rows of the first pass, and the per-tick refresh of `updateDefault` and
    `updateMerged`. Each tick's fetches (`GetService(ip)` for every IP, in order) are the
    parameter `samples`; the chart buffers hold the whole numbers the source stores. */
module Follow {
  import opened Wrappers
  import opened GoInt
  import opened Ls
  import opened Render

  /** `dataPoints`: the length of each history buffer. */
  const DataPoints: nat := 80

  // ---------------------------------------------------------------- table cells

  /** Every row of the table has the five columns of the header. */
  predicate FiveColumns(rows: seq<seq<string>>)
  {
    forall i :: 0 <= i < |rows| ==> |rows[i]| == 5
  }

  /** `rows[i][j] = v`. */
  function WriteCell(rows: seq<seq<string>>, i: int, j: int, v: string): (r: seq<seq<string>>)
    requires 0 <= i < |rows| && 0 <= j < |rows[i]|
    ensures |r| == |rows| && |r[i]| == |rows[i]|
  {
    rows[i := rows[i][j := v]]
  }

  // ---------------------------------------------------------------- default mode: set-up

  /** The `ips` slice built at set-up: one entry per row, in order. */
  function RowIps(r: seq<DefaultRow>): (ips: seq<string>)
    ensures |ips| == |r|
    ensures forall i :: 0 <= i < |r| ==> ips[i] == r[i].ip
  {
    seq(|r|, i requires 0 <= i < |r| => r[i].ip)
  }

  /** The `index` map built at set-up: `index[info.Ip] = len(table.Rows)` before each append,
      so the i-th row (0-based) is recorded as table row i + 1, a later row overwriting an
      earlier one with the same IP. */
  function IndexOf(r: seq<DefaultRow>): map<string, int>
    decreases |r|
  {
    if r == [] then map[] else IndexOf(r[..|r| - 1])[r[|r| - 1].ip := |r|]
  }

  /** The set-up loop of the default case. */
  method BuildDefaultTable(r: seq<DefaultRow>) returns (rows: seq<seq<string>>, ips: seq<string>, index: map<string, int>)
    ensures rows == [DefaultHeader] + DefaultRowsCells(r)
    ensures ips == RowIps(r)
    ensures index == IndexOf(r)
  {
    rows := [DefaultHeader];
    ips := [];
    index := map[];
    for i := 0 to |r|
      invariant rows == [DefaultHeader] + DefaultRowsCells(r[..i])
      invariant ips == RowIps(r[..i])
      invariant index == IndexOf(r[..i])
    {
      assert r[..i + 1][..i] == r[..i];
      index := index[r[i].ip := |rows|];
      rows := rows + [DefaultCells(r[i])];
      ips := ips + [r[i].ip];
    }
    assert r[..|r|] == r;
  }

  // ---------------------------------------------------------------- default mode: one tick

  /** Go's `index[ip]`: the zero value for a missing key. */
  function Lookup(index: map<string, int>, ip: string): int
  {
    if ip in index then index[ip] else 0
  }

  /** Every recorded row position is a body row of the table. */
  predicate IndexFits(rows: seq<seq<string>>, index: map<string, int>)
  {
    forall ip :: ip in index ==> 1 <= index[ip] < |rows|
  }

  /** One iteration of `updateDefault` for sample `s` of `ip`: cpu and memory texts first,
      then the status, unless `isUnhealthy` stops the process (with the two texts written). */
  function WriteSample(rows: seq<seq<string>>, i: int, s: ServiceResponse): (r: (seq<seq<string>>, Option<Fatal>))
    requires 0 <= i < |rows| && FiveColumns(rows)
    ensures |r.0| == |rows| && FiveColumns(r.0)
  {
    var t := WriteCell(WriteCell(rows, i, 2, s.cpu), i, 3, s.memory);
    match IsUnhealthy(s.cpu, s.memory)
    case Failure(e) => (t, Some(e))
    case Success(status) => (WriteCell(t, i, 4, StatusText(status)), None)
  }

  /** `updateDefault` over the IPs in order with samples `samples[i]` for `ips[i]`: the table
      afterwards and the fatal outcome, if any (the first one ends the tick). */
  function DefaultTick(rows: seq<seq<string>>, ips: seq<string>, index: map<string, int>,
                       samples: seq<ServiceResponse>): (r: (seq<seq<string>>, Option<Fatal>))
    requires |samples| == |ips| && FiveColumns(rows) && |rows| >= 1 && IndexFits(rows, index)
    ensures |r.0| == |rows| && FiveColumns(r.0)
    decreases |ips|
  {
    if ips == [] then (rows, None)
    else
      var n := |ips| - 1;
      var before := DefaultTick(rows, ips[..n], index, samples[..n]);
      if before.1.Some? then before
      else WriteSample(before.0, Lookup(index, ips[n]), samples[n])
  }

  /** The default-mode view: the widget's rows and the set-up's `ips` and `index`. */
  class DefaultView {
    var rows: seq<seq<string>>
    const ips: seq<string>
    const index: map<string, int>

    ghost predicate Valid()
      reads this
    {
      |rows| >= 1 && FiveColumns(rows) && IndexFits(rows, index) &&
      forall i :: 0 <= i < |ips| ==> ips[i] in index
    }

    constructor (r: seq<DefaultRow>)
      ensures Valid()
      ensures rows == [DefaultHeader] + DefaultRowsCells(r) && ips == RowIps(r) && index == IndexOf(r)
    {
      var rows0, ips0, index0 := BuildDefaultTable(r);
      IndexOfFits(r);
      rows := rows0;
      ips := ips0;
      index := index0;
    }

    /** One tick of the default view: `updateDefault(table.Rows, ips, index)`. */
    method UpdateDefault(samples: seq<ServiceResponse>) returns (err: Option<Fatal>)
      requires Valid() && |samples| == |ips|
      modifies this
      ensures Valid()
      ensures (rows, err) == DefaultTick(old(rows), ips, index, samples)
    {
      ghost var start := rows;
      for k := 0 to |ips|
        invariant |rows| == |start| && FiveColumns(rows) && Valid()
        invariant DefaultTick(start, ips[..k], index, samples[..k]) == (rows, None)
      {
        DefaultTickSnoc(start, ips, index, samples, k);
        ghost var prev := rows;
        var s := samples[k];
        var rowIndex := Lookup(index, ips[k]);
        rows := WriteCell(rows, rowIndex, 2, s.cpu);
        rows := WriteCell(rows, rowIndex, 3, s.memory);
        var status := IsUnhealthy(s.cpu, s.memory);
        if status.Failure? {
          err := Some(status.error);
          assert (rows, err) == WriteSample(prev, rowIndex, s);
          DefaultTickStops(start, ips, index, samples, k + 1);
          return;
        }
        rows := WriteCell(rows, rowIndex, 4, StatusText(status.value));
        assert (rows, None) == WriteSample(prev, rowIndex, s);
      }
      assert ips[..|ips|] == ips && samples[..|samples|] == samples;
      err := None;
    }
  }

  /** One more iteration of the tick. */
  lemma DefaultTickSnoc(rows: seq<seq<string>>, ips: seq<string>, index: map<string, int>,
                        samples: seq<ServiceResponse>, k: nat)
    requires |samples| == |ips| && FiveColumns(rows) && |rows| >= 1 && IndexFits(rows, index)
    requires k < |ips|
    ensures var before := DefaultTick(rows, ips[..k], index, samples[..k]);
      DefaultTick(rows, ips[..k + 1], index, samples[..k + 1]) ==
        if before.1.Some? then before else WriteSample(before.0, Lookup(index, ips[k]), samples[k])
  {
    assert ips[..k + 1][..k] == ips[..k] && samples[..k + 1][..k] == samples[..k];
  }

  /** The set-up index records positions 1..n of the n body rows. */
  lemma {:induction false} IndexOfFits(r: seq<DefaultRow>)
    ensures forall ip :: ip in IndexOf(r) ==> 1 <= IndexOf(r)[ip] <= |r|
    ensures forall i :: 0 <= i < |r| ==> r[i].ip in IndexOf(r)
    decreases |r|
  {
    if r != [] {
      var front := r[..|r| - 1];
      IndexOfFits(front);
      forall i | 0 <= i < |r| ensures r[i].ip in IndexOf(r) {
        if i < |r| - 1 { assert r[i] == front[i]; }
      }
    }
  }

  /** Once an iteration is fatal, the tick's outcome is that iteration's. */
  lemma {:induction false} DefaultTickStops(rows: seq<seq<string>>, ips: seq<string>, index: map<string, int>,
                                            samples: seq<ServiceResponse>, k: nat)
    requires |samples| == |ips| && FiveColumns(rows) && |rows| >= 1 && IndexFits(rows, index)
    requires k <= |ips| && DefaultTick(rows, ips[..k], index, samples[..k]).1.Some?
    ensures DefaultTick(rows, ips, index, samples) == DefaultTick(rows, ips[..k], index, samples[..k])
    decreases |ips| - k
  {
    if k < |ips| {
      assert ips[..k + 1][..k] == ips[..k] && samples[..k + 1][..k] == samples[..k];
      DefaultTickStops(rows, ips, index, samples, k + 1);
    } else {
      assert ips[..k] == ips && samples[..k] == samples;
    }
  }

  // ---------------------------------------------------------------- merged mode: one tick

  /** One iteration of `updateMerged`'s loop: add the sample's two readings to the sums (Go
      `int`, 64 bits), or stop at the first text that does not parse, cpu before memory. */
  function AddSample(sums: Result<(int, int), Fatal>, s: ServiceResponse): Result<(int, int), Fatal>
  {
    match sums
    case Failure(e) => Failure(e)
    case Success(sums) =>
      match ParsePair(s.cpu, s.memory)
      case Failure(e) => Failure(e)
      case Success(p) => Success((Wrap64(sums.0 + p.0), Wrap64(sums.1 + p.1)))
  }

  /** The two sums of `updateMerged`'s loop over the samples in order. */
  function MergedSums(samples: seq<ServiceResponse>): (r: Result<(int, int), Fatal>)
    decreases |samples|
  {
    if samples == [] then Success((0, 0))
    else AddSample(MergedSums(samples[..|samples| - 1]), samples[|samples| - 1])
  }

  /** `cpuSum / len(ips)` and `memSum / len(ips)`, truncating. */
  function MergedAverages(samples: seq<ServiceResponse>): Result<(int, int), Fatal>
    requires samples != []
  {
    match MergedSums(samples)
    case Failure(e) => Failure(e)
    case Success(sums) => Success((Quot(sums.0, |samples|), Quot(sums.1, |samples|)))
  }

  /** The ring position a tick writes: `lineIndex % dataPoints`. */
  function Slot(lineIndex: nat): (j: nat)
    ensures j < DataPoints
  {
    lineIndex % DataPoints
  }

  /** What a history buffer holds after the values `hist` were written at ticks 0, 1, …: at
      position j the latest value written there, and the initial 0 where none was. */
  function RingBuffer(hist: seq<int>): (buf: seq<int>)
    ensures |buf| == DataPoints
    decreases |hist|
  {
    if hist == [] then seq(DataPoints, j => 0)
    else RingBuffer(hist[..|hist| - 1])[Slot(|hist| - 1) := hist[|hist| - 1]]
  }

  /** The merged-mode view: the two-row table, the service's IPs and the two charts. */
  class MergedView {
    var rows: seq<seq<string>>
    const ips: seq<string>
    const cpu: array<int>
    const mem: array<int>
    var lineIndex: nat
    /** The averages written so far, one per completed tick. */
    ghost var cpuHistory: seq<int>
    ghost var memHistory: seq<int>

    ghost predicate Valid()
      reads this, cpu, mem
    {
      |ips| >= 1 && |rows| == 2 && FiveColumns(rows) &&
      cpu.Length == DataPoints && mem.Length == DataPoints && cpu != mem &&
      lineIndex == |cpuHistory| == |memHistory| &&
      cpu[..] == RingBuffer(cpuHistory) && mem[..] == RingBuffer(memHistory)
    }

    /** The merged case of the set-up: the header, one row for the merged entry (IPs joined
        with ", "), and two zeroed buffers. */
    constructor (r: MergedRow)
      requires |r.ips| >= 1
      ensures Valid() && fresh(cpu) && fresh(mem)
      ensures rows == [MergedHeader, MergedCells(r, ", ")] && ips == r.ips
      ensures lineIndex == 0 && cpuHistory == [] && memHistory == []
    {
      rows := [MergedHeader, MergedCells(r, ", ")];
      ips := r.ips;
      cpu := new int[DataPoints](_ => 0);
      mem := new int[DataPoints](_ => 0);
      lineIndex := 0;
      cpuHistory := [];
      memHistory := [];
    }

    /** `updateMerged(table.Rows, r.Ips, lc0.Data, lc1.Data, li)`: on a parse failure the process
        stops before anything is written. */
    method UpdateMerged(samples: seq<ServiceResponse>, li: nat) returns (err: Option<Fatal>)
      requires |samples| == |ips| >= 1 && |rows| == 2 && FiveColumns(rows)
      requires li < cpu.Length && cpu.Length == mem.Length && cpu != mem
      modifies this, cpu, mem
      ensures lineIndex == old(lineIndex) && cpuHistory == old(cpuHistory) && memHistory == old(memHistory)
      ensures MergedAverages(samples).Failure? ==>
        err == Some(MergedAverages(samples).error) &&
        rows == old(rows) && cpu[..] == old(cpu[..]) && mem[..] == old(mem[..])
      ensures MergedAverages(samples).Success? ==>
        var avg := MergedAverages(samples).value;
        err == None &&
        rows == old(rows)[1 := old(rows)[1][2 := PercentText(avg.0)][3 := PercentText(avg.1)]] &&
        cpu[..] == old(cpu[..])[li := avg.0] && mem[..] == old(mem[..])[li := avg.1]
    {
      var sums := SumSamples(samples);
      if sums.Failure? {
        return Some(sums.error);
      }
      var cpuSum, memSum := sums.value.0, sums.value.1;
      var cpuAvg := Quot(cpuSum, |ips|);
      var memAvg := Quot(memSum, |ips|);
      assert MergedAverages(samples) == Success((cpuAvg, memAvg));
      rows := WriteCell(rows, 1, 2, PercentText(cpuAvg));
      rows := WriteCell(rows, 1, 3, PercentText(memAvg));
      cpu[li] := cpuAvg;
      mem[li] := memAvg;
      return None;
    }

    /** One tick of the merged view: update at `lineIndex % dataPoints`, then `lineIndex++`. */
    method Tick(samples: seq<ServiceResponse>) returns (err: Option<Fatal>)
      requires Valid() && |samples| == |ips|
      modifies this, cpu, mem
      ensures Valid()
      ensures MergedAverages(samples).Failure? ==>
        err == Some(MergedAverages(samples).error) && rows == old(rows) &&
        lineIndex == old(lineIndex) && cpuHistory == old(cpuHistory) && memHistory == old(memHistory)
      ensures MergedAverages(samples).Success? ==>
        var avg := MergedAverages(samples).value;
        err == None && lineIndex == old(lineIndex) + 1 &&
        rows == old(rows)[1 := old(rows)[1][2 := PercentText(avg.0)][3 := PercentText(avg.1)]] &&
        cpuHistory == old(cpuHistory) + [avg.0] && memHistory == old(memHistory) + [avg.1]
    {
      err := UpdateMerged(samples, Slot(lineIndex));
      if err.None? {
        var avg := MergedAverages(samples).value;
        RingBufferSnoc(cpuHistory, avg.0);
        RingBufferSnoc(memHistory, avg.1);
        cpuHistory := cpuHistory + [avg.0];
        memHistory := memHistory + [avg.1];
        lineIndex := lineIndex + 1;
      }
    }
  }

  /** The loop of `updateMerged`: fetch, parse and add up, in IP order; a text that does not
      parse ends the process. */
  method SumSamples(samples: seq<ServiceResponse>) returns (sums: Result<(int, int), Fatal>)
    ensures sums == MergedSums(samples)
  {
    var cpuSum := 0;
    var memSum := 0;
    for i := 0 to |samples|
      invariant MergedSums(samples[..i]) == Success((cpuSum, memSum))
    {
      MergedSumsSnoc(samples, i);
      var s := samples[i];
      AddSampleCases(cpuSum, memSum, s);
      var parsedCpu := ParsePercent(s.cpu);
      if parsedCpu.None? {
        MergedSumsStops(samples, i + 1);
        return Failure(CpuParseError);
      }
      var parsedMem := ParsePercent(s.memory);
      if parsedMem.None? {
        MergedSumsStops(samples, i + 1);
        return Failure(MemParseError);
      }
      cpuSum := Wrap64(cpuSum + parsedCpu.value);
      memSum := Wrap64(memSum + parsedMem.value);
    }
    assert samples[..|samples|] == samples;
    return Success((cpuSum, memSum));
  }

  /** One iteration from sums `c` and `m`: cpu is parsed first, then memory. */
  lemma AddSampleCases(c: int, m: int, s: ServiceResponse)
    ensures ParsePercent(s.cpu).None? ==> AddSample(Success((c, m)), s) == Failure(CpuParseError)
    ensures ParsePercent(s.cpu).Some? && ParsePercent(s.memory).None? ==>
      AddSample(Success((c, m)), s) == Failure(MemParseError)
    ensures ParsePercent(s.cpu).Some? && ParsePercent(s.memory).Some? ==>
      AddSample(Success((c, m)), s) ==
        Success((Wrap64(c + ParsePercent(s.cpu).value), Wrap64(m + ParsePercent(s.memory).value)))
  {
  }

  /** Once a sample fails to parse, the sums fail the same way. */
  lemma {:induction false} MergedSumsStops(samples: seq<ServiceResponse>, k: nat)
    requires k <= |samples| && MergedSums(samples[..k]).Failure?
    ensures MergedSums(samples) == MergedSums(samples[..k])
    decreases |samples| - k
  {
    if k < |samples| {
      assert samples[..k + 1][..k] == samples[..k];
      MergedSumsStops(samples, k + 1);
    } else {
      assert samples[..k] == samples;
    }
  }

  /** One more sample of the loop. */
  lemma MergedSumsSnoc(samples: seq<ServiceResponse>, i: nat)
    requires i < |samples|
    ensures MergedSums(samples[..i + 1]) == AddSample(MergedSums(samples[..i]), samples[i])
  {
    assert samples[..i + 1][..i] == samples[..i];
  }

  /** A write at the next tick's slot is the ring buffer of the longer history. */
  lemma RingBufferSnoc(hist: seq<int>, v: int)
    ensures RingBuffer(hist + [v]) == RingBuffer(hist)[Slot(|hist|) := v]
  {
    assert (hist + [v])[..|hist|] == hist;
  }
}
