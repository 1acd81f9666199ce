/** The `ls` pass: the health classifier, the row shapes, and the fold that turns
    each fetched sample into the per-service row table (`RunLs` in pkg/ls.go). */
module Ls {
  import opened Wrappers
  import opened GoInt
  import opened GoStrings

  datatype ServiceStatus = Healthy | Unhealthy

  /** Everything that ends the process in the middle of a pass: `log.Fatalf` on a
      percentage that does not parse, and the runtime panic of an int32 division by zero. */
  datatype Fatal = CpuParseError | MemParseError | DivideByZero

  const CpuThreshold: int := 90
  const MemThreshold: int := 80

  /** The body the inventory API returns for one address. */
  datatype ServiceResponse = ServiceResponse(cpu: string, memory: string, service: string)

  /** One fetch result as the collector receives it. */
  datatype RunOutput = RunOutput(response: ServiceResponse, ip: string)

  /** `MergedLsRow`: all instances of one service; the averages and the replica count are int32. */
  datatype MergedRow = MergedRow(ips: seq<string>, name: string, cpuAvg: int, memAvg: int, replicas: int)

  /** `DefaultLsRow`: one instance, with its raw percentage texts. */
  datatype DefaultRow = DefaultRow(ip: string, name: string, status: ServiceStatus, cpu: string, mem: string)

  /** What the table holds under one service name: a list of default rows or one merged row. */
  datatype RowSet = DefaultRows(rows: seq<DefaultRow>) | Merged(row: MergedRow)

  /** `strconv.Atoi(strings.Split(s, "%")[0])`. */
  function ParsePercent(s: string): (r: Option<int>)
  {
    Atoi(BeforePercent(s))
  }

  function Classify(cpu: int, mem: int): (status: ServiceStatus)
  {
    if cpu > CpuThreshold || mem > MemThreshold then Unhealthy else Healthy
  }

  /** The two `strconv.Atoi(strings.Split(_, "%")[0])` calls, cpu first: the first text
      that does not parse is the fatal error. */
  function ParsePair(cpu: string, mem: string): (r: Result<(int, int), Fatal>)
  {
    match ParsePercent(cpu)
    case None => Failure(CpuParseError)
    case Some(c) =>
      match ParsePercent(mem)
      case None => Failure(MemParseError)
      case Some(m) => Success((c, m))
  }

  /** `isUnhealthy`: parses the cpu text, then the memory text (either failure is fatal),
      and classifies the pair against the fixed thresholds. */
  function IsUnhealthy(cpu: string, mem: string): (r: Result<ServiceStatus, Fatal>)
    ensures r.Success? <==> ParsePercent(cpu).Some? && ParsePercent(mem).Some?
    ensures r == Failure(CpuParseError) <==> ParsePercent(cpu).None?
    ensures r == Failure(MemParseError) <==> ParsePercent(cpu).Some? && ParsePercent(mem).None?
    ensures r.Success? ==>
      (r.value == Unhealthy <==> ParsePercent(cpu).value > 90 || ParsePercent(mem).value > 80)
  {
    match ParsePair(cpu, mem)
    case Failure(e) => Failure(e)
    case Success(p) => Success(Classify(p.0, p.1))
  }

  /** The zero `MergedLsRow` that Go's `v.(MergedLsRow)` yields when `v` holds the other shape. */
  const ZeroMergedRow: MergedRow := MergedRow([], "", 0, 0, 0)

  function AsMerged(rs: RowSet): (row: MergedRow)
  {
    if rs.Merged? then rs.row else ZeroMergedRow
  }

  /** Go's `v.([]DefaultLsRow)`: the rows, or a nil slice for the other shape. */
  function AsDefault(rs: RowSet): (rows: seq<DefaultRow>)
  {
    if rs.DefaultRows? then rs.rows else []
  }

  /** The int32 running-average update of one merged metric, with `n` the old number of
      IPs: multiply by `int32(n)`, add `int32(v)`, divide by `int32(n + 1)`. */
  function RunningAvg(avg: int, n: int, v: int): (newAvg: int)
    requires Wrap32(n + 1) != 0
  {
    Quot32(Wrap32(Wrap32(avg * Wrap32(n)) + Wrap32(v)), Wrap32(n + 1))
  }

  /** The merged row after one more sample from `ip` with parsed values `c` and `m`. */
  function Merge(row: MergedRow, ip: string, c: int, m: int): (merged: MergedRow)
    requires Wrap32(|row.ips| + 1) != 0
  {
    MergedRow(row.ips + [ip], row.name,
              RunningAvg(row.cpuAvg, |row.ips|, c),
              RunningAvg(row.memAvg, |row.ips|, m),
              Wrap32(row.replicas + 1))
  }

  function NewMergedRow(o: RunOutput, c: int, m: int): MergedRow
  {
    MergedRow([o.ip], o.response.service, Wrap32(c), Wrap32(m), 1)
  }

  function NewDefaultRow(o: RunOutput, status: ServiceStatus): DefaultRow
  {
    DefaultRow(o.ip, o.response.service, status, o.response.cpu, o.response.memory)
  }

  /** The table after receiving one output, or the fatal outcome that stops the process
      (the table is then not changed). Only the sample's own service entry can change. */
  function Step(merged: bool, rows: map<string, RowSet>, o: RunOutput): (r: Result<map<string, RowSet>, Fatal>)
    ensures r.Success? ==> r.value.Keys == rows.Keys + {o.response.service}
    ensures r.Success? ==> forall k :: k in rows && k != o.response.service ==> r.value[k] == rows[k]
    ensures ParsePair(o.response.cpu, o.response.memory).Failure? ==>
      r == Failure(ParsePair(o.response.cpu, o.response.memory).error)
    ensures r.Failure? && r.error != DivideByZero ==> ParsePair(o.response.cpu, o.response.memory).Failure?
    ensures r == Failure(DivideByZero) ==> merged && o.response.service in rows
  {
    var key := o.response.service;
    match ParsePair(o.response.cpu, o.response.memory)
    case Failure(e) => Failure(e)
    case Success(p) =>
      if merged then
        if key !in rows then Success(rows[key := Merged(NewMergedRow(o, p.0, p.1))])
        else
          var row := AsMerged(rows[key]);
          if Wrap32(|row.ips| + 1) == 0 then Failure(DivideByZero)
          else Success(rows[key := Merged(Merge(row, o.ip, p.0, p.1))])
      else
        var before := if key in rows then AsDefault(rows[key]) else [];
        Success(rows[key := DefaultRows(before + [NewDefaultRow(o, Classify(p.0, p.1))])])
  }

  /** The table after receiving `outs` in order, starting from `rows`; the first fatal outcome wins. */
  function Fold(merged: bool, rows: map<string, RowSet>, outs: seq<RunOutput>): (r: Result<map<string, RowSet>, Fatal>)
    decreases |outs|
  {
    if outs == [] then Success(rows)
    else
      match Fold(merged, rows, outs[..|outs| - 1])
      case Failure(e) => Failure(e)
      case Success(m) => Step(merged, m, outs[|outs| - 1])
  }

  function IpsOf(outs: seq<RunOutput>): (ips: seq<string>)
    ensures |ips| == |outs|
    ensures forall i :: 0 <= i < |outs| ==> ips[i] == outs[i].ip
  {
    seq(|outs|, i requires 0 <= i < |outs| => outs[i].ip)
  }

  /** The in-place field updates of the `ok && merged` branch on the copy of the stored
      row (pkg/ls.go:147-157): None when `int32(len(Ips))` is zero and the division panics. */
  method UpdateMergedRow(row: MergedRow, ip: string, parsedCpu: int, parsedMem: int) returns (r: Option<MergedRow>)
    ensures r.None? <==> Wrap32(|row.ips| + 1) == 0
    ensures r.Some? ==> Wrap32(|row.ips| + 1) != 0 && r.value == Merge(row, ip, parsedCpu, parsedMem)
  {
    var mergedRow := row;
    var n := Wrap32(|mergedRow.ips|);
    mergedRow := mergedRow.(cpuAvg := Wrap32(mergedRow.cpuAvg * n));
    mergedRow := mergedRow.(memAvg := Wrap32(mergedRow.memAvg * n));
    mergedRow := mergedRow.(ips := mergedRow.ips + [ip]);
    mergedRow := mergedRow.(replicas := Wrap32(mergedRow.replicas + 1));
    mergedRow := mergedRow.(cpuAvg := Wrap32(mergedRow.cpuAvg + Wrap32(parsedCpu)));
    mergedRow := mergedRow.(memAvg := Wrap32(mergedRow.memAvg + Wrap32(parsedMem)));
    var divisor := Wrap32(|mergedRow.ips|);
    if divisor == 0 { return None; }
    mergedRow := mergedRow.(cpuAvg := Quot32(mergedRow.cpuAvg, divisor));
    mergedRow := mergedRow.(memAvg := Quot32(mergedRow.memAvg, divisor));
    return Some(mergedRow);
  }

  /** The receive side of `RunLs`: a table keyed by service name and a completion counter. */
  class Collector {
    /** The `--merged` flag, fixed for the run. */
    const merged: bool
    /** The address list the pass was started for. */
    const servers: seq<string>
    var rows: map<string, RowSet>
    var numDone: nat

    constructor (servers: seq<string>, merged: bool)
      ensures this.servers == servers && this.merged == merged
      ensures rows == map[] && numDone == 0
    {
      this.servers := servers;
      this.merged := merged;
      rows := map[];
      numDone := 0;
    }

    /** One `case s := <-doneCh` of the receive loop. The counter moves before anything
        can fail; on a fatal outcome the table is left as it was. */
    method Receive(s: RunOutput) returns (err: Option<Fatal>)
      modifies this
      ensures numDone == old(numDone) + 1
      ensures Step(merged, old(rows), s).Success? ==> err == None && rows == Step(merged, old(rows), s).value
      ensures Step(merged, old(rows), s).Failure? ==> err == Some(Step(merged, old(rows), s).error) && rows == old(rows)
    {
      numDone := numDone + 1;
      var key := s.response.service;
      var ok := key in rows;
      if ok && merged {
        var parsedCpu := ParsePercent(s.response.cpu);
        if parsedCpu.None? { return Some(CpuParseError); }
        var parsedMem := ParsePercent(s.response.memory);
        if parsedMem.None? { return Some(MemParseError); }
        var mergedRow := UpdateMergedRow(AsMerged(rows[key]), s.ip, parsedCpu.value, parsedMem.value);
        if mergedRow.None? { return Some(DivideByZero); }
        rows := rows[key := Merged(mergedRow.value)];
      } else if ok && !merged {
        var status := IsUnhealthy(s.response.cpu, s.response.memory);
        if status.Failure? { return Some(status.error); }
        var defaultRow := NewDefaultRow(s, status.value);
        var defaultRows := AsDefault(rows[key]);
        defaultRows := defaultRows + [defaultRow];
        rows := rows[key := DefaultRows(defaultRows)];
      } else if !ok && merged {
        var parsedCpu := ParsePercent(s.response.cpu);
        if parsedCpu.None? { return Some(CpuParseError); }
        var parsedMem := ParsePercent(s.response.memory);
        if parsedMem.None? { return Some(MemParseError); }
        var mergedRow := MergedRow([s.ip], key, Wrap32(parsedCpu.value), Wrap32(parsedMem.value), 1);
        rows := rows[key := Merged(mergedRow)];
      } else {
        var status := IsUnhealthy(s.response.cpu, s.response.memory);
        if status.Failure? { return Some(status.error); }
        var defaultRow := NewDefaultRow(s, status.value);
        assert [] + [defaultRow] == [defaultRow];
        rows := rows[key := DefaultRows([defaultRow])];
      }
      return None;
    }

    /** The receive loop of one pass: `outputs` is the order in which the workers' results
        arrive, one per server. The loop ends when the counter reaches the number of servers,
        or at the first fatal outcome. */
    method Collect(outputs: seq<RunOutput>) returns (err: Option<Fatal>)
      requires rows == map[] && numDone == 0
      requires multiset(IpsOf(outputs)) == multiset(servers)
      modifies this
      ensures err.None? <==> Fold(merged, map[], outputs).Success?
      ensures err.None? ==> rows == Fold(merged, map[], outputs).value && numDone == |servers|
      ensures err.Some? ==> err.value == Fold(merged, map[], outputs).error && 1 <= numDone <= |servers|
    {
      assert |IpsOf(outputs)| == |multiset(servers)|;
      while numDone != |servers|
        invariant numDone <= |servers| == |outputs|
        invariant Fold(merged, map[], outputs[..numDone]) == Success(rows)
        decreases |servers| - numDone
      {
        var s := outputs[numDone];
        ghost var before := outputs[..numDone];
        assert outputs[..numDone + 1][..numDone] == before;
        err := Receive(s);
        if err.Some? {
          FoldStopsAtFailure(merged, outputs, numDone);
          return;
        }
      }
      assert outputs[..numDone] == outputs;
      return None;
    }
  }

  /** Once a prefix fails, the whole fold fails the same way. */
  lemma {:induction false} FoldStopsAtFailure(merged: bool, outs: seq<RunOutput>, k: nat)
    requires k <= |outs|
    requires Fold(merged, map[], outs[..k]).Failure?
    ensures Fold(merged, map[], outs) == Fold(merged, map[], outs[..k])
    decreases |outs| - k
  {
    if k < |outs| {
      assert outs[..k + 1][..k] == outs[..k];
      FoldStopsAtFailure(merged, outs, k + 1);
    } else {
      assert outs[..k] == outs;
    }
  }
}
