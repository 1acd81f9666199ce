/** What the live view guarantees: the set-up index, the cells a default tick writes and the
    ones it leaves alone, the merged tick's sums and averages, and the circular history. */
module FollowFacts {
  import opened Wrappers
  import opened GoInt
  import opened Ls
  import opened LsFacts
  import opened Render
  import opened Follow

  // ---------------------------------------------------------------- set-up index

  /** Every IP of the rows is indexed, at the table position (1-based body row) of its last
      row: that row has the IP, and no later row does. */
  lemma {:induction false} IndexOfLast(r: seq<DefaultRow>)
    ensures forall i :: 0 <= i < |r| ==> r[i].ip in IndexOf(r)
    ensures forall ip :: ip in IndexOf(r) ==>
      1 <= IndexOf(r)[ip] <= |r| && r[IndexOf(r)[ip] - 1].ip == ip &&
      forall j :: IndexOf(r)[ip] <= j < |r| ==> r[j].ip != ip
    decreases |r|
  {
    if r != [] {
      var front := r[..|r| - 1];
      IndexOfLast(front);
      forall i | 0 <= i < |r| ensures r[i].ip in IndexOf(r) {
        if i < |r| - 1 { assert r[i] == front[i]; }
      }
      forall ip | ip in IndexOf(r)
        ensures 1 <= IndexOf(r)[ip] <= |r| && r[IndexOf(r)[ip] - 1].ip == ip &&
                forall j :: IndexOf(r)[ip] <= j < |r| ==> r[j].ip != ip
      {
        if ip != r[|r| - 1].ip {
          var p := IndexOf(front)[ip];
          assert r[p - 1] == front[p - 1];
          forall j | p <= j < |r| ensures r[j].ip != ip {
            if j < |r| - 1 { assert r[j] == front[j]; }
          }
        }
      }
    }
  }

  /** With distinct IPs, the i-th row (0-based) is found at table row i + 1, so different IPs
      have different rows. */
  lemma IndexOfDistinct(r: seq<DefaultRow>)
    requires forall i, j :: 0 <= i < j < |r| ==> r[i].ip != r[j].ip
    ensures forall i :: 0 <= i < |r| ==> r[i].ip in IndexOf(r) && IndexOf(r)[r[i].ip] == i + 1
  {
    IndexOfFits(r);
    forall i | 0 <= i < |r| ensures r[i].ip in IndexOf(r) && IndexOf(r)[r[i].ip] == i + 1 {
      IndexOfAt(r, r[i].ip);
    }
  }

  /** With distinct IPs, the set-up's `ips[k]` is indexed at table row k + 1. */
  lemma RowIpsPositions(r: seq<DefaultRow>)
    requires forall i, j :: 0 <= i < j < |r| ==> r[i].ip != r[j].ip
    ensures forall k :: 0 <= k < |RowIps(r)| ==> RowIps(r)[k] in IndexOf(r) && IndexOf(r)[RowIps(r)[k]] == k + 1
  {
    IndexOfDistinct(r);
  }

  /** The table row an IP is indexed at holds a row with that IP. */
  lemma {:induction false} IndexOfAt(r: seq<DefaultRow>, ip: string)
    requires ip in IndexOf(r)
    ensures 1 <= IndexOf(r)[ip] <= |r| && r[IndexOf(r)[ip] - 1].ip == ip
    decreases |r|
  {
    var front := r[..|r| - 1];
    if ip != r[|r| - 1].ip {
      IndexOfAt(front, ip);
      assert r[IndexOf(front)[ip] - 1] == front[IndexOf(front)[ip] - 1];
    }
  }

  /** The table row an IP is indexed at shows that IP. */
  lemma {:induction false} SetupRowOfIp(r: seq<DefaultRow>, ip: string)
    requires ip in IndexOf(r)
    ensures var rows := [DefaultHeader] + DefaultRowsCells(r);
      1 <= IndexOf(r)[ip] < |rows| && rows[IndexOf(r)[ip]][0] == ip
  {
    IndexOfAt(r, ip);
    var p := IndexOf(r)[ip];
    assert ([DefaultHeader] + DefaultRowsCells(r))[p] == DefaultCells(r[p - 1]);
  }

  // ---------------------------------------------------------------- default tick

  /** No IP of the tick is indexed at table row `i`. */
  predicate Untouched(index: map<string, int>, ips: seq<string>, i: int)
  {
    forall k :: 0 <= k < |ips| ==> Lookup(index, ips[k]) != i
  }

  /** One iteration writes row `i` only, and never its first two columns. */
  lemma WriteSampleFrame(rows: seq<seq<string>>, i: int, s: ServiceResponse)
    requires 0 <= i < |rows| && FiveColumns(rows)
    ensures forall j :: 0 <= j < |rows| && j != i ==> WriteSample(rows, i, s).0[j] == rows[j]
    ensures WriteSample(rows, i, s).0[i][0] == rows[i][0] && WriteSample(rows, i, s).0[i][1] == rows[i][1]
    ensures WriteSample(rows, i, s).1.None? <==> IsUnhealthy(s.cpu, s.memory).Success?
    ensures WriteSample(rows, i, s).1.Some? ==> IsUnhealthy(s.cpu, s.memory) == Failure(WriteSample(rows, i, s).1.value)
    ensures IsUnhealthy(s.cpu, s.memory).Success? ==> WriteSample(rows, i, s).0[i] == Refreshed(rows[i], s)
  {
  }

  /** Columns 0 and 1 never change, nor does any row no IP of the tick is indexed at (with
      every IP indexed, that includes the header row). */
  lemma {:induction false} DefaultTickFrame(rows: seq<seq<string>>, ips: seq<string>, index: map<string, int>,
                                            samples: seq<ServiceResponse>)
    requires |samples| == |ips| && FiveColumns(rows) && |rows| >= 1 && IndexFits(rows, index)
    ensures var t := DefaultTick(rows, ips, index, samples).0;
      (forall i :: 0 <= i < |rows| ==> t[i][0] == rows[i][0] && t[i][1] == rows[i][1]) &&
      (forall i :: 0 <= i < |rows| && Untouched(index, ips, i) ==> t[i] == rows[i])
    decreases |ips|
  {
    if ips != [] {
      var n := |ips| - 1;
      DefaultTickFrame(rows, ips[..n], index, samples[..n]);
      var before := DefaultTick(rows, ips[..n], index, samples[..n]);
      if before.1.None? {
        WriteSampleFrame(before.0, Lookup(index, ips[n]), samples[n]);
      }
      forall i | 0 <= i < |rows| && Untouched(index, ips, i)
        ensures Untouched(index, ips[..n], i)
      {
        forall k | 0 <= k < n ensures Lookup(index, ips[..n][k]) != i {
          assert ips[..n][k] == ips[k];
        }
      }
    }
  }

  /** Every sample's texts parse. */
  predicate AllClassify(samples: seq<ServiceResponse>)
  {
    forall k :: 0 <= k < |samples| ==> IsUnhealthy(samples[k].cpu, samples[k].memory).Success?
  }

  /** Sample `k` is the first whose texts do not parse, and `e` is its error. */
  predicate FirstFailure(samples: seq<ServiceResponse>, k: int, e: Fatal)
  {
    0 <= k < |samples| && IsUnhealthy(samples[k].cpu, samples[k].memory) == Failure(e) &&
    AllClassify(samples[..k])
  }

  /** The tick completes exactly when every sample's texts parse. */
  lemma {:induction false} DefaultTickCompletes(rows: seq<seq<string>>, ips: seq<string>, index: map<string, int>,
                                                samples: seq<ServiceResponse>)
    requires |samples| == |ips| && FiveColumns(rows) && |rows| >= 1 && IndexFits(rows, index)
    ensures DefaultTick(rows, ips, index, samples).1.None? <==> AllClassify(samples)
    decreases |ips|
  {
    if ips != [] {
      var n := |ips| - 1;
      DefaultTickCompletes(rows, ips[..n], index, samples[..n]);
      AllClassifySnoc(samples);
      var before := DefaultTick(rows, ips[..n], index, samples[..n]);
      if before.1.None? {
        WriteSampleFrame(before.0, Lookup(index, ips[n]), samples[n]);
      }
    }
  }

  lemma AllClassifySnoc(samples: seq<ServiceResponse>)
    requires samples != []
    ensures var n := |samples| - 1;
      AllClassify(samples) <==> AllClassify(samples[..n]) && IsUnhealthy(samples[n].cpu, samples[n].memory).Success?
  {
    var n := |samples| - 1;
    assert forall k :: 0 <= k < n ==> samples[..n][k] == samples[k];
  }

  /** A tick that stops does so at the first sample whose texts do not parse, with its error. */
  lemma {:induction false} DefaultTickFirstError(rows: seq<seq<string>>, ips: seq<string>, index: map<string, int>,
                                                 samples: seq<ServiceResponse>)
    requires |samples| == |ips| && FiveColumns(rows) && |rows| >= 1 && IndexFits(rows, index)
    ensures DefaultTick(rows, ips, index, samples).1.Some? ==>
      exists k :: FirstFailure(samples, k, DefaultTick(rows, ips, index, samples).1.value)
    decreases |ips|
  {
    if ips != [] {
      var n := |ips| - 1;
      var front := samples[..n];
      DefaultTickFirstError(rows, ips[..n], index, front);
      var before := DefaultTick(rows, ips[..n], index, front);
      if before.1.Some? {
        var k :| FirstFailure(front, k, before.1.value);
        assert front[..k] == samples[..k] && front[k] == samples[k];
        assert FirstFailure(samples, k, before.1.value);
      } else {
        DefaultTickCompletes(rows, ips[..n], index, front);
        WriteSampleFrame(before.0, Lookup(index, ips[n]), samples[n]);
        var after := WriteSample(before.0, Lookup(index, ips[n]), samples[n]);
        if after.1.Some? {
          assert FirstFailure(samples, n, after.1.value);
        }
      }
    }
  }

  /** The row sample `k` writes when no other IP of the tick shares its table row. */
  function Refreshed(row: seq<string>, s: ServiceResponse): seq<string>
    requires |row| == 5 && IsUnhealthy(s.cpu, s.memory).Success?
  {
    row[2 := s.cpu][3 := s.memory][4 := StatusText(IsUnhealthy(s.cpu, s.memory).value)]
  }

  /** A completed tick whose IPs sit on distinct rows writes each IP's row with that IP's own
      sample: cpu and memory texts and the status they classify to. */
  lemma {:induction false} DefaultTickWrites(rows: seq<seq<string>>, ips: seq<string>, index: map<string, int>,
                                             samples: seq<ServiceResponse>)
    requires |samples| == |ips| && FiveColumns(rows) && |rows| >= 1 && IndexFits(rows, index)
    requires forall k :: 0 <= k < |ips| ==> ips[k] in index
    requires forall k, j :: 0 <= k < j < |ips| ==> index[ips[k]] != index[ips[j]]
    requires DefaultTick(rows, ips, index, samples).1.None?
    ensures forall k :: 0 <= k < |ips| ==>
      (IsUnhealthy(samples[k].cpu, samples[k].memory).Success? &&
       DefaultTick(rows, ips, index, samples).0[index[ips[k]]] == Refreshed(rows[index[ips[k]]], samples[k]))
    decreases |ips|
  {
    if ips != [] {
      var n := |ips| - 1;
      var ips', samples' := ips[..n], samples[..n];
      assert forall k :: 0 <= k < n ==> ips'[k] == ips[k] && samples'[k] == samples[k];
      var before := DefaultTick(rows, ips', index, samples');
      assert before.1.None?;
      DefaultTickWrites(rows, ips', index, samples');
      DefaultTickFrame(rows, ips', index, samples');
      var i := index[ips[n]];
      assert Untouched(index, ips', i) by {
        forall k | 0 <= k < n ensures Lookup(index, ips'[k]) != i {
          assert index[ips[k]] != index[ips[n]];
        }
      }
      WriteSampleFrame(before.0, i, samples[n]);
      var after := WriteSample(before.0, i, samples[n]);
      assert DefaultTick(rows, ips, index, samples) == after;
      forall k | 0 <= k < |ips|
        ensures IsUnhealthy(samples[k].cpu, samples[k].memory).Success? &&
          after.0[index[ips[k]]] == Refreshed(rows[index[ips[k]]], samples[k])
      {
        if k < n {
          assert index[ips[k]] != i;
          assert before.0[index[ips'[k]]] == Refreshed(rows[index[ips'[k]]], samples'[k]);
        }
      }
    }
  }

  /** The set-up followed by a completed tick, for a service whose rows have distinct IPs:
      the header stays, and body row i + 1 shows row i's IP and service with sample i. */
  lemma {:induction false} DefaultRefresh(r: seq<DefaultRow>, samples: seq<ServiceResponse>)
    requires |samples| == |r|
    requires forall i, j :: 0 <= i < j < |r| ==> r[i].ip != r[j].ip
    requires IndexOfFitsRows(r)
    requires DefaultTick([DefaultHeader] + DefaultRowsCells(r), RowIps(r), IndexOf(r), samples).1.None?
    ensures var t := DefaultTick([DefaultHeader] + DefaultRowsCells(r), RowIps(r), IndexOf(r), samples).0;
      t[0] == DefaultHeader &&
      forall i :: 0 <= i < |r| ==>
        (IsUnhealthy(samples[i].cpu, samples[i].memory).Success? &&
         t[i + 1] == [r[i].ip, r[i].name, samples[i].cpu, samples[i].memory,
                      StatusText(IsUnhealthy(samples[i].cpu, samples[i].memory).value)])
  {
    var rows := [DefaultHeader] + DefaultRowsCells(r);
    var ips := RowIps(r);
    var index := IndexOf(r);
    RowIpsPositions(r);
    TickAtPositions(rows, ips, index, samples);
    RefreshedTable(r, samples, DefaultTick(rows, ips, index, samples).0);
  }

  /** A table whose body rows are the set-up rows refreshed with their samples shows each
      row's IP and service with its sample's texts and status. */
  lemma RefreshedTable(r: seq<DefaultRow>, samples: seq<ServiceResponse>, t: seq<seq<string>>)
    requires |samples| == |r| && |t| == |r| + 1
    requires forall k :: 0 <= k < |r| ==>
      (IsUnhealthy(samples[k].cpu, samples[k].memory).Success? &&
       t[k + 1] == Refreshed(([DefaultHeader] + DefaultRowsCells(r))[k + 1], samples[k]))
    ensures forall i :: 0 <= i < |r| ==>
      (IsUnhealthy(samples[i].cpu, samples[i].memory).Success? &&
       t[i + 1] == [r[i].ip, r[i].name, samples[i].cpu, samples[i].memory,
                    StatusText(IsUnhealthy(samples[i].cpu, samples[i].memory).value)])
  {
    var rows := [DefaultHeader] + DefaultRowsCells(r);
    forall i | 0 <= i < |r|
      ensures IsUnhealthy(samples[i].cpu, samples[i].memory).Success? &&
        t[i + 1] == [r[i].ip, r[i].name, samples[i].cpu, samples[i].memory,
                     StatusText(IsUnhealthy(samples[i].cpu, samples[i].memory).value)]
    {
      assert rows[i + 1] == DefaultCells(r[i]);
      RefreshedCells(r[i], samples[i]);
    }
  }

  /** Refreshing a set-up row keeps its IP and service and takes the sample's texts and status. */
  lemma RefreshedCells(row: DefaultRow, s: ServiceResponse)
    requires IsUnhealthy(s.cpu, s.memory).Success?
    ensures Refreshed(DefaultCells(row), s) ==
      [row.ip, row.name, s.cpu, s.memory, StatusText(IsUnhealthy(s.cpu, s.memory).value)]
  {
  }

  /** A completed tick over IPs indexed at rows 1, 2, …: row 0 stays and row k + 1 is
      refreshed with sample k. */
  lemma TickAtPositions(rows: seq<seq<string>>, ips: seq<string>, index: map<string, int>,
                        samples: seq<ServiceResponse>)
    requires |samples| == |ips| && FiveColumns(rows) && |rows| >= 1 && IndexFits(rows, index)
    requires forall k :: 0 <= k < |ips| ==> ips[k] in index && index[ips[k]] == k + 1
    requires DefaultTick(rows, ips, index, samples).1.None?
    ensures var t := DefaultTick(rows, ips, index, samples).0;
      t[0] == rows[0] &&
      forall k :: 0 <= k < |ips| ==>
        (IsUnhealthy(samples[k].cpu, samples[k].memory).Success? && k + 1 < |rows| &&
         t[k + 1] == Refreshed(rows[k + 1], samples[k]))
  {
    DefaultTickWrites(rows, ips, index, samples);
    DefaultTickFrame(rows, ips, index, samples);
    assert Untouched(index, ips, 0);
  }

  /** The set-up table satisfies the tick's precondition on the index. */
  predicate IndexOfFitsRows(r: seq<DefaultRow>)
  {
    IndexFits([DefaultHeader] + DefaultRowsCells(r), IndexOf(r)) &&
    FiveColumns([DefaultHeader] + DefaultRowsCells(r))
  }

  lemma IndexOfFitsAlways(r: seq<DefaultRow>)
    ensures IndexOfFitsRows(r)
  {
    IndexOfLast(r);
  }

  // ---------------------------------------------------------------- merged tick

  /** Every sample's two texts parse. */
  predicate AllParse(samples: seq<ServiceResponse>)
  {
    forall i :: 0 <= i < |samples| ==> ParsePair(samples[i].cpu, samples[i].memory).Success?
  }

  /** The exact (unbounded) totals of the parsed readings. */
  function Totals(samples: seq<ServiceResponse>): (int, int)
    requires AllParse(samples)
    decreases |samples|
  {
    if samples == [] then (0, 0)
    else
      var front := samples[..|samples| - 1];
      assert AllParse(front) by { forall i | 0 <= i < |front| ensures front[i] == samples[i] { } }
      var t := Totals(front);
      var p := ParsePair(samples[|samples| - 1].cpu, samples[|samples| - 1].memory).value;
      (t.0 + p.0, t.1 + p.1)
  }

  /** One iteration succeeds exactly when the sums so far did and the sample parses, and
      adds the sample's readings, wrapped to 64 bits. */
  lemma AddSampleParsed(sums: Result<(int, int), Fatal>, s: ServiceResponse)
    ensures AddSample(sums, s).Success? <==> sums.Success? && ParsePair(s.cpu, s.memory).Success?
    ensures AddSample(sums, s).Success? ==>
      AddSample(sums, s).value == (Wrap64(sums.value.0 + ParsePair(s.cpu, s.memory).value.0),
                                   Wrap64(sums.value.1 + ParsePair(s.cpu, s.memory).value.1))
  {
  }

  /** All samples parse exactly when all but the last do and the last does. */
  lemma AllParseSnoc(samples: seq<ServiceResponse>)
    requires samples != []
    ensures AllParse(samples) <==>
      AllParse(samples[..|samples| - 1]) &&
      ParsePair(samples[|samples| - 1].cpu, samples[|samples| - 1].memory).Success?
  {
    var front := samples[..|samples| - 1];
    assert forall i :: 0 <= i < |front| ==> front[i] == samples[i];
  }

  /** The sums succeed exactly when every sample parses. */
  lemma {:induction false} MergedSumsParse(samples: seq<ServiceResponse>)
    ensures MergedSums(samples).Success? <==> AllParse(samples)
    decreases |samples|
  {
    if samples != [] {
      var front := samples[..|samples| - 1];
      MergedSumsParse(front);
      AllParseSnoc(samples);
      AddSampleParsed(MergedSums(front), samples[|samples| - 1]);
    }
  }

  /** When every sample parses, the sums are the exact totals wrapped to 64 bits. */
  lemma {:induction false} MergedSumsTotals(samples: seq<ServiceResponse>)
    requires AllParse(samples)
    ensures MergedSums(samples) == Success((Wrap64(Totals(samples).0), Wrap64(Totals(samples).1)))
    decreases |samples|
  {
    if samples != [] {
      var front := samples[..|samples| - 1];
      var s := samples[|samples| - 1];
      AllParseSnoc(samples);
      TotalsSnoc(samples);
      MergedSumsTotals(front);
      var t := Totals(front);
      var p := ParsePair(s.cpu, s.memory).value;
      assert MergedSums(samples) == AddSample(Success((Wrap64(t.0), Wrap64(t.1))), s);
      AddSampleParsed(MergedSums(front), s);
      Wrap64Add(t.0, p.0);
      Wrap64Add(t.1, p.1);
    }
  }

  /** Every parsed reading of the chosen metric lies in `[lo, hi]`. */
  predicate SamplesWithin(samples: seq<ServiceResponse>, cpuMetric: bool, lo: int, hi: int)
    requires AllParse(samples)
  {
    forall i :: 0 <= i < |samples| ==>
      var p := ParsePair(samples[i].cpu, samples[i].memory).value;
      lo <= (if cpuMetric then p.0 else p.1) <= hi
  }

  lemma {:induction false} TotalsWithin(samples: seq<ServiceResponse>, cpuMetric: bool, lo: int, hi: int)
    requires AllParse(samples) && SamplesWithin(samples, cpuMetric, lo, hi)
    ensures var t := if cpuMetric then Totals(samples).0 else Totals(samples).1;
      lo * |samples| <= t <= hi * |samples|
    decreases |samples|
  {
    if samples != [] {
      var m := |samples| - 1;
      var front := samples[..m];
      TotalsSnoc(samples);
      assert SamplesWithin(front, cpuMetric, lo, hi) by {
        forall i | 0 <= i < m ensures front[i] == samples[i] { }
      }
      TotalsWithin(front, cpuMetric, lo, hi);
      var t := Totals(front);
      var p := ParsePair(samples[m].cpu, samples[m].memory).value;
      var v := if cpuMetric then p.0 else p.1;
      assert lo <= v <= hi;
      SumWithin(if cpuMetric then t.0 else t.1, v, lo, hi, m);
    }
  }

  lemma SumWithin(x: int, v: int, lo: int, hi: int, m: nat)
    requires lo * m <= x <= hi * m && lo <= v <= hi
    ensures lo * (m + 1) <= x + v <= hi * (m + 1)
  {
    assert lo * (m + 1) == lo * m + lo && hi * (m + 1) == hi * m + hi;
  }

  /** The totals of all samples are those of all but the last plus the last one's readings. */
  lemma {:induction false} TotalsSnoc(samples: seq<ServiceResponse>)
    requires samples != [] && AllParse(samples)
    ensures AllParse(samples[..|samples| - 1])
    ensures var p := ParsePair(samples[|samples| - 1].cpu, samples[|samples| - 1].memory).value;
      Totals(samples) == (Totals(samples[..|samples| - 1]).0 + p.0, Totals(samples[..|samples| - 1]).1 + p.1)
  {
    var front := samples[..|samples| - 1];
    forall i | 0 <= i < |front| ensures front[i] == samples[i] { }
  }

  /** `sum / len(ips)` over the whole IP set lies between the smallest and the largest
      reading of the tick (for non-negative readings within the 64-bit range). */
  lemma MergedAverageWithin(samples: seq<ServiceResponse>, cpuMetric: bool, lo: int, hi: int)
    requires samples != [] && AllParse(samples) && SamplesWithin(samples, cpuMetric, lo, hi)
    requires 0 <= lo <= hi && hi * |samples| <= MaxInt64
    ensures MergedAverages(samples).Success?
    ensures lo <= (if cpuMetric then MergedAverages(samples).value.0 else MergedAverages(samples).value.1) <= hi
  {
    MergedSumsParse(samples);
    MergedSumsTotals(samples);
    TotalsWithin(samples, cpuMetric, lo, hi);
    var t := if cpuMetric then Totals(samples).0 else Totals(samples).1;
    assert 0 <= lo * |samples| by { MulMono(0, lo, |samples|); }
    DivBounds(t, lo, hi, |samples|);
  }

  /** Two IPs of the service and readings that fit 64 bits: the averages are the truncated
      means of each tick's own two readings, whatever earlier ticks showed. */
  lemma TwoSampleAverages(s1: ServiceResponse, s2: ServiceResponse, c1: int, m1: int, c2: int, m2: int)
    requires ParsePair(s1.cpu, s1.memory) == Success((c1, m1))
    requires ParsePair(s2.cpu, s2.memory) == Success((c2, m2))
    requires 0 <= c1 <= 100 && 0 <= c2 <= 100 && 0 <= m1 <= 100 && 0 <= m2 <= 100
    ensures MergedAverages([s1, s2]) == Success(((c1 + c2) / 2, (m1 + m2) / 2))
  {
    assert [s1, s2][..1] == [s1];
    assert [s1][..0] == [];
    assert MergedSums([s1]) == Success((c1, m1));
    assert MergedSums([s1, s2]) == Success((c1 + c2, m1 + m2));
  }

  // ---------------------------------------------------------------- circular history

  /** The write index is always in bounds, and tick t + 80 writes the slot of tick t. */
  lemma SlotPeriodic(t: nat)
    ensures Slot(t) < DataPoints && Slot(t + DataPoints) == Slot(t)
  {
  }

  /** The buffer holds the last 80 values written, each at its tick's slot, and 0 in the
      slots no tick has reached yet. */
  lemma {:induction false} RingBufferHolds(hist: seq<int>)
    ensures forall t :: 0 <= t < |hist| && |hist| - DataPoints <= t ==> RingBuffer(hist)[Slot(t)] == hist[t]
    ensures forall j :: |hist| <= j < DataPoints ==> RingBuffer(hist)[j] == 0
    decreases |hist|
  {
    if hist != [] {
      var n := |hist| - 1;
      var front := hist[..n];
      RingBufferHolds(front);
      forall t | 0 <= t < |hist| && |hist| - DataPoints <= t
        ensures RingBuffer(hist)[Slot(t)] == hist[t]
      {
        if t < n {
          assert front[t] == hist[t];
          SlotsDiffer(t, n);
        }
      }
    }
  }

  lemma SlotsDiffer(t: nat, n: nat)
    requires t < n < t + DataPoints
    ensures Slot(t) != Slot(n)
  {
    var q := t / DataPoints;
    var q' := n / DataPoints;
    assert t == q * DataPoints + Slot(t) && n == q' * DataPoints + Slot(n);
    if q' == q {
      assert Slot(n) - Slot(t) == n - t;
    } else {
      assert q' >= q + 1;
      assert n - t == (q' - q) * DataPoints + Slot(n) - Slot(t);
    }
  }
}
